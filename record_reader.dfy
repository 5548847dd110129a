/** The record reader, ParseWords: pulls a given number of 16-bit words from an operand
    cursor, reading further raw lines when the cursor runs dry; in byte mode it packs byte
    pairs, high byte first, and a pair may span two lines. */
module RecordReader {

  import opened Results
  import opened Words
  import opened Text
  import opened Literals
  import opened Lexer

  /** Where reading stands: `pos` is the next raw line the reader would return; `operands`
      and `next` are the operand enumerator (the token MoveNext would advance to), and
      `isByte` the operand size of the line they came from. */
  datatype Cursor = Cursor(pos: nat, operands: seq<string>, next: nat, isByte: bool)

  /** A raw line read by ParseWords: comments stripped and trimmed, then taken as a directive
      as it stands (it is neither skipped when blank nor checked for a label). */
  function Continuation(line: string): Result<Directive> {
    GetOperandEnumerator(Trim(StripComments(line)))
  }

  /** Every line of the file as ParseWords would take it apart, should it read that line.
      Taking a line apart depends on nothing but the line, so doing it for all lines in
      advance changes nothing. */
  function Lex(lines: seq<string>): (r: seq<Result<Directive>>)
    ensures |r| == |lines|
    ensures forall i :: 0 <= i < |lines| ==> r[i] == Continuation(lines[i])
  {
    seq(|lines|, i requires 0 <= i < |lines| => Continuation(lines[i]))
  }

  predicate InLines(lines: seq<Result<Directive>>, c: Cursor) {
    c.pos <= |lines| && c.next <= |c.operands|
  }

  /** Reference definition of ParseWords, from a state in the middle of its loop: `words`
      gathered so far and `pending`, the first byte of a half-filled pair.
      On success the result holds the advanced cursor and exactly `count` words, of
      which `words` is the start. */
  function ReadWords(lines: seq<Result<Directive>>, c: Cursor, count: int, words: seq<Short>, pending: seq<Byte>)
    : (r: Result<(Cursor, seq<Short>)>)
    requires InLines(lines, c) && |pending| <= 1
    ensures r.Ok? ==>
      && |r.value.1| == count
      && |words| <= count && r.value.1[..|words|] == words
      && InLines(lines, r.value.0)
      && c.pos <= r.value.0.pos
    decreases |lines| - c.pos, |c.operands| - c.next
  {
    if !c.isByte && pending != [] then Fail
    else if c.next < |c.operands| then
      match ParseOperandValue(c.operands[c.next])
      case Fail => Fail
      case Ok(v) =>
        var c' := c.(next := c.next + 1);
        if c.isByte then
          if pending == [] then ReadWords(lines, c', count, words, [ToByte(v)])
          else
            var words' := words + [CombineBytes(pending[0], ToByte(v))];
            if |words'| == count then Ok((c', words')) else ReadWords(lines, c', count, words', [])
        else
          var words' := words + [ToShort(v)];
          if |words'| == count then Ok((c', words')) else ReadWords(lines, c', count, words', pending)
    else if c.pos == |lines| then Fail
    else
      match lines[c.pos]
      case Fail => Fail
      case Ok(d) => ReadWords(lines, Cursor(c.pos + 1, d.operands, 0, d.isByte), count, words, pending)
  }

  /** The two ways ParseWords runs dry: a `dc.w` line reached while a byte of a pair is
      pending, and the last line consumed with words still missing. */
  lemma ReadWordsFails(lines: seq<Result<Directive>>, c: Cursor, count: int, words: seq<Short>, pending: seq<Byte>)
    requires InLines(lines, c) && |pending| <= 1
    ensures !c.isByte && pending != [] ==> ReadWords(lines, c, count, words, pending).Fail?
    ensures c.next == |c.operands| && c.pos == |lines| ==> ReadWords(lines, c, count, words, pending).Fail?
  {
  }

  /** The count is compared only when a word has just been added, so a reader that already
      holds `count` words (or more) never stops: it reads on until the lines run out, and
      fails. In particular ParseWords asked for zero words always fails, which is why Parse
      asks for more only when the product is not zero. */
  lemma {:induction false} CountReachedFails(lines: seq<Result<Directive>>, c: Cursor, count: int, words: seq<Short>, pending: seq<Byte>)
    requires InLines(lines, c) && |pending| <= 1 && count <= |words|
    ensures ReadWords(lines, c, count, words, pending).Fail?
    decreases |lines| - c.pos, |c.operands| - c.next
  {
    if !c.isByte && pending != [] {
    } else if c.next < |c.operands| {
      match ParseOperandValue(c.operands[c.next])
      case Fail =>
      case Ok(v) =>
        var c' := c.(next := c.next + 1);
        if c.isByte {
          if pending == [] {
            CountReachedFails(lines, c', count, words, [ToByte(v)]);
          } else {
            CountReachedFails(lines, c', count, words + [CombineBytes(pending[0], ToByte(v))], []);
          }
        } else {
          CountReachedFails(lines, c', count, words + [ToShort(v)], pending);
        }
    } else if c.pos < |lines| {
      match lines[c.pos]
      case Fail =>
      case Ok(d) => CountReachedFails(lines, Cursor(c.pos + 1, d.operands, 0, d.isByte), count, words, pending);
    }
  }

  /** One unfolding of ReadWords for a byte operand. */
  lemma {:induction false} ByteStep(lines: seq<Result<Directive>>, c: Cursor, count: int, words: seq<Short>, pending: seq<Byte>, v: Int32)
    requires InLines(lines, c) && |pending| <= 1 && c.next < |c.operands| && c.isByte
    requires ParseOperandValue(c.operands[c.next]) == Ok(v)
    ensures var c' := c.(next := c.next + 1);
      ReadWords(lines, c, count, words, pending) ==
        if pending == [] then ReadWords(lines, c', count, words, [ToByte(v)])
        else
          var words' := words + [CombineBytes(pending[0], ToByte(v))];
          if |words'| == count then Ok((c', words')) else ReadWords(lines, c', count, words', [])
  {
  }

  /** One unfolding of ReadWords for a word operand. */
  lemma {:induction false} WordStep(lines: seq<Result<Directive>>, c: Cursor, count: int, words: seq<Short>, pending: seq<Byte>, v: Int32)
    requires InLines(lines, c) && pending == [] && c.next < |c.operands| && !c.isByte
    requires ParseOperandValue(c.operands[c.next]) == Ok(v)
    ensures var c' := c.(next := c.next + 1);
      var words' := words + [ToShort(v)];
      ReadWords(lines, c, count, words, pending) ==
        if |words'| == count then Ok((c', words')) else ReadWords(lines, c', count, words', pending)
  {
  }

  /** One unfolding of ReadWords when the cursor is exhausted and a further line is read. */
  lemma {:induction false} LineStep(lines: seq<Result<Directive>>, c: Cursor, count: int, words: seq<Short>, pending: seq<Byte>, d: Directive)
    requires InLines(lines, c) && |pending| <= 1 && c.next == |c.operands| && c.pos < |lines|
    requires c.isByte || pending == []
    requires lines[c.pos] == Ok(d)
    ensures ReadWords(lines, c, count, words, pending)
         == ReadWords(lines, Cursor(c.pos + 1, d.operands, 0, d.isByte), count, words, pending)
  {
  }

  /** The (short) casts of operand values, as a `dc.w` line yields its words. */
  function Shorts(vs: seq<Int32>): (r: seq<Short>)
    ensures |r| == |vs|
  {
    if vs == [] then [] else [ToShort(vs[0])] + Shorts(vs[1..])
  }

  /** The (byte) casts of operand values, as a `dc.b` line yields its bytes. */
  function Bytes(vs: seq<Int32>): (r: seq<Byte>)
    ensures |r| == |vs|
  {
    if vs == [] then [] else [ToByte(vs[0])] + Bytes(vs[1..])
  }

  /** The operands of the cursor's line, from the one it stands on, parse as vs. */
  predicate ParsesAs(c: Cursor, vs: seq<Int32>)
    decreases |vs|
  {
    && c.next + |vs| <= |c.operands|
    && (vs != [] ==>
         && ParseOperandValue(c.operands[c.next]) == Ok(vs[0])
         && ParsesAs(c.(next := c.next + 1), vs[1..]))
  }

  /** The first word cast off the front of vs, after the words so far. */
  lemma ShortsCons(words: seq<Short>, vs: seq<Int32>)
    requires vs != []
    ensures (words + [ToShort(vs[0])]) + Shorts(vs[1..]) == words + Shorts(vs)
  {
    var s0 := ToShort(vs[0]);
    var rest := Shorts(vs[1..]);
    assert Shorts(vs) == [s0] + rest;
    assert (words + [s0]) + rest == words + ([s0] + rest);
  }

  /** A single value gives a single word. */
  lemma ShortsOne(words: seq<Short>, vs: seq<Int32>)
    requires |vs| == 1
    ensures words + Shorts(vs) == words + [ToShort(vs[0])]
  {
    assert Shorts(vs[1..]) == [];
    assert Shorts(vs) == [ToShort(vs[0])] + [];
  }

  /** The first byte of vs, cast, with nothing pending before it. */
  lemma BytesOpen(vs: seq<Int32>)
    requires vs != []
    ensures [ToByte(vs[0])] + Bytes(vs[1..]) == [] + Bytes(vs)
    ensures [] + Bytes(vs) == Bytes(vs)
  {
    assert Bytes(vs) == [ToByte(vs[0])] + Bytes(vs[1..]);
  }

  /** A pending byte before the casts of vs: the first pair, then the rest. */
  lemma PendingFirst(p: Byte, vs: seq<Int32>)
    requires vs != []
    ensures [p] + Bytes(vs) == [p, ToByte(vs[0])] + Bytes(vs[1..])
  {
    var b := ToByte(vs[0]);
    var rest := Bytes(vs[1..]);
    assert Bytes(vs) == [b] + rest;
    assert [p] + ([b] + rest) == [p, b] + rest;
  }

  /** Concatenation is associative. */
  lemma Assoc<T>(a: seq<T>, b: seq<T>, c: seq<T>)
    ensures (a + b) + c == a + (b + c)
  {
  }

  /** A pending byte and the first of vs make a word; the rest of vs is packed afresh. */
  lemma BytesClose(words: seq<Short>, p: Byte, vs: seq<Int32>)
    requires vs != []
    ensures words + PairUp([p] + Bytes(vs))
         == (words + [CombineBytes(p, ToByte(vs[0]))]) + PairUp(Bytes(vs[1..]))
  {
    PendingFirst(p, vs);
    PairUpCons(p, ToByte(vs[0]), Bytes(vs[1..]));
    Assoc(words, [CombineBytes(p, ToByte(vs[0]))], PairUp(Bytes(vs[1..])));
  }

  /** What a pending byte and vs leave over is what the rest of vs leaves over. */
  lemma LeftoverClose(p: Byte, vs: seq<Int32>)
    requires vs != []
    ensures Leftover([p] + Bytes(vs)) == Leftover(Bytes(vs[1..]))
  {
    PendingFirst(p, vs);
    PairUpCons(p, ToByte(vs[0]), Bytes(vs[1..]));
  }

  /** Nothing pending adds nothing. */
  lemma NonePending(bs: seq<Byte>)
    ensures [] + bs == bs
  {
  }

  /** No operand left: the pending byte (or none) stays as it is. */
  lemma BytesNone(words: seq<Short>, pending: seq<Byte>, vs: seq<Int32>)
    requires vs == [] && |pending| <= 1
    ensures words + PairUp(pending + Bytes(vs)) == words
    ensures Leftover(pending + Bytes(vs)) == pending
  {
    assert pending + Bytes(vs) == pending;
  }

  /** One operand on: the cursor that is n - 1 further is the one n further from c. */
  lemma CursorOn(c: Cursor, n: nat)
    requires n >= 1
    ensures c.(next := c.next + 1).(next := c.next + 1 + (n - 1)) == c.(next := c.next + n)
  {
  }

  /** A `dc.w` line that holds the k words still wanted: they are the (short) casts of its
      next k operands, and the cursor stops right after the last of them, so the next read
      goes on from there. */
  lemma {:induction false} WordsWithinLine(lines: seq<Result<Directive>>, c: Cursor, count: int, words: seq<Short>, vs: seq<Int32>)
    requires InLines(lines, c) && !c.isByte
    requires |words| < count && |vs| == count - |words| && ParsesAs(c, vs)
    ensures ReadWords(lines, c, count, words, []) == Ok((c.(next := c.next + |vs|), words + Shorts(vs)))
    decreases |vs|
  {
    if |vs| == 1 {
      LastWord(lines, c, count, words, vs);
    } else {
      WordsAhead(lines, c, count, words, vs);
      WordsWithinLine(lines, c.(next := c.next + 1), count, words + [ToShort(vs[0])], vs[1..]);
      WordsJoin(ReadWords(lines, c.(next := c.next + 1), count, words + [ToShort(vs[0])], []), c, words, vs);
    }
  }

  /** An outcome that is the rest of vs read after its first word is the outcome for all of vs. */
  lemma WordsJoin(r: Result<(Cursor, seq<Short>)>, c: Cursor, words: seq<Short>, vs: seq<Int32>)
    requires vs != []
    requires var c' := c.(next := c.next + 1);
      r == Ok((c'.(next := c'.next + |vs[1..]|), words + [ToShort(vs[0])] + Shorts(vs[1..])))
    ensures r == Ok((c.(next := c.next + |vs|), words + Shorts(vs)))
  {
    WordsOn(c, words, vs);
    var c' := c.(next := c.next + 1);
    SameOutcome(c'.(next := c'.next + |vs[1..]|), c.(next := c.next + |vs|),
                words + [ToShort(vs[0])] + Shorts(vs[1..]), words + Shorts(vs));
  }

  /** After the first word, the rest: the same cursor and the same words as all of vs. */
  lemma WordsOn(c: Cursor, words: seq<Short>, vs: seq<Int32>)
    requires vs != []
    ensures var c' := c.(next := c.next + 1); c'.(next := c'.next + |vs[1..]|) == c.(next := c.next + |vs|)
    ensures words + [ToShort(vs[0])] + Shorts(vs[1..]) == words + Shorts(vs)
  {
    ShortsCons(words, vs);
    CursorOn(c, |vs|);
  }

  /** Equal cursors and equal words are the same outcome. */
  lemma SameOutcome(c: Cursor, c': Cursor, words: seq<Short>, words': seq<Short>)
    requires c == c' && words == words'
    ensures Ok((c, words)) == Ok((c', words'))
  {
  }

  /** One word read off a line that holds more than the last one: the read goes on from the
      next operand with the rest of vs, still short of the count. */
  lemma WordsAhead(lines: seq<Result<Directive>>, c: Cursor, count: int, words: seq<Short>, vs: seq<Int32>)
    requires InLines(lines, c) && !c.isByte
    requires |words| < count && |vs| == count - |words| && |vs| > 1 && ParsesAs(c, vs)
    ensures |words + [ToShort(vs[0])]| < count && |vs[1..]| == count - |words + [ToShort(vs[0])]|
    ensures ParsesAs(c.(next := c.next + 1), vs[1..])
    ensures ReadWords(lines, c, count, words, [])
         == ReadWords(lines, c.(next := c.next + 1), count, words + [ToShort(vs[0])], [])
  {
    WordStep(lines, c, count, words, [], vs[0]);
  }

  /** The operand that gives the last word ends the read right after it. */
  lemma LastWord(lines: seq<Result<Directive>>, c: Cursor, count: int, words: seq<Short>, vs: seq<Int32>)
    requires InLines(lines, c) && !c.isByte && c.next < |c.operands|
    requires |words| + 1 == count && |vs| == 1 && ParseOperandValue(c.operands[c.next]) == Ok(vs[0])
    ensures ReadWords(lines, c, count, words, []) == Ok((c.(next := c.next + |vs|), words + Shorts(vs)))
  {
    WordStep(lines, c, count, words, [], vs[0]);
    ShortsOne(words, vs);
  }

  /** A `dc.w` line with fewer operands than words still wanted: all of them are taken, and
      the read goes on at the end of the line. */
  lemma {:induction false} WordsAcrossLine(lines: seq<Result<Directive>>, c: Cursor, count: int, words: seq<Short>, vs: seq<Int32>)
    requires InLines(lines, c) && !c.isByte
    requires c.next + |vs| == |c.operands| && ParsesAs(c, vs) && |words| + |vs| < count
    ensures ReadWords(lines, c, count, words, [])
         == ReadWords(lines, c.(next := |c.operands|), count, words + Shorts(vs), [])
    decreases |vs|
  {
    if vs == [] {
      assert words + Shorts(vs) == words;
    } else {
      WordStep(lines, c, count, words, [], vs[0]);
      ShortsCons(words, vs);
      WordsAcrossLine(lines, c.(next := c.next + 1), count, words + [ToShort(vs[0])], vs[1..]);
    }
  }

  /** A byte with none pending: it becomes the pending one. */
  lemma ByteOpens(lines: seq<Result<Directive>>, c: Cursor, count: int, words: seq<Short>, v: Int32)
    requires InLines(lines, c) && c.next < |c.operands| && c.isByte
    requires ParseOperandValue(c.operands[c.next]) == Ok(v)
    ensures ReadWords(lines, c, count, words, []) == ReadWords(lines, c.(next := c.next + 1), count, words, [ToByte(v)])
  {
    ByteStep(lines, c, count, words, [], v);
  }

  /** A byte after a pending one: the pair becomes a word, which ends the read when it is
      the count-th. */
  lemma ByteCloses(lines: seq<Result<Directive>>, c: Cursor, count: int, words: seq<Short>, p: Byte, v: Int32)
    requires InLines(lines, c) && c.next < |c.operands| && c.isByte
    requires ParseOperandValue(c.operands[c.next]) == Ok(v)
    ensures |words| + 1 == count ==>
      ReadWords(lines, c, count, words, [p])
        == Ok((c.(next := c.next + 1), words + [CombineBytes(p, ToByte(v))]))
    ensures |words| + 1 != count ==>
      ReadWords(lines, c, count, words, [p])
        == ReadWords(lines, c.(next := c.next + 1), count, words + [CombineBytes(p, ToByte(v))], [])
  {
    ByteStep(lines, c, count, words, [p], v);
  }

  /** BytesWithinLine with no byte pending: 2k operands make the k words. */
  lemma {:induction false} BytesWithinLineWhole(lines: seq<Result<Directive>>, c: Cursor, count: int, words: seq<Short>, vs: seq<Int32>)
    requires InLines(lines, c) && c.isByte
    requires |words| < count && |vs| == 2 * (count - |words|) && ParsesAs(c, vs)
    ensures ReadWords(lines, c, count, words, []) == Ok((c.(next := c.next + |vs|), words + PairUp(Bytes(vs))))
    decreases |vs|, 1
  {
    BytesAhead(lines, c, count, words, vs);
    BytesWithinLineHalf(lines, c.(next := c.next + 1), count, words, ToByte(vs[0]), vs[1..]);
    BytesJoin(ReadWords(lines, c.(next := c.next + 1), count, words, [ToByte(vs[0])]), c, words,
              ToByte(vs[0]), Bytes(vs[1..]), Bytes(vs), |vs[1..]|, |vs|);
  }

  /** The first byte of a pair read off a line: it becomes the pending byte, and the rest of
      vs is what completes the read. */
  lemma BytesAhead(lines: seq<Result<Directive>>, c: Cursor, count: int, words: seq<Short>, vs: seq<Int32>)
    requires InLines(lines, c) && c.isByte
    requires |words| < count && |vs| == 2 * (count - |words|) && ParsesAs(c, vs)
    ensures |vs[1..]| == 2 * (count - |words|) - 1 && ParsesAs(c.(next := c.next + 1), vs[1..])
    ensures ReadWords(lines, c, count, words, [])
         == ReadWords(lines, c.(next := c.next + 1), count, words, [ToByte(vs[0])])
  {
    ByteOpens(lines, c, count, words, vs[0]);
  }

  /** An outcome that packs a first byte b, then the rest of the bytes, is the outcome for all
      of them, b included. */
  lemma BytesJoin(r: Result<(Cursor, seq<Short>)>, c: Cursor, words: seq<Short>,
                  b: Byte, rest: seq<Byte>, all: seq<Byte>, n: nat, m: nat)
    requires [b] + rest == all && m == n + 1
    requires var c' := c.(next := c.next + 1); r == Ok((c'.(next := c'.next + n), words + PairUp([b] + rest)))
    ensures r == Ok((c.(next := c.next + m), words + PairUp(all)))
  {
    var c' := c.(next := c.next + 1);
    SameOutcome(c'.(next := c'.next + n), c.(next := c.next + m), words + PairUp([b] + rest), words + PairUp(all));
  }

  /** BytesWithinLine with the byte p pending: 2k - 1 operands make the k words. */
  lemma {:induction false} BytesWithinLineHalf(lines: seq<Result<Directive>>, c: Cursor, count: int, words: seq<Short>, p: Byte, vs: seq<Int32>)
    requires InLines(lines, c) && c.isByte
    requires |words| < count && |vs| == 2 * (count - |words|) - 1 && ParsesAs(c, vs)
    ensures ReadWords(lines, c, count, words, [p]) == Ok((c.(next := c.next + |vs|), words + PairUp([p] + Bytes(vs))))
    decreases |vs|, 0
  {
    if |words| + 1 < count {
      CursorOn(c, |vs|);
      ByteCloses(lines, c, count, words, p, vs[0]);
      BytesClose(words, p, vs);
      BytesWithinLineWhole(lines, c.(next := c.next + 1), count, words + [CombineBytes(p, ToByte(vs[0]))], vs[1..]);
    } else {
      LastPair(lines, c, count, words, p, vs);
    }
  }

  /** The operand that completes the last pair ends the read right after it. */
  lemma LastPair(lines: seq<Result<Directive>>, c: Cursor, count: int, words: seq<Short>, p: Byte, vs: seq<Int32>)
    requires InLines(lines, c) && c.isByte && c.next < |c.operands|
    requires |words| + 1 == count && |vs| == 1 && ParseOperandValue(c.operands[c.next]) == Ok(vs[0])
    ensures ReadWords(lines, c, count, words, [p]) == Ok((c.(next := c.next + |vs|), words + PairUp([p] + Bytes(vs))))
  {
    ByteCloses(lines, c, count, words, p, vs[0]);
    var w := CombineBytes(p, ToByte(vs[0]));
    assert [p] + Bytes(vs) == [p, ToByte(vs[0])] + [];
    PairUpCons(p, ToByte(vs[0]), []);
    assert PairUp([p] + Bytes(vs)) == [w];
  }

  /** A `dc.b` line that completes the read: with k words still wanted and a pending byte or
      none, it takes exactly 2k - |pending| operands, and the words are the pending byte
      and the (byte) casts packed in pairs, high byte first. The cursor stops right after
      the operand that completes the last word. */
  lemma BytesWithinLine(lines: seq<Result<Directive>>, c: Cursor, count: int, words: seq<Short>, pending: seq<Byte>, vs: seq<Int32>)
    requires InLines(lines, c) && c.isByte && |pending| <= 1
    requires |words| < count && |vs| == 2 * (count - |words|) - |pending| && ParsesAs(c, vs)
    ensures ReadWords(lines, c, count, words, pending)
         == Ok((c.(next := c.next + |vs|), words + PairUp(pending + Bytes(vs))))
  {
    if pending == [] {
      BytesWithinLineWhole(lines, c, count, words, vs);
      assert pending + Bytes(vs) == Bytes(vs);
    } else {
      assert pending == [pending[0]];
      BytesWithinLineHalf(lines, c, count, words, pending[0], vs);
    }
  }

  /** A `dc.b` line whose operands do not complete the read: all of them are taken and
      packed in pairs after the pending byte, an odd byte out stays pending, and the read
      goes on at the end of the line. */
  lemma {:induction false} BytesAcrossLine(lines: seq<Result<Directive>>, c: Cursor, count: int, words: seq<Short>, pending: seq<Byte>, vs: seq<Int32>)
    requires InLines(lines, c) && c.isByte && |pending| <= 1
    requires c.next + |vs| == |c.operands| && ParsesAs(c, vs) && |pending| + |vs| < 2 * (count - |words|)
    ensures ReadWords(lines, c, count, words, pending)
         == ReadWords(lines, c.(next := |c.operands|), count,
                      words + PairUp(pending + Bytes(vs)), Leftover(pending + Bytes(vs)))
    decreases |vs|
  {
    if vs == [] {
      BytesNone(words, pending, vs);
    } else {
      var c' := c.(next := c.next + 1);
      if pending == [] {
        ByteOpens(lines, c, count, words, vs[0]);
        BytesAcrossLine(lines, c', count, words, [ToByte(vs[0])], vs[1..]);
        BytesOpen(vs);
      } else {
        var p := pending[0];
        assert pending == [p];
        ByteCloses(lines, c, count, words, p, vs[0]);
        BytesClose(words, p, vs);
        LeftoverClose(p, vs);
        NonePending(Bytes(vs[1..]));
        BytesAcrossLine(lines, c', count, words + [CombineBytes(p, ToByte(vs[0]))], [], vs[1..]);
      }
    }
  }

  /** A `dc.b` line consumed to its end, then the next `dc.b` line opened: the read goes on
      at the start of that line, with the pairs made so far and any odd byte pending. */
  lemma BytesToNextLine(lines: seq<Result<Directive>>, c: Cursor, count: int, words: seq<Short>,
                        vs: seq<Int32>, d: Directive)
    requires InLines(lines, c) && c.isByte && c.pos < |lines| && lines[c.pos] == Ok(d) && d.isByte
    requires c.next + |vs| == |c.operands| && ParsesAs(c, vs) && |vs| < 2 * (count - |words|)
    ensures ReadWords(lines, c, count, words, [])
         == ReadWords(lines, Cursor(c.pos + 1, d.operands, 0, true), count,
                      words + PairUp(Bytes(vs)), Leftover(Bytes(vs)))
  {
    BytesAcrossLine(lines, c, count, words, [], vs);
    NonePending(Bytes(vs));
    LineStep(lines, c.(next := |c.operands|), count, words + PairUp(Bytes(vs)), Leftover(Bytes(vs)), d);
  }

  /** A word whose bytes lie on two `dc.b` lines: the rest of the cursor's line leaves a byte
      pending, and the next line's operands complete the read; the words are the bytes of
      both lines packed in pairs, and the cursor stops inside the next line. */
  lemma BytesSpanTwoLines(lines: seq<Result<Directive>>, c: Cursor, count: int, words: seq<Short>,
                          vs: seq<Int32>, d: Directive, us: seq<Int32>)
    requires InLines(lines, c) && c.isByte && c.pos < |lines| && lines[c.pos] == Ok(d) && d.isByte
    requires c.next + |vs| == |c.operands| && ParsesAs(c, vs)
    requires ParsesAs(Cursor(c.pos + 1, d.operands, 0, true), us)
    requires |us| >= 1 && |vs| + |us| == 2 * (count - |words|)
    ensures ReadWords(lines, c, count, words, [])
         == Ok((Cursor(c.pos + 1, d.operands, |us|, true), words + PairUp(Bytes(vs) + Bytes(us))))
  {
    SpanCounts(count, words, vs, us);
    BytesToNextLine(lines, c, count, words, vs, d);
    BytesFinishLine(lines, c.pos + 1, d.operands, count, words, Bytes(vs), us);
  }

  /** The line after BytesToNextLine completes the read: the bytes pending from the line
      before and the casts of its first operands are packed together with those before. */
  lemma BytesFinishLine(lines: seq<Result<Directive>>, pos: nat, operands: seq<string>, count: int,
                        words: seq<Short>, bs: seq<Byte>, us: seq<Int32>)
    requires pos <= |lines|
    requires |words + PairUp(bs)| < count && |us| == 2 * (count - |words + PairUp(bs)|) - |Leftover(bs)|
    requires ParsesAs(Cursor(pos, operands, 0, true), us)
    ensures ReadWords(lines, Cursor(pos, operands, 0, true), count, words + PairUp(bs), Leftover(bs))
         == Ok((Cursor(pos, operands, |us|, true), words + PairUp(bs + Bytes(us))))
  {
    var c := Cursor(pos, operands, 0, true);
    BytesWithinLine(lines, c, count, words + PairUp(bs), Leftover(bs), us);
    SpanWords(words, bs, Bytes(us));
    SameOutcome(c.(next := c.next + |us|), Cursor(pos, operands, |us|, true),
                (words + PairUp(bs)) + PairUp(Leftover(bs) + Bytes(us)), words + PairUp(bs + Bytes(us)));
  }

  /** The counts behind BytesSpanTwoLines: after the first line, the next one holds exactly
      the bytes still wanted. */
  lemma SpanCounts(count: int, words: seq<Short>, vs: seq<Int32>, us: seq<Int32>)
    requires |us| >= 1 && |vs| + |us| == 2 * (count - |words|)
    ensures |words + PairUp(Bytes(vs))| < count
    ensures |us| == 2 * (count - |words + PairUp(Bytes(vs))|) - |Leftover(Bytes(vs))|
  {
    PairUpCounts(Bytes(vs));
  }

  /** The words packed line by line are the bytes of both lines packed together. */
  lemma SpanWords(words: seq<Short>, bs: seq<Byte>, more: seq<Byte>)
    ensures (words + PairUp(bs)) + PairUp(Leftover(bs) + more) == words + PairUp(bs + more)
  {
    PairUpAppend(bs, more);
    Assoc(words, PairUp(bs), PairUp(Leftover(bs) + more));
  }

  /** The inner loop of ParseWords in byte mode: the rest of the current line's operands,
      each cast with (byte) and packed in pairs. It either finishes the whole read (`done`:
      `r` is the outcome) or consumes the line and hands back the state to go on from, from
      which the rest of the read comes out the same. */
  method PackBytes(ghost dirs: seq<Result<Directive>>, c: Cursor, count: int, words: seq<Short>, pending: seq<Byte>)
    returns (done: bool, r: Result<(Cursor, seq<Short>)>, c': Cursor, words': seq<Short>, pending': seq<Byte>)
    requires InLines(dirs, c) && c.isByte && |pending| <= 1
    ensures done ==> r == ReadWords(dirs, c, count, words, pending)
    ensures !done ==> && InLines(dirs, c') && c'.isByte && |pending'| <= 1
                      && c'.pos == c.pos && c'.next == |c'.operands|
                      && ReadWords(dirs, c', count, words', pending') == ReadWords(dirs, c, count, words, pending)
  {
    ghost var goal := ReadWords(dirs, c, count, words, pending);
    c', words', pending' := c, words, pending;
    while c'.next < |c'.operands|
      invariant InLines(dirs, c') && c'.isByte && |pending'| <= 1 && c'.pos == c.pos
      invariant ReadWords(dirs, c', count, words', pending') == goal
    {
      var value := ParseOperandValue(c'.operands[c'.next]);
      if value.Fail? {
        return true, Fail, c', words', pending';
      }
      ByteStep(dirs, c', count, words', pending', value.value);
      c' := c'.(next := c'.next + 1);
      ghost var half := pending';
      pending' := pending' + [ToByte(value.value)];
      if |pending'| == 2 {
        assert pending'[0] == half[0];
        words' := words' + [CombineBytes(pending'[0], pending'[1])];
        if |words'| == count {
          return true, Ok((c', words')), c', words', pending';
        }
        pending' := [];
      } else {
        assert pending' == [ToByte(value.value)];
      }
    }
    done, r := false, Fail;
  }

  /** The inner loop of ParseWords in word mode: the rest of the current line's operands,
      each cast with (short); as for PackBytes, it finishes the read or consumes the line. */
  method TakeWords(ghost dirs: seq<Result<Directive>>, c: Cursor, count: int, words: seq<Short>)
    returns (done: bool, r: Result<(Cursor, seq<Short>)>, c': Cursor, words': seq<Short>)
    requires InLines(dirs, c) && !c.isByte
    ensures done ==> r == ReadWords(dirs, c, count, words, [])
    ensures !done ==> && InLines(dirs, c') && !c'.isByte && c'.pos == c.pos && c'.next == |c'.operands|
                      && ReadWords(dirs, c', count, words', []) == ReadWords(dirs, c, count, words, [])
  {
    ghost var goal := ReadWords(dirs, c, count, words, []);
    c', words' := c, words;
    while c'.next < |c'.operands|
      invariant InLines(dirs, c') && !c'.isByte && c'.pos == c.pos
      invariant ReadWords(dirs, c', count, words', []) == goal
    {
      var value := ParseOperandValue(c'.operands[c'.next]);
      if value.Fail? {
        return true, Fail, c', words';
      }
      WordStep(dirs, c', count, words', [], value.value);
      c' := c'.(next := c'.next + 1);
      words' := words' + [ToShort(value.value)];
      if |words'| == count {
        return true, Ok((c', words')), c', words';
      }
    }
    done, r := false, Fail;
  }

  /** ParseWords: `new List<short>(count)` rejects a negative count; then words are taken
      from the cursor, and from further lines, until there are `count` of them. A `dc.w`
      line met while a byte pair is half filled is an error, and so is running out of
      lines. */
  method ParseWords(lines: seq<string>, c: Cursor, count: int) returns (r: Result<(Cursor, seq<Short>)>)
    requires c.pos <= |lines| && c.next <= |c.operands|
    ensures r == if count < 0 then Fail else ReadWords(Lex(lines), c, count, [], [])
  {
    if count < 0 {
      return Fail;
    }
    ghost var dirs := Lex(lines);
    ghost var goal := ReadWords(dirs, c, count, [], []);
    var words: seq<Short> := [];
    var bytes: seq<Byte> := [];
    var cur := c;
    while true
      invariant InLines(dirs, cur) && |bytes| <= 1
      invariant ReadWords(dirs, cur, count, words, bytes) == goal
      decreases |lines| - cur.pos
    {
      var done: bool;
      if cur.isByte {
        done, r, cur, words, bytes := PackBytes(dirs, cur, count, words, bytes);
      } else {
        if bytes != [] {
          return Fail;
        }
        done, r, cur, words := TakeWords(dirs, cur, count, words);
      }
      if done {
        return;
      }
      if cur.pos == |lines| {
        return Fail;
      }
      var directive := Continuation(lines[cur.pos]);
      if directive.Fail? {
        return Fail;
      }
      LineStep(dirs, cur, count, words, bytes, directive.value);
      cur := Cursor(cur.pos + 1, directive.value.operands, 0, directive.value.isByte);
    }
  }
}

/** A record as Parse's data mode reads it, built on ParseWords. */
module Records {

  import opened Results
  import opened Words
  import opened Lexer
  import opened RecordReader

  /** Every record Parse keeps has this shape: a header word n, then n * entrySize further
      words, the product taken as an unchecked 32-bit int. */
  predicate RecordShape(words: seq<Short>, entrySize: int) {
    |words| >= 1 && |words| == 1 + ToInt32(words[0] * entrySize)
  }

  /** The header word read first; then, unless header * entrySize is zero, that many more
      words (a negative product is the ArgumentOutOfRangeException of the list capacity).
      The result keeps only the line position reached: operands left over on the record's
      last line are dropped, as the second ParseWords's cursor is never used. */
  function ReadRecord(dirs: seq<Result<Directive>>, c: Cursor, entrySize: int): (r: Result<(nat, seq<Short>)>)
    requires InLines(dirs, c)
    ensures r.Ok? ==> RecordShape(r.value.1, entrySize) && c.pos <= r.value.0 <= |dirs|
  {
    match ReadWords(dirs, c, 1, [], [])
    case Fail => Fail
    case Ok((c1, head)) =>
      var numWords := ToInt32(head[0] * entrySize);
      if numWords == 0 then Ok((c1.pos, head))
      else if numWords < 0 then Fail
      else
        match ReadWords(dirs, c1, numWords, [], [])
        case Fail => Fail
        case Ok((c2, payload)) => Ok((c2.pos, head + payload))
  }

  /** Parse's reading of a record: ParseWords for the header word, then, unless the product
      is zero, ParseWords for header * entrySize more. */
  method ReadRecordFrom(lines: seq<string>, c: Cursor, entrySize: int) returns (r: Result<(nat, seq<Short>)>)
    requires c.pos <= |lines| && c.next <= |c.operands|
    ensures r == ReadRecord(Lex(lines), c, entrySize)
  {
    var head := ParseWords(lines, c, 1);
    if head.Fail? {
      return Fail;
    }
    var cursor := head.value.0;
    var definition := head.value.1;
    var numWords := ToInt32(definition[0] * entrySize);
    if numWords != 0 {
      var payload := ParseWords(lines, cursor, numWords);
      if payload.Fail? {
        return Fail;
      }
      definition := definition + payload.value.1;
      cursor := payload.value.0;
    }
    r := Ok((cursor.pos, definition));
  }
}
