/** Serialize: writes the target's offset table, then the source's records in the order
    SortDefinitions gives, each preceded by the target labels at its indices. The output is
    modelled as the sequence of lines appended to the StringBuilder. */
module Serializer {

  import opened Results
  import opened Words
  import opened Text
  import opened Literals
  import opened Sorting
  import opened Parser
  import opened Linearizer
  import Lexer

  /** One line of output: a label (`name:`), a `dc.w` with one operand, or a `dc.b` with
      several. */
  datatype Line =
    | Declaration(name: string)
    | WordDirective(operand: string)
    | ByteDirective(operands: seq<string>)

  /** The characters AppendLine writes for a line, before the line terminator. */
  function Render(line: Line): string {
    match line
    case Declaration(name) => name + ":"
    case WordDirective(operand) => "\t\tdc.w " + operand
    case ByteDirective(operands) => "\t\tdc.b " + Join(operands, ',')
  }

  /** The names of the label lines, in order. */
  function DeclaredNames(lines: seq<Line>): seq<string> {
    if lines == [] then []
    else (if lines[0].Declaration? then [lines[0].name] else []) + DeclaredNames(lines[1..])
  }

  /** The operands of the `dc.w` lines, in order. */
  function WordOperands(lines: seq<Line>): seq<string> {
    if lines == [] then []
    else (if lines[0].WordDirective? then [lines[0].operand] else []) + WordOperands(lines[1..])
  }

  /** The operands of the `dc.b` lines, one after the other. */
  function ByteOperands(lines: seq<Line>): seq<string> {
    if lines == [] then []
    else (if lines[0].ByteDirective? then lines[0].operands else []) + ByteOperands(lines[1..])
  }

  // ---------------------------------------------------------------- the offset section

  /** The operand of an offset-table line: `label-table`. */
  function EntryText(e: Entry): string {
    e.name + "-" + e.tableName
  }

  /** The lines the offset loop writes from entry i on, with `tables` the table names seen:
      a label line for a table not seen yet, then the entry's `dc.w`. */
  function OffsetLinesFrom(table: seq<Entry>, i: nat, tables: seq<string>): seq<Line>
    requires i <= |table|
    decreases |table| - i
  {
    if i == |table| then []
    else
      var e := table[i];
      if e.tableName in tables then [WordDirective(EntryText(e))] + OffsetLinesFrom(table, i + 1, tables)
      else [Declaration(e.tableName)] + ([WordDirective(EntryText(e))] + OffsetLinesFrom(table, i + 1, tables + [e.tableName]))
  }

  /** The `tables` list after the offset loop, run from entry i on. */
  function TablesFrom(table: seq<Entry>, i: nat, tables: seq<string>): seq<string>
    requires i <= |table|
    decreases |table| - i
  {
    if i == |table| then tables
    else
      var e := table[i];
      TablesFrom(table, i + 1, if e.tableName in tables then tables else tables + [e.tableName])
  }

  /** The entries of table from i on, as their `dc.w` operands. */
  function EntryTexts(table: seq<Entry>, i: nat): (r: seq<string>)
    requires i <= |table|
    ensures |r| == |table| - i && forall k :: 0 <= k < |r| ==> r[k] == EntryText(table[i + k])
  {
    seq(|table| - i, k requires 0 <= k < |table| - i => EntryText(table[i + k]))
  }

  /** The offset section's `dc.w` operands are the entries from i on, in order. */
  lemma {:induction false} OffsetWords(table: seq<Entry>, i: nat, tables: seq<string>)
    requires i <= |table|
    ensures WordOperands(OffsetLinesFrom(table, i, tables)) == EntryTexts(table, i)
    decreases |table| - i
  {
    if i < |table| {
      var e := table[i];
      var tables' := if e.tableName in tables then tables else tables + [e.tableName];
      var rest := OffsetLinesFrom(table, i + 1, tables');
      OffsetWords(table, i + 1, tables');
      var w := [WordDirective(EntryText(e))] + rest;
      assert w[0] == WordDirective(EntryText(e)) && w[1..] == rest;
      assert EntryTexts(table, i) == [EntryText(e)] + EntryTexts(table, i + 1);
      if e.tableName !in tables {
        var d := [Declaration(e.tableName)] + w;
        assert d[0] == Declaration(e.tableName) && d[1..] == w;
      }
    }
  }

  /** The offset section declares exactly the tables not seen before entry i, in order of
      first appearance. */
  lemma {:induction false} OffsetTables(table: seq<Entry>, i: nat, tables: seq<string>)
    requires i <= |table|
    ensures tables + DeclaredNames(OffsetLinesFrom(table, i, tables)) == TablesFrom(table, i, tables)
    decreases |table| - i
  {
    if i < |table| {
      var e := table[i];
      var tables' := if e.tableName in tables then tables else tables + [e.tableName];
      var rest := OffsetLinesFrom(table, i + 1, tables');
      OffsetTables(table, i + 1, tables');
      var w := [WordDirective(EntryText(e))] + rest;
      assert w[0] == WordDirective(EntryText(e)) && w[1..] == rest;
      if e.tableName !in tables {
        var d := [Declaration(e.tableName)] + w;
        assert d[0] == Declaration(e.tableName) && d[1..] == w;
        assert tables + ([e.tableName] + DeclaredNames(rest)) == tables' + DeclaredNames(rest);
      }
    }
  }

  /** The offset section holds no `dc.b` line. */
  lemma {:induction false} OffsetNoBytes(table: seq<Entry>, i: nat, tables: seq<string>)
    requires i <= |table|
    ensures ByteOperands(OffsetLinesFrom(table, i, tables)) == []
    decreases |table| - i
  {
    if i < |table| {
      var e := table[i];
      var tables' := if e.tableName in tables then tables else tables + [e.tableName];
      var rest := OffsetLinesFrom(table, i + 1, tables');
      OffsetNoBytes(table, i + 1, tables');
      var w := [WordDirective(EntryText(e))] + rest;
      assert w[0] == WordDirective(EntryText(e)) && w[1..] == rest;
      if e.tableName !in tables {
        var d := [Declaration(e.tableName)] + w;
        assert d[0] == Declaration(e.tableName) && d[1..] == w;
      }
    }
  }

  /** The offset section lists every entry once and in order, and it declares exactly the
      tables it had not seen, each once, in order of first appearance. */
  lemma OffsetSection(table: seq<Entry>, i: nat, tables: seq<string>)
    requires i <= |table|
    ensures WordOperands(OffsetLinesFrom(table, i, tables)) == EntryTexts(table, i)
    ensures tables + DeclaredNames(OffsetLinesFrom(table, i, tables)) == TablesFrom(table, i, tables)
    ensures ByteOperands(OffsetLinesFrom(table, i, tables)) == []
  {
    OffsetWords(table, i, tables);
    OffsetTables(table, i, tables);
    OffsetNoBytes(table, i, tables);
  }

  /** The tables list never repeats a name, and holds the names seen before and those of
      every entry from i on. */
  lemma {:induction false} TablesDistinct(table: seq<Entry>, i: nat, tables: seq<string>)
    requires i <= |table| && NoDup(tables)
    ensures NoDup(TablesFrom(table, i, tables))
    ensures forall x :: x in TablesFrom(table, i, tables) <==>
      x in tables || exists k :: i <= k < |table| && table[k].tableName == x
    decreases |table| - i
  {
    if i < |table| {
      var e := table[i];
      var tables' := if e.tableName in tables then tables else tables + [e.tableName];
      TablesDistinct(table, i + 1, tables');
      forall x ensures x in TablesFrom(table, i, tables) <==>
        x in tables || exists k :: i <= k < |table| && table[k].tableName == x
      {
        if exists k :: i <= k < |table| && table[k].tableName == x {
          var k :| i <= k < |table| && table[k].tableName == x;
          if k > i {
            assert x in TablesFrom(table, i, tables);
          }
        }
      }
    }
  }

  // ---------------------------------------------------------------- the records

  /** Select(index => target.OffsetTable[index].Label): an index outside the target's
      table throws. */
  function LabelsAt(table: seq<Entry>, indices: seq<int>): (r: Result<seq<string>>)
    ensures r.Ok? <==> forall k :: 0 <= k < |indices| ==> 0 <= indices[k] < |table|
    ensures r.Ok? ==> |r.value| == |indices|
    ensures r.Ok? ==> forall k :: 0 <= k < |indices| ==> r.value[k] == table[indices[k]].name
  {
    if forall k :: 0 <= k < |indices| ==> 0 <= indices[k] < |table| then
      Ok(seq(|indices|, k requires 0 <= k < |indices| => table[indices[k]].name))
    else Fail
  }

  /** A label line per name. */
  function Declarations(names: seq<string>): (r: seq<Line>)
    ensures |r| == |names| && forall k :: 0 <= k < |names| ==> r[k] == Declaration(names[k])
  {
    seq(|names|, k requires 0 <= k < |names| => Declaration(names[k]))
  }

  /** A `dc.w` line per word. */
  function WordLines(words: seq<Short>): (r: seq<Line>)
    ensures |r| == |words| && forall k :: 0 <= k < |words| ==> r[k] == WordDirective(SerializeShort(words[k]))
  {
    seq(|words|, k requires 0 <= k < |words| => WordDirective(SerializeShort(words[k])))
  }

  /** Select(SerializeOperandValue) over bytes. */
  function ByteTexts(bytes: seq<Byte>): (r: seq<string>)
    ensures |r| == |bytes| && forall k :: 0 <= k < |bytes| ==> r[k] == SerializeByte(bytes[k])
  {
    seq(|bytes|, k requires 0 <= k < |bytes| => SerializeByte(bytes[k]))
  }

  /** The `dc.b` loop: six bytes a line while any are left. */
  function ByteChunks(bytes: seq<Byte>): seq<Line>
    decreases |bytes|
  {
    if bytes == [] then []
    else
      var n := if |bytes| < 6 then |bytes| else 6;
      [ByteDirective(ByteTexts(bytes[..n]))] + ByteChunks(bytes[n..])
  }

  /** A record's payload: its words after the header, split into bytes on `dc.b` lines in
      byte mode and one per `dc.w` line otherwise. */
  function Payload(words: seq<Short>, byteMode: bool): seq<Line> {
    if byteMode then ByteChunks(WordsToBytes(words)) else WordLines(words)
  }

  /** The lines of one record: its labels, looked up in the target's table and sorted
      without repeats; the header word; the payload. A record without words has no header
      (First() throws). */
  function RecordLines(p: Placement, table: seq<Entry>, byteMode: bool): Result<seq<Line>> {
    match LabelsAt(table, p.indices)
    case Fail => Fail
    case Ok(found) =>
      if p.words == [] then Fail
      else Ok(Declarations(SortedSet(found)) + [WordDirective(SerializeShort(p.words[0]))] + Payload(p.words[1..], byteMode))
  }

  /** Lines put in front of a result that may have failed. */
  function Prepend(lines: seq<Line>, rest: Result<seq<Line>>): Result<seq<Line>> {
    match rest
    case Fail => Fail
    case Ok(more) => Ok(lines + more)
  }

  /** Nothing put in front changes nothing. */
  lemma PrependNothing(rest: Result<seq<Line>>)
    ensures Prepend([], rest) == rest
  {
    if rest.Ok? {
      assert [] + rest.value == rest.value;
    }
  }

  /** Putting b, then a, in front is putting a + b in front. */
  lemma PrependTwice(a: seq<Line>, b: seq<Line>, rest: Result<seq<Line>>)
    ensures Prepend(a, Prepend(b, rest)) == Prepend(a + b, rest)
  {
    if rest.Ok? {
      assert a + (b + rest.value) == (a + b) + rest.value;
    }
  }

  /** One turn of the record loop: the k-th record's lines, or its failure. */
  lemma RecordsFromStep(ps: seq<Placement>, k: nat, table: seq<Entry>, byteMode: bool)
    requires k < |ps|
    ensures RecordLines(ps[k], table, byteMode).Fail? ==> RecordsFrom(ps, k, table, byteMode) == Fail
    ensures RecordLines(ps[k], table, byteMode).Ok? ==>
      RecordsFrom(ps, k, table, byteMode)
        == Prepend(RecordLines(ps[k], table, byteMode).value, RecordsFrom(ps, k + 1, table, byteMode))
  {
  }

  /** Each record's lines, or its failure, in record order. */
  function RecordResults(ps: seq<Placement>, table: seq<Entry>, byteMode: bool): (r: seq<Result<seq<Line>>>)
    ensures |r| == |ps| && forall k :: 0 <= k < |ps| ==> r[k] == RecordLines(ps[k], table, byteMode)
  {
    seq(|ps|, k requires 0 <= k < |ps| => RecordLines(ps[k], table, byteMode))
  }

  /** The pieces from the k-th on, one after another; the first failure fails the whole. */
  function Joined(rs: seq<Result<seq<Line>>>, k: nat): Result<seq<Line>>
    requires k <= |rs|
    decreases |rs| - k
  {
    if k == |rs| then Ok([])
    else
      match rs[k]
      case Fail => Fail
      case Ok(lines) => Prepend(lines, Joined(rs, k + 1))
  }

  /** The record loop, from the k-th record on. */
  function RecordsFrom(ps: seq<Placement>, k: nat, table: seq<Entry>, byteMode: bool): Result<seq<Line>>
    requires k <= |ps|
  {
    Joined(RecordResults(ps, table, byteMode), k)
  }

  /** What Serialize writes. The target's table must not be empty (First() throws); the
      number of its distinct table names is what SortDefinitions gets. */
  function Document(source: ParseResult, target: ParseResult, interleaved: bool, byteMode: bool)
    : Result<seq<Line>>
  {
    var table := target.offsetTable;
    if table == [] then Fail
    else
      var first := [table[0].tableName];
      match SortDefinitions(source, interleaved, |TablesFrom(table, 0, first)|)
      case Fail => Fail
      case Ok(ps) => Prepend(OffsetLinesFrom(table, 0, first), RecordsFrom(ps, 0, table, byteMode))
  }

  // ---------------------------------------------------------------- what the records say

  /** A record's label lines name exactly the target labels at its indices, in strictly
      ascending order, so none twice; then comes its header word. */
  lemma RecordHead(p: Placement, table: seq<Entry>, byteMode: bool)
    requires RecordLines(p, table, byteMode).Ok?
    ensures var lines := RecordLines(p, table, byteMode).value;
      var names := SortedSet(LabelsAt(table, p.indices).value);
      && lines[..|names|] == Declarations(names)
      && StrictlySorted(names)
      && NoDup(names)
      && (forall x :: x in names <==> exists k :: 0 <= k < |p.indices| && table[p.indices[k]].name == x)
      && lines[|names|] == WordDirective(SerializeShort(p.words[0]))
  {
    var found := LabelsAt(table, p.indices).value;
    StrictlySortedNoDup(SortedSet(found));
    forall x ensures x in found <==> exists k :: 0 <= k < |p.indices| && table[p.indices[k]].name == x {
      if x in found {
        var k :| 0 <= k < |found| && found[k] == x;
        assert table[p.indices[k]].name == x;
      }
      if exists k :: 0 <= k < |p.indices| && table[p.indices[k]].name == x {
        var k :| 0 <= k < |p.indices| && table[p.indices[k]].name == x;
        assert found[k] == x;
      }
    }
  }

  /** The `dc.b` lines: (n + 5) / 6 of them for n bytes. */
  lemma {:induction false} ByteChunksCount(bytes: seq<Byte>)
    ensures |ByteChunks(bytes)| == (|bytes| + 5) / 6
    decreases |bytes|
  {
    if bytes != [] {
      var n := if |bytes| < 6 then |bytes| else 6;
      ByteChunksCount(bytes[n..]);
    }
  }

  /** Each `dc.b` line holds one to six operands. */
  lemma {:induction false} ByteChunksWidth(bytes: seq<Byte>)
    ensures forall k :: 0 <= k < |ByteChunks(bytes)| ==>
      ByteChunks(bytes)[k].ByteDirective? && 1 <= |ByteChunks(bytes)[k].operands| <= 6
    decreases |bytes|
  {
    if bytes != [] {
      var n := if |bytes| < 6 then |bytes| else 6;
      ByteChunksWidth(bytes[n..]);
      var lines := ByteChunks(bytes);
      assert lines[1..] == ByteChunks(bytes[n..]);
      forall k | 0 <= k < |lines| ensures lines[k].ByteDirective? && 1 <= |lines[k].operands| <= 6 {
        if k > 0 {
          assert lines[k] == ByteChunks(bytes[n..])[k - 1];
        }
      }
    }
  }

  /** Together the `dc.b` lines hold the bytes' texts, in order. */
  lemma {:induction false} ByteChunksOperands(bytes: seq<Byte>)
    ensures ByteOperands(ByteChunks(bytes)) == ByteTexts(bytes)
    decreases |bytes|
  {
    if bytes != [] {
      var n := if |bytes| < 6 then |bytes| else 6;
      var rest := ByteChunks(bytes[n..]);
      ByteChunksOperands(bytes[n..]);
      var lines := [ByteDirective(ByteTexts(bytes[..n]))] + rest;
      assert lines[0] == ByteDirective(ByteTexts(bytes[..n])) && lines[1..] == rest;
      assert ByteTexts(bytes) == ByteTexts(bytes[..n]) + ByteTexts(bytes[n..]);
    }
  }

  /** A record of len words takes (2 * (len - 1) + 5) / 6 `dc.b` lines in byte mode, that is
      2 * (len - 1) / 6 rounded up, and len - 1 `dc.w` lines otherwise. */
  lemma PayloadLength(words: seq<Short>, byteMode: bool)
    ensures |Payload(words, byteMode)| == if byteMode then (2 * |words| + 5) / 6 else |words|
  {
    if byteMode {
      ByteChunksCount(WordsToBytes(words));
    }
  }

  /** The byte payload reads back: each operand, trimmed of its padding, parses, and cast to
      a byte gives the byte written; paired high byte first, the bytes are the words. */
  lemma BytePayloadReadsBack(words: seq<Short>)
    ensures var ops := ByteOperands(Payload(words, true));
      && |ops| == 2 * |words|
      && (forall k :: 0 <= k < |ops| ==>
            ParseOperandValue(Trim(ops[k])).Ok? &&
            ToByte(ParseOperandValue(Trim(ops[k])).value) == WordsToBytes(words)[k])
      && PairUp(WordsToBytes(words)) == words
  {
    var bytes := WordsToBytes(words);
    ByteChunksOperands(bytes);
    forall k | 0 <= k < |bytes|
      ensures ParseOperandValue(Trim(ByteTexts(bytes)[k])).Ok?
      ensures ToByte(ParseOperandValue(Trim(ByteTexts(bytes)[k])).value) == bytes[k]
    {
      ByteLiteralRoundTrip(bytes[k]);
    }
    PairUpWordsToBytes(words);
  }

  /** The word payload reads back: each `dc.w` operand parses, and cast to a short gives the
      word written. */
  lemma WordPayloadReadsBack(words: seq<Short>)
    ensures var lines := Payload(words, false);
      && |lines| == |words|
      && (forall k :: 0 <= k < |lines| ==>
            lines[k].WordDirective? &&
            ParseOperandValue(lines[k].operand).Ok? &&
            ToShort(ParseOperandValue(lines[k].operand).value) == words[k])
  {
    forall k | 0 <= k < |words|
      ensures ParseOperandValue(SerializeShort(words[k])).Ok?
      ensures ToShort(ParseOperandValue(SerializeShort(words[k])).value) == words[k]
    {
      ShortLiteralRoundTrip(words[k]);
    }
  }

  /** A `dc.w` line Serialize writes reads back through Parse's lexer: a statement whose
      operand split gives word size and the printed word, which parses and casts back to
      the word. */
  lemma WordLineReadsBack(w: Short)
    ensures var op := SerializeShort(w); var text := "dc.w " + op;
      && Lexer.ClassifyLine(Render(WordDirective(op))) == Lexer.Statement(text)
      && Lexer.GetOperandEnumerator(text) == Ok(Lexer.Directive(false, [op]))
      && ParseOperandValue(op).Ok? && ToShort(ParseOperandValue(op).value) == w
  {
    var op := SerializeShort(w);
    ShortTextPlain(w);
    TrimNoWhite(op);
    assert Join([op], ',') == op;
    assert Lexer.TrimAll([op]) == [op];
    Lexer.DirectiveLexes("dc.w", [op]);
    RenderDirective("dc.w", op);
    ShortLiteralRoundTrip(w);
  }

  /** A `dc.b` line Serialize writes reads back through Parse's lexer: a statement whose
      operand split gives byte size and one operand per byte, each parsing to its byte. */
  lemma ByteLineReadsBack(bytes: seq<Byte>)
    requires bytes != []
    ensures var text := "dc.b " + Join(ByteTexts(bytes), ',');
      && Lexer.ClassifyLine(Render(ByteDirective(ByteTexts(bytes)))) == Lexer.Statement(text)
      && Lexer.GetOperandEnumerator(text).Ok?
      && Lexer.GetOperandEnumerator(text).value.isByte
      && |Lexer.GetOperandEnumerator(text).value.operands| == |bytes|
      && forall k :: 0 <= k < |bytes| ==>
           ParseOperandValue(Lexer.GetOperandEnumerator(text).value.operands[k]) == Ok(bytes[k])
  {
    ByteTextsWritable(bytes);
    ByteLineLexes(ByteTexts(bytes));
    ByteOperandsParse(bytes);
  }

  /** A `dc.b` line with operands it can carry is a statement whose operand split gives byte
      size and the operands trimmed. */
  lemma ByteLineLexes(ops: seq<string>)
    requires Lexer.WritableOperands(ops)
    ensures Lexer.ClassifyLine(Render(ByteDirective(ops))) == Lexer.Statement("dc.b " + Join(ops, ','))
    ensures Lexer.GetOperandEnumerator("dc.b " + Join(ops, ',')) == Ok(Lexer.Directive(true, Lexer.TrimAll(ops)))
  {
    Lexer.DirectiveLexes("dc.b", ops);
    RenderDirective("dc.b", Join(ops, ','));
  }

  /** The printed bytes, trimmed as the operand split trims them, parse to the bytes. */
  lemma ByteOperandsParse(bytes: seq<Byte>)
    ensures var ops := Lexer.TrimAll(ByteTexts(bytes));
      forall k :: 0 <= k < |bytes| ==> ParseOperandValue(ops[k]) == Ok(bytes[k])
  {
    var ops := ByteTexts(bytes);
    forall k | 0 <= k < |bytes| ensures ParseOperandValue(Lexer.TrimAll(ops)[k]) == Ok(bytes[k]) {
      Lexer.TrimAllAt(ops, k);
      TrimPadLeft(ByteText(bytes[k]), 4);
      ByteTextRoundTrip(bytes[k]);
    }
  }

  /** A directive line as Render writes it: two tabs, then its size, a space and its
      operands joined by commas. */
  lemma RenderDirective(size: string, j: string)
    requires size == "dc.b" || size == "dc.w"
    ensures size == "dc.b" ==> "\t\tdc.b " + j == "\t\t" + (size + " " + j)
    ensures size == "dc.w" ==> "\t\tdc.w " + j == "\t\t" + (size + " " + j)
    ensures size == "dc.b" ==> "dc.b " + j == size + " " + j
    ensures size == "dc.w" ==> "dc.w " + j == size + " " + j
  {
    assert "\t\tdc.b " == "\t\t" + "dc.b" + " " && "dc.b " == "dc.b" + " ";
    assert "\t\tdc.w " == "\t\t" + "dc.w" + " " && "dc.w " == "dc.w" + " ";
  }

  /** The printed bytes are operands a `dc.b` line can carry. */
  lemma ByteTextsWritable(bytes: seq<Byte>)
    requires bytes != []
    ensures Lexer.WritableOperands(ByteTexts(bytes))
  {
    var ops := ByteTexts(bytes);
    forall i | 0 <= i < |ops| ensures ',' !in ops[i] && ';' !in ops[i] {
      ByteTextPlain(bytes[i]);
    }
    ByteTextPlain(bytes[|bytes| - 1]);
  }

  /** A record Serialize can write: it has a header word, and each of its indices falls in
      the target's table. */
  predicate Writable(p: Placement, table: seq<Entry>) {
    p.words != [] && forall k :: 0 <= k < |p.indices| ==> 0 <= p.indices[k] < |table|
  }

  /** A record's lines fail exactly when it is not writable: an index outside the target's
      table (a label the target lacks gives -1), or no header word. */
  lemma RecordLinesOk(p: Placement, table: seq<Entry>, byteMode: bool)
    ensures RecordLines(p, table, byteMode).Ok? <==> Writable(p, table)
  {
  }

  /** Joined pieces succeed exactly when every piece from k on does. */
  lemma {:induction false} JoinedOk(rs: seq<Result<seq<Line>>>, k: nat)
    requires k <= |rs|
    ensures Joined(rs, k).Ok? <==> forall j :: k <= j < |rs| ==> rs[j].Ok?
    decreases |rs| - k
  {
    if k < |rs| {
      JoinedOk(rs, k + 1);
    }
  }

  /** The record loop succeeds exactly when every record from k on is writable. */
  lemma RecordsFromOk(ps: seq<Placement>, k: nat, table: seq<Entry>, byteMode: bool)
    requires k <= |ps|
    ensures RecordsFrom(ps, k, table, byteMode).Ok? <==> forall j :: k <= j < |ps| ==> Writable(ps[j], table)
  {
    var rs := RecordResults(ps, table, byteMode);
    JoinedOk(rs, k);
    forall j | k <= j < |ps| ensures rs[j].Ok? <==> Writable(ps[j], table) {
      RecordLinesOk(ps[j], table, byteMode);
    }
  }

  /** Serialize succeeds exactly when the target has an offset table, every source record
      has a label (First() of the label positions), and every record, placed, can be
      written. */
  lemma DocumentOk(source: ParseResult, target: ParseResult, interleaved: bool, byteMode: bool)
    ensures Document(source, target, interleaved, byteMode).Ok? <==>
      && target.offsetTable != []
      && !Unlabelled(source.definitions)
      && var table := target.offsetTable;
         var ps := SortDefinitions(source, interleaved, |TablesFrom(table, 0, [table[0].tableName])|);
         ps.Ok? && forall j :: 0 <= j < |ps.value| ==> Writable(ps.value[j], table)
  {
    var table := target.offsetTable;
    if table != [] {
      var first := [table[0].tableName];
      TablesDistinct(table, 0, first);
      assert table[0].tableName in TablesFrom(table, 0, first);
      var ps := SortDefinitions(source, interleaved, |TablesFrom(table, 0, first)|);
      if ps.Ok? {
        RecordsFromOk(ps.value, 0, table, byteMode);
      }
    }
  }

  /** What Serialize writes begins with the offset section: one `dc.w label-table` per
      target entry, in table order, with a label line for each table after the first, each
      table named once, in order of first appearance, and no `dc.b` line. */
  lemma DocumentOffsets(source: ParseResult, target: ParseResult, interleaved: bool, byteMode: bool)
    requires Document(source, target, interleaved, byteMode).Ok?
    ensures var table := target.offsetTable;
      var first := [table[0].tableName];
      var offsets := OffsetLinesFrom(table, 0, first);
      var lines := Document(source, target, interleaved, byteMode).value;
      && lines[..|offsets|] == offsets
      && WordOperands(offsets) == EntryTexts(table, 0)
      && ByteOperands(offsets) == []
      && first + DeclaredNames(offsets) == TablesFrom(table, 0, first)
      && NoDup(TablesFrom(table, 0, first))
  {
    var table := target.offsetTable;
    var first := [table[0].tableName];
    OffsetSection(table, 0, first);
    TablesDistinct(table, 0, first);
  }

  // ---------------------------------------------------------------- the loops

  /** Serialize, appending to the builder line by line. */
  method Serialize(source: ParseResult, target: ParseResult, interleaved: bool, byteMode: bool)
    returns (r: Result<seq<Line>>)
    ensures r == Document(source, target, interleaved, byteMode)
  {
    var table := target.offsetTable;
    if table == [] {
      return Fail;
    }
    var builder, tables := WriteOffsets(table);
    var definitions := SortDefinitions(source, interleaved, |tables|);
    if definitions.Fail? {
      return Fail;
    }
    var records := WriteRecords(definitions.value, table, byteMode);
    r := Prepend(builder, records);
  }

  /** The record loop: each record's lines appended in turn; the first failure ends it. */
  method WriteRecords(placements: seq<Placement>, table: seq<Entry>, byteMode: bool)
    returns (r: Result<seq<Line>>)
    ensures r == RecordsFrom(placements, 0, table, byteMode)
  {
    var builder: seq<Line> := [];
    var k := 0;
    PrependNothing(RecordsFrom(placements, 0, table, byteMode));
    while k < |placements|
      invariant k <= |placements|
      invariant Prepend(builder, RecordsFrom(placements, k, table, byteMode)) == RecordsFrom(placements, 0, table, byteMode)
    {
      var record := WriteRecord(placements[k], table, byteMode);
      RecordsFromStep(placements, k, table, byteMode);
      if record.Fail? {
        return Fail;
      }
      PrependTwice(builder, record.value, RecordsFrom(placements, k + 1, table, byteMode));
      builder := builder + record.value;
      k := k + 1;
    }
    assert builder + [] == builder;
    r := Ok(builder);
  }

  /** The offset loop: each entry's `dc.w`, after a label line for a table not seen before. */
  method WriteOffsets(table: seq<Entry>) returns (lines: seq<Line>, tables: seq<string>)
    requires table != []
    ensures lines == OffsetLinesFrom(table, 0, [table[0].tableName])
    ensures tables == TablesFrom(table, 0, [table[0].tableName])
  {
    lines := [];
    tables := [table[0].tableName];
    var i := 0;
    while i < |table|
      invariant i <= |table|
      invariant lines + OffsetLinesFrom(table, i, tables) == OffsetLinesFrom(table, 0, [table[0].tableName])
      invariant TablesFrom(table, i, tables) == TablesFrom(table, 0, [table[0].tableName])
    {
      var e := table[i];
      if e.tableName !in tables {
        tables := tables + [e.tableName];
        lines := lines + [Declaration(e.tableName)];
      }
      lines := lines + [WordDirective(e.name + "-" + e.tableName)];
      i := i + 1;
    }
    assert lines + [] == lines;
  }

  /** The body of the record loop: label lines, the header, the payload. */
  method WriteRecord(p: Placement, table: seq<Entry>, byteMode: bool) returns (r: Result<seq<Line>>)
    ensures r == RecordLines(p, table, byteMode)
  {
    var found := LabelsAt(table, p.indices);
    if found.Fail? {
      return Fail;
    }
    var labels := SortedSet(found.value);
    var lines: seq<Line> := [];
    for j := 0 to |labels|
      invariant lines == Declarations(labels[..j])
    {
      lines := lines + [Declaration(labels[j])];
    }
    assert labels[..|labels|] == labels;
    if p.words == [] {
      return Fail;
    }
    lines := lines + [WordDirective(SerializeShort(p.words[0]))];
    var payload: seq<Line>;
    if byteMode {
      payload := WriteBytes(WordsToBytes(p.words[1..]));
    } else {
      payload := WriteWords(p.words[1..]);
    }
    r := Ok(lines + payload);
  }

  /** The `dc.w` loop over the words after the header. */
  method WriteWords(words: seq<Short>) returns (lines: seq<Line>)
    ensures lines == WordLines(words)
  {
    lines := [];
    for j := 0 to |words|
      invariant lines == WordLines(words[..j])
    {
      lines := lines + [WordDirective(SerializeShort(words[j]))];
    }
    assert words[..|words|] == words;
  }

  /** The `dc.b` loop: while bytes are left, the next six (or fewer) on one line. */
  method WriteBytes(bytes: seq<Byte>) returns (lines: seq<Line>)
    ensures lines == ByteChunks(bytes)
  {
    lines := [];
    var values := bytes;
    while values != []
      invariant lines + ByteChunks(values) == ByteChunks(bytes)
      decreases |values|
    {
      var n := if |values| < 6 then |values| else 6;
      lines := lines + [ByteDirective(ByteTexts(values[..n]))];
      values := values[n..];
    }
  }
}
