/** The fixed-width integers of the codec: the 16-bit words of a record (C# `short`), the
    bytes of a byte-mode operand (C# `byte`) and the 32-bit `int` that int.Parse returns,
    with C#'s truncating casts between them, and the packing of a word into two bytes. */
module Words {

  type Short = x: int | -0x8000 <= x < 0x8000
  type Byte = x: int | 0 <= x < 0x100
  type Int32 = x: int | -0x8000_0000 <= x < 0x8000_0000

  /** The (short) cast: the Short that agrees with x in the low 16 bits. */
  function ToShort(x: int): (r: Short)
  {
    (x + 0x8000) % 0x1_0000 - 0x8000
  }

  /** The (byte) cast: the Byte that agrees with x in the low 8 bits. */
  function ToByte(x: int): (r: Byte)
  {
    x % 0x100
  }

  /** Unchecked 32-bit int arithmetic: the Int32 that agrees with x in the low 32 bits. */
  function ToInt32(x: int): (r: Int32)
  {
    (x + 0x8000_0000) % 0x1_0000_0000 - 0x8000_0000
  }

  /** Each cast keeps exactly the low bits: it differs from its argument by a multiple of
      2 to the width. */
  lemma CastsAreTruncations(x: int)
    ensures x - ToShort(x) == 0x1_0000 * ((x + 0x8000) / 0x1_0000)
    ensures x - ToByte(x) == 0x100 * (x / 0x100)
    ensures x - ToInt32(x) == 0x1_0000_0000 * ((x + 0x8000_0000) / 0x1_0000_0000)
  {
  }

  /** A cast to a type already wide enough changes nothing. */
  lemma CastsKeepInRange(x: int)
    ensures -0x8000 <= x < 0x8000 ==> ToShort(x) == x
    ensures 0 <= x < 0x100 ==> ToByte(x) == x
    ensures -0x8000_0000 <= x < 0x8000_0000 ==> ToInt32(x) == x
  {
  }

  /** WordToBytes: the high byte, (byte)(value >> 8), then the low byte, (byte)value.
      `>>` on a negative int is an arithmetic shift, i.e. division rounding down, which is
      what Dafny's `/` does for a positive divisor. */
  function WordToBytes(w: Short): (r: seq<Byte>)
    ensures |r| == 2
  {
    [ToByte(w / 0x100), ToByte(w)]
  }

  /** (short)(hi << 8 | lo), as ParseWords packs a byte pair: hi << 8 has no bit in common
      with lo, so the `|` is an addition. */
  function CombineBytes(hi: Byte, lo: Byte): Short
  {
    ToShort(hi * 0x100 + lo)
  }

  /** The two bytes are the word's 16-bit two's complement pattern, high byte first. */
  lemma WordBytesPattern(w: Short)
    ensures WordToBytes(w)[0] as int * 0x100 + WordToBytes(w)[1] == if w < 0 then w + 0x1_0000 else w
  {
    var hi: int, lo: int := WordToBytes(w)[0], WordToBytes(w)[1];
    if w >= 0 {
      assert hi == w / 0x100;
    } else {
      assert hi == w / 0x100 + 0x100;
    }
  }

  /** The packed word has the 16-bit pattern hi * 256 + lo: it is that number when below
      2^15, and that number minus 2^16 otherwise. */
  lemma CombineBytesPattern(hi: Byte, lo: Byte)
    ensures var w := CombineBytes(hi, lo); (if w < 0 then w + 0x1_0000 else w) == hi as int * 0x100 + lo
    ensures CombineBytes(hi, lo) < 0 <==> hi >= 0x80
  {
  }

  /** Byte packing round trip, one way: splitting a word and packing the two bytes again
      gives the word back, negative words included. */
  lemma WordBytesRoundTrip(w: Short)
    ensures CombineBytes(WordToBytes(w)[0], WordToBytes(w)[1]) == w
  {
    var hi: int, lo: int := WordToBytes(w)[0], WordToBytes(w)[1];
    if w >= 0 {
      assert hi == w / 0x100;
      assert hi * 0x100 + lo == w;
    } else {
      assert hi == w / 0x100 + 0x100;
      assert hi * 0x100 + lo == w + 0x1_0000;
    }
  }

  /** Byte packing round trip, the other way: the bytes of a packed pair are the pair. */
  lemma BytesWordRoundTrip(hi: Byte, lo: Byte)
    ensures WordToBytes(CombineBytes(hi, lo)) == [hi, lo]
  {
    var w := CombineBytes(hi, lo);
    if hi < 0x80 {
      assert w == hi * 0x100 + lo;
      assert w / 0x100 == hi;
    } else {
      assert w == hi * 0x100 + lo - 0x1_0000;
      assert w / 0x100 == hi - 0x100;
    }
  }

  /** definition.SelectMany(WordToBytes): every word as its two bytes, in order. */
  function WordsToBytes(ws: seq<Short>): (r: seq<Byte>)
    ensures |r| == 2 * |ws|
  {
    if ws == [] then [] else WordToBytes(ws[0]) + WordsToBytes(ws[1..])
  }

  /** Byte pairs packed into words, high byte first, as ParseWords does in byte mode. */
  function PairUp(bs: seq<Byte>): (r: seq<Short>)
    ensures |r| == |bs| / 2
  {
    if |bs| < 2 then [] else [CombineBytes(bs[0], bs[1])] + PairUp(bs[2..])
  }

  /** The first byte of a half-filled pair that PairUp leaves over, if any. */
  function Leftover(bs: seq<Byte>): (r: seq<Byte>)
    ensures |r| <= 1
    decreases |bs|
  {
    if |bs| < 2 then bs else Leftover(bs[2..])
  }

  /** Every byte is either in a packed pair or left over. */
  lemma {:induction false} PairUpCounts(bs: seq<Byte>)
    ensures 2 * |PairUp(bs)| + |Leftover(bs)| == |bs|
    decreases |bs|
  {
    if |bs| >= 2 {
      PairUpCounts(bs[2..]);
    }
  }

  /** PairUp takes the first two bytes as one word and goes on with the rest. */
  lemma PairUpCons(hi: Byte, lo: Byte, rest: seq<Byte>)
    ensures PairUp([hi, lo] + rest) == [CombineBytes(hi, lo)] + PairUp(rest)
    ensures Leftover([hi, lo] + rest) == Leftover(rest)
  {
    assert ([hi, lo] + rest)[2..] == rest;
  }

  /** Packing a + b is packing a, then packing what a leaves over followed by b: a pair may
      straddle the boundary. */
  lemma {:induction false} PairUpAppend(a: seq<Byte>, b: seq<Byte>)
    ensures PairUp(a + b) == PairUp(a) + PairUp(Leftover(a) + b)
    decreases |a|
  {
    if |a| >= 2 {
      PairUpCons(a[0], a[1], a[2..] + b);
      PairUpCons(a[0], a[1], a[2..]);
      assert a == [a[0], a[1]] + a[2..];
      assert a + b == [a[0], a[1]] + (a[2..] + b);
      PairUpAppend(a[2..], b);
    }
  }

  /** Packing the bytes of a word list gives the word list back. */
  lemma {:induction false} PairUpWordsToBytes(ws: seq<Short>)
    ensures PairUp(WordsToBytes(ws)) == ws
  {
    if ws != [] {
      var bs := WordsToBytes(ws);
      assert bs[..2] == WordToBytes(ws[0]);
      assert bs[2..] == WordsToBytes(ws[1..]);
      WordBytesRoundTrip(ws[0]);
      PairUpWordsToBytes(ws[1..]);
    }
  }
}
