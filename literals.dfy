/** Integer literals of the mapping format: ParseOperandValue reads a decimal literal, or a
    hexadecimal one after a `$`; the two SerializeOperandValue overloads print a word or a
    byte back. */
module Literals {

  import opened Results
  import opened Words
  import opened Text

  predicate IsHexDigit(c: char) {
    '0' <= c <= '9' || 'a' <= c <= 'f' || 'A' <= c <= 'F'
  }

  function DigitValue(c: char): (v: nat)
    requires IsHexDigit(c)
    ensures v < 16
    ensures ('0' <= c <= '9') <==> v < 10
  {
    if '0' <= c <= '9' then c as int - '0' as int
    else if 'a' <= c <= 'f' then c as int - 'a' as int + 10
    else c as int - 'A' as int + 10
  }

  /** The upper-case digit for d, as ToString and ToString("X") print it. */
  function DigitChar(d: nat): (c: char)
    requires d < 16
    ensures IsHexDigit(c) && DigitValue(c) == d
  {
    if d < 10 then ('0' as int + d) as char else ('A' as int + d - 10) as char
  }

  /** Every character of s is a digit below `base`. */
  predicate IsDigits(s: string, base: nat) {
    forall i :: 0 <= i < |s| ==> IsHexDigit(s[i]) && DigitValue(s[i]) < base
  }

  /** The number a digit string denotes, most significant digit first. */
  function Value(s: string, base: nat): nat
    requires IsDigits(s, base)
  {
    if s == [] then 0 else Value(s[..|s| - 1], base) * base + DigitValue(s[|s| - 1])
  }

  /** n in the given base without leading zeros (a single "0" for zero). */
  function Digits(n: nat, base: nat): (s: string)
    requires 2 <= base <= 16
    ensures s != []
    decreases n
  {
    if n < base then [DigitChar(n)] else Digits(n / base, base) + [DigitChar(n % base)]
  }

  /** Printed digits read back as the number printed. */
  lemma {:induction false} DigitsRoundTrip(n: nat, base: nat)
    requires 2 <= base <= 16
    ensures IsDigits(Digits(n, base), base)
    ensures Value(Digits(n, base), base) == n
    decreases n
  {
    var s := Digits(n, base);
    if n < base {
      assert s == [DigitChar(n)] && s[..0] == [];
    } else {
      var q, r := n / base, n % base;
      DivideByBase(n, base);
      DigitsRoundTrip(q, base);
      var p := Digits(q, base);
      assert s == p + [DigitChar(r)];
      assert s[..|s| - 1] == p && s[|s| - 1] == DigitChar(r);
      assert IsDigits(s, base) by {
        forall i | 0 <= i < |s| ensures IsHexDigit(s[i]) && DigitValue(s[i]) < base {
          if i < |p| {
            assert s[i] == p[i];
          }
        }
      }
      assert Value(s, base) == Value(p, base) * base + r;
    }
  }

  /** Dividing by the base splits off the last digit and leaves a smaller number. */
  lemma DivideByBase(n: nat, base: nat)
    requires 2 <= base <= n
    ensures (n / base) * base + n % base == n && 0 <= n % base < base && n / base < n
  {
  }

  /** value.ToString(): decimal, with a minus sign when negative. */
  function DecimalText(v: int): string {
    if v < 0 then "-" + Digits(-v, 10) else Digits(v, 10)
  }

  /** ((short)value).ToString("X"): upper-case hex of the word's 16-bit two's complement
      pattern. */
  function ShortHex(v: Short): string {
    Digits(if v < 0 then v + 0x1_0000 else v, 16)
  }

  /** ((byte)value).ToString("X") */
  function ByteHex(v: Byte): string {
    Digits(v, 16)
  }

  /** SerializeOperandValue(short): the hex digits alone when they read the same as the
      decimal text, `$` and the hex digits otherwise. */
  function SerializeShort(v: Short): string {
    var hex := ShortHex(v);
    if DecimalText(v) == hex then hex else "$" + hex
  }

  /** SerializeOperandValue(byte): as for a word, then PadLeft(4). */
  function SerializeByte(v: Byte): string {
    var hex := ByteHex(v);
    PadLeft(if DecimalText(v) == hex then hex else "$" + hex, 4)
  }

  /** A string of decimal digits is worth at least as much read as hex. */
  lemma {:induction false} HexAtLeastDecimal(s: string)
    requires IsDigits(s, 10)
    ensures IsDigits(s, 16) && Value(s, 16) >= Value(s, 10)
  {
    if s != [] {
      HexAtLeastDecimal(s[..|s| - 1]);
    }
  }

  /** From 10 on, the decimal and the hex digits of a number differ. */
  lemma DecimalIsNotHex(n: nat)
    requires n >= 10
    ensures Digits(n, 10) != Digits(n, 16)
  {
    var s := Digits(n, 10);
    if s == Digits(n, 16) {
      DigitsRoundTrip(n, 10);
      DigitsRoundTrip(n, 16);
      DigitsRoundTrip(n / 10, 10);
      var p := s[..|s| - 1];
      assert p == Digits(n / 10, 10);
      HexAtLeastDecimal(p);
      assert false;
    }
  }

  /** The test inside SerializeOperandValue(short): the decimal text equals the hex text
      exactly for the values 0 to 9, so those print as plain digits and every other value,
      negative ones included, prints as `$` and hex. */
  lemma ShortDecimalEqualsHex(v: Short)
    ensures DecimalText(v) == ShortHex(v) <==> 0 <= v <= 9
  {
    if v < 0 {
      DigitsRoundTrip(v + 0x1_0000, 16);
      assert ShortHex(v)[0] != '-';
    } else if v >= 10 {
      DecimalIsNotHex(v);
    }
  }

  /** The same test in SerializeOperandValue(byte). */
  lemma ByteDecimalEqualsHex(v: Byte)
    ensures DecimalText(v) == ByteHex(v) <==> v <= 9
  {
    if v >= 10 {
      DecimalIsNotHex(v);
    }
  }

  /** int.Parse(s) with its default NumberStyles.Integer, for an already trimmed token: an
      optional sign, then ASCII digits; a value outside the 32-bit int range is an
      OverflowException. */
  function ParseDecimal(s: string): (r: Result<Int32>)
    ensures r.Ok? ==> var digits := if s != [] && (s[0] == '-' || s[0] == '+') then s[1..] else s;
                      digits != [] && IsDigits(digits, 10) &&
                      r.value == if s[0] == '-' then -(Value(digits, 10) as int) else Value(digits, 10)
  {
    var negative := s != [] && s[0] == '-';
    var digits := if s != [] && (s[0] == '-' || s[0] == '+') then s[1..] else s;
    if digits == [] || !IsDigits(digits, 10) then Fail
    else
      var n: int := Value(digits, 10);
      if negative then (if n <= 0x8000_0000 then Ok(-n) else Fail)
      else if n < 0x8000_0000 then Ok(n)
      else Fail
  }

  /** int.Parse(s, NumberStyles.AllowHexSpecifier): hex digits in either case, no sign; up to
      32 bits, read as a two's complement pattern, so $FFFFFFFF is -1. */
  function ParseHex(s: string): (r: Result<Int32>)
    ensures r.Ok? <==> s != [] && IsDigits(s, 16) && Value(s, 16) < 0x1_0000_0000
    ensures r.Ok? ==> r.value == Value(s, 16) || r.value == Value(s, 16) - 0x1_0000_0000
  {
    if s == [] || !IsDigits(s, 16) then Fail
    else
      var n := Value(s, 16);
      if n < 0x8000_0000 then Ok(n)
      else if n < 0x1_0000_0000 then Ok(n - 0x1_0000_0000)
      else Fail
  }

  /** ParseOperandValue: hex after a leading `$`, decimal otherwise. */
  function ParseOperandValue(token: string): Result<Int32>
  {
    if token != [] && token[0] == '$' then ParseHex(token[1..]) else ParseDecimal(token)
  }

  /** The converse of ParseDecimal's contract: an optional sign and a non-empty run of decimal
      digits parse exactly when the signed value fits in an int, and then to that value. Such
      a token does not start with `$`, so ParseOperandValue reads it the same way. */
  lemma DecimalLiteral(sign: string, digits: string)
    requires sign == "" || sign == "+" || sign == "-"
    requires digits != [] && IsDigits(digits, 10)
    ensures var v := if sign == "-" then -(Value(digits, 10) as int) else Value(digits, 10);
      && (ParseDecimal(sign + digits).Ok? <==> -0x8000_0000 <= v < 0x8000_0000)
      && (ParseDecimal(sign + digits).Ok? ==> ParseDecimal(sign + digits).value == v)
    ensures ParseOperandValue(sign + digits) == ParseDecimal(sign + digits)
  {
    var s := sign + digits;
    if sign == "" {
      assert s == digits;
      assert DigitValue(digits[0]) < 10;
    } else {
      assert s[0] == sign[0] && s[1..] == digits;
    }
  }

  /** A `$` token is accepted exactly when hex digits worth less than 2^32 follow it, and its
      value is the 32-bit pattern they spell. */
  lemma HexLiteral(digits: string)
    ensures ParseOperandValue("$" + digits).Ok?
        <==> digits != [] && IsDigits(digits, 16) && Value(digits, 16) < 0x1_0000_0000
    ensures ParseOperandValue("$" + digits).Ok? ==>
      ParseOperandValue("$" + digits).value % 0x1_0000_0000 == Value(digits, 16)
  {
    assert ("$" + digits)[1..] == digits;
  }

  /** A token a directive line can carry as it is: not empty, no white space at either end,
      and neither the operand separator `,` nor the comment mark `;`. */
  predicate PlainToken(t: string) {
    t != [] && !IsWhite(t[0]) && !IsWhite(t[|t| - 1]) && ',' !in t && ';' !in t
  }

  /** Hex digits after an optional `$` make a plain token. */
  lemma HexTokenPlain(n: nat, dollar: bool)
    ensures PlainToken(if dollar then "$" + Digits(n, 16) else Digits(n, 16))
  {
    DigitsRoundTrip(n, 16);
    var d := Digits(n, 16);
    var t := if dollar then "$" + d else d;
    assert forall i :: 0 <= i < |t| ==> t[i] == '$' || IsHexDigit(t[i]) by {
      forall i | 0 <= i < |t| ensures t[i] == '$' || IsHexDigit(t[i]) {
        if dollar && i > 0 {
          assert t[i] == d[i - 1];
        }
      }
    }
  }

  /** A printed word is a plain token. */
  lemma ShortTextPlain(v: Short)
    ensures PlainToken(SerializeShort(v))
  {
    ShortTextCases(v);
    if 0 <= v <= 9 {
      HexTokenPlain(v, false);
      assert Digits(v, 16) == [DigitChar(v)];
    } else {
      HexTokenPlain(if v < 0 then v + 0x1_0000 else v, true);
    }
  }

  /** A printed byte is a plain token behind its padding: the padding is spaces, and it
      ends where the token ends. */
  lemma ByteTextPlain(v: Byte)
    ensures PlainToken(ByteText(v))
    ensures var s := SerializeByte(v); s != [] && !IsWhite(s[|s| - 1]) && ',' !in s && ';' !in s
  {
    HexTokenPlain(v, !(v <= 9));
    assert v <= 9 ==> Digits(v, 16) == [DigitChar(v)];
    ByteDecimalEqualsHex(v);
    var t := ByteText(v);
    var s := SerializeByte(v);
    var n := |s| - |t|;
    assert forall i :: n <= i < |s| ==> s[i] == t[i - n] by {
      assert s[n..] == t;
    }
    assert forall i :: 0 <= i < |s| ==> s[i] == ' ' || s[i] in t;
  }

  /** What SerializeOperandValue(short) prints: the digit alone for 0 to 9, `$` and the
      upper-case hex of the 16-bit pattern for every other word. */
  lemma ShortTextCases(v: Short)
    ensures 0 <= v <= 9 ==> SerializeShort(v) == [DigitChar(v)]
    ensures !(0 <= v <= 9) ==> SerializeShort(v) == "$" + ShortHex(v)
  {
    ShortDecimalEqualsHex(v);
  }

  /** What SerializeOperandValue(byte) prints: the same, padded on the left to four
      characters. */
  lemma ByteTextCases(v: Byte)
    ensures v <= 9 ==> SerializeByte(v) == PadLeft([DigitChar(v)], 4)
    ensures v > 9 ==> SerializeByte(v) == PadLeft("$" + ByteHex(v), 4)
  {
    ByteDecimalEqualsHex(v);
  }

  /** Literal round trip for words: a printed word, parsed again and cast with (short) as
      ParseWords does, is the word printed. */
  lemma ShortLiteralRoundTrip(v: Short)
    ensures ParseOperandValue(SerializeShort(v)).Ok?
    ensures ToShort(ParseOperandValue(SerializeShort(v)).value) == v
  {
    ShortDecimalEqualsHex(v);
    var u: nat := if v < 0 then v + 0x1_0000 else v;
    DigitsRoundTrip(u, 16);
    var hex := ShortHex(v);
    if 0 <= v <= 9 {
      assert hex == [DigitChar(v)];
      assert Value(hex, 10) == v;
      assert ParseOperandValue(hex) == Ok(v);
      CastsKeepInRange(v);
    } else {
      assert ("$" + hex)[1..] == hex;
      assert ParseOperandValue("$" + hex) == Ok(u);
      PatternCast(v);
    }
  }

  /** A word's 16-bit pattern, cast back with (short), is the word. */
  lemma PatternCast(v: Short)
    ensures ToShort(if v < 0 then v + 0x1_0000 else v) == v
  {
    var u := if v < 0 then v + 0x1_0000 else v;
    assert 0x8000 <= u + 0x8000 < 0x1_8000;
    if v < 0 {
      assert (u + 0x8000) % 0x1_0000 == u + 0x8000 - 0x1_0000;
    } else {
      assert (u + 0x8000) % 0x1_0000 == u + 0x8000;
    }
  }

  /** A printed byte without its padding: plain digits for 0 to 9, `$` and hex otherwise. */
  function ByteText(v: Byte): (t: string)
    ensures t != [] && !IsWhite(t[0]) && !IsWhite(t[|t| - 1])
    ensures SerializeByte(v) == PadLeft(t, 4)
  {
    var hex := ByteHex(v);
    DigitsRoundTrip(v, 16);
    assert IsHexDigit(hex[0]) && IsHexDigit(hex[|hex| - 1]);
    if DecimalText(v) == hex then hex else "$" + hex
  }

  /** A printed byte, before padding, parses back to the byte. */
  lemma ByteTextRoundTrip(v: Byte)
    ensures ParseOperandValue(ByteText(v)) == Ok(v)
  {
    ByteDecimalEqualsHex(v);
    DigitsRoundTrip(v, 16);
    var hex := ByteHex(v);
    if v <= 9 {
      assert ByteText(v) == hex == [DigitChar(v)];
      assert Value(hex, 10) == v;
    } else {
      assert ByteText(v) == "$" + hex;
      assert ("$" + hex)[1..] == hex;
    }
  }

  /** Literal round trip for bytes: a printed byte, with its padding trimmed as the operand
      split does, parsed and cast with (byte), is the byte printed. */
  lemma ByteLiteralRoundTrip(v: Byte)
    ensures ParseOperandValue(Trim(SerializeByte(v))).Ok?
    ensures ToByte(ParseOperandValue(Trim(SerializeByte(v))).value) == v
  {
    var t := ByteText(v);
    TrimPadLeft(t, 4);
    assert Trim(SerializeByte(v)) == t;
    ByteTextRoundTrip(v);
    CastsKeepInRange(v);
  }
}
