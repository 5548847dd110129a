/** The string operations of .NET the codec relies on: trimming, splitting at the first or
    at every occurrence of a separator, joining, left padding, and an order on strings. */
module Text {

  import opened Results

  /** White space as string.Trim and string.Split(null) see it (the ASCII part of it). */
  predicate IsWhite(c: char) {
    c == ' ' || c == '\t' || c == '\n' || c == '\r' || c == '\U{000B}' || c == '\U{000C}'
  }

  /** string.IsNullOrWhiteSpace */
  predicate IsBlank(s: string) {
    forall i :: 0 <= i < |s| ==> IsWhite(s[i])
  }

  /** TrimStart(): the suffix left after dropping the leading white space. */
  function TrimStart(s: string): (r: string)
    ensures |r| <= |s| && r == s[|s| - |r|..]
    ensures forall i :: 0 <= i < |s| - |r| ==> IsWhite(s[i])
    ensures r != [] ==> !IsWhite(r[0])
  {
    if s != [] && IsWhite(s[0]) then TrimStart(s[1..]) else s
  }

  /** TrimEnd(): the prefix left after dropping the trailing white space. */
  function TrimEnd(s: string): (r: string)
    ensures |r| <= |s| && r == s[..|r|]
    ensures forall i :: |r| <= i < |s| ==> IsWhite(s[i])
    ensures r != [] ==> !IsWhite(r[|r| - 1])
  {
    if s != [] && IsWhite(s[|s| - 1]) then TrimEnd(s[..|s| - 1]) else s
  }

  /** Trim(): white space dropped at both ends. */
  function Trim(s: string): (r: string)
    ensures r == [] <==> IsBlank(s)
    ensures r != [] ==> !IsWhite(r[0]) && !IsWhite(r[|r| - 1])
  {
    var e := TrimEnd(s);
    var r := TrimStart(e);
    assert r != [] ==> r[|r| - 1] == e[|e| - 1];
    r
  }

  /** A string that neither starts nor ends with white space is its own trimmed form. */
  lemma TrimNoWhite(s: string)
    requires s != [] ==> !IsWhite(s[0]) && !IsWhite(s[|s| - 1])
    ensures Trim(s) == s
  {
  }

  /** string.IndexOf(c): the position of the first occurrence of c, or -1. */
  function IndexOf(s: string, c: char): (r: int)
    ensures -1 <= r < |s|
    ensures r == -1 <==> c !in s
    ensures r >= 0 ==> s[r] == c
    ensures forall i :: 0 <= i < r ==> s[i] != c
  {
    if s == [] then -1
    else if s[0] == c then 0
    else
      var k := IndexOf(s[1..], c);
      if k < 0 then -1 else k + 1
  }

  /** s.Split(c, 2)[0]: the text before the first c (all of s when there is none). */
  function Before(s: string, c: char): string
  {
    var k := IndexOf(s, c);
    if k < 0 then s else s[..k]
  }

  /** The text before the first c is a prefix free of c, cut just before a c when shorter. */
  lemma BeforeFacts(s: string, c: char)
    ensures |Before(s, c)| <= |s| && Before(s, c) == s[..|Before(s, c)|]
    ensures c !in Before(s, c)
    ensures |Before(s, c)| < |s| ==> s[|Before(s, c)|] == c
  {
  }

  /** s.Split(c, 2)[1]: the text after the first c; reading it when s holds no c is an
      IndexOutOfRangeException. */
  function After(s: string, c: char): (r: Result<string>)
    ensures r.Ok? <==> c in s
    ensures r.Ok? ==> s == Before(s, c) + [c] + r.value
  {
    var k := IndexOf(s, c);
    if k < 0 then Fail else
      assert s == s[..k] + [c] + s[k + 1..];
      Ok(s[k + 1..])
  }

  /** s.Split(c): every field between separators, empty fields included. */
  function Split(s: string, c: char): (r: seq<string>)
    ensures |r| >= 1
    decreases |s|
  {
    var k := IndexOf(s, c);
    if k < 0 then [s] else [s[..k]] + Split(s[k + 1..], c)
  }

  /** No field of a split holds the separator. */
  lemma {:induction false} SplitFields(s: string, c: char)
    ensures forall i :: 0 <= i < |Split(s, c)| ==> c !in Split(s, c)[i]
    decreases |s|
  {
    var k := IndexOf(s, c);
    if k >= 0 {
      SplitFields(s[k + 1..], c);
      var first := s[..k];
      assert c !in first by {
        forall i | 0 <= i < |first| ensures first[i] != c {
          assert first[i] == s[i];
        }
      }
      FieldsCons(first, Split(s[k + 1..], c), c);
    }
  }

  /** A field without the separator put in front of such fields. */
  lemma FieldsCons(first: string, rest: seq<string>, c: char)
    requires c !in first && forall i :: 0 <= i < |rest| ==> c !in rest[i]
    ensures forall i :: 0 <= i < |[first] + rest| ==> c !in ([first] + rest)[i]
  {
    forall i | 0 <= i < |[first] + rest| ensures c !in ([first] + rest)[i] {
      if i > 0 {
        assert ([first] + rest)[i] == rest[i - 1];
      }
    }
  }

  /** Joining the fields of a split gives back the string, and no field holds the
      separator. */
  lemma {:induction false} JoinSplit(s: string, c: char)
    ensures forall i :: 0 <= i < |Split(s, c)| ==> c !in Split(s, c)[i]
    ensures Join(Split(s, c), c) == s
    decreases |s|
  {
    SplitFields(s, c);
    JoinOfSplit(s, c);
  }

  /** The join half of JoinSplit. */
  lemma {:induction false} JoinOfSplit(s: string, c: char)
    ensures Join(Split(s, c), c) == s
    decreases |s|
  {
    var k := IndexOf(s, c);
    if k >= 0 {
      var rest := Split(s[k + 1..], c);
      assert Split(s, c) == [s[..k]] + rest;
      JoinOfSplit(s[k + 1..], c);
      JoinCons(s[..k], rest, c);
      assert Join(Split(s, c), c) == s[..k] + [s[k]] + s[k + 1..];
      CutAt(s, k);
    }
  }

  /** A string is the part before position k, the character at k and the part after. */
  lemma CutAt(s: string, k: nat)
    requires k < |s|
    ensures s[..k] + [s[k]] + s[k + 1..] == s
  {
    assert s[..k] + [s[k]] == s[..k + 1];
  }

  /** string.Join(c, parts) */
  function Join(parts: seq<string>, c: char): string
  {
    if |parts| == 0 then ""
    else if |parts| == 1 then parts[0]
    else parts[0] + [c] + Join(parts[1..], c)
  }

  /** Joining a first field and at least one more puts the separator after the first. */
  lemma JoinCons(first: string, rest: seq<string>, c: char)
    requires |rest| >= 1
    ensures Join([first] + rest, c) == first + [c] + Join(rest, c)
  {
    assert ([first] + rest)[1..] == rest;
  }

  /** A character in none of the fields, other than the separator, is not in their join. */
  lemma {:induction false} JoinAvoids(parts: seq<string>, c: char, d: char)
    requires d != c && forall i :: 0 <= i < |parts| ==> d !in parts[i]
    ensures d !in Join(parts, c)
    decreases |parts|
  {
    if |parts| > 1 {
      JoinAvoids(parts[1..], c, d);
    }
  }

  /** The join ends where its last field ends. */
  lemma {:induction false} JoinEnds(parts: seq<string>, c: char)
    requires parts != [] && parts[|parts| - 1] != []
    ensures var j := Join(parts, c); var last := parts[|parts| - 1];
      j != [] && j[|j| - 1] == last[|last| - 1]
    decreases |parts|
  {
    if |parts| > 1 {
      JoinEnds(parts[1..], c);
    }
  }

  /** A field without the separator, then the separator, splits off as the first field. */
  lemma SplitCons(first: string, c: char, tail: string)
    requires c !in first
    ensures Split(first + [c] + tail, c) == [first] + Split(tail, c)
  {
    var s := first + [c] + tail;
    assert s[|first|] == c;
    assert forall i :: 0 <= i < |first| ==> s[i] == first[i];
    assert IndexOf(s, c) == |first|;
    assert s[..|first|] == first;
    assert s[|first| + 1..] == tail;
  }

  /** Splitting undoes joining: the fields come back when none holds the separator. */
  lemma {:induction false} SplitJoin(parts: seq<string>, c: char)
    requires |parts| >= 1
    requires forall i :: 0 <= i < |parts| ==> c !in parts[i]
    ensures Split(Join(parts, c), c) == parts
    decreases |parts|
  {
    if |parts| > 1 {
      SplitJoin(parts[1..], c);
      JoinCons(parts[0], parts[1..], c);
      assert [parts[0]] + parts[1..] == parts;
      SplitCons(parts[0], c, Join(parts[1..], c));
    }
  }

  /** n spaces */
  function Spaces(n: nat): (r: string)
    ensures |r| == n && forall i :: 0 <= i < n ==> r[i] == ' '
  {
    if n == 0 then "" else " " + Spaces(n - 1)
  }

  /** PadLeft(width): spaces added in FRONT until the string is `width` long. */
  function PadLeft(s: string, width: nat): (r: string)
    ensures |r| == if |s| < width then width else |s|
    ensures r[|r| - |s|..] == s
    ensures forall i :: 0 <= i < |r| - |s| ==> r[i] == ' '
  {
    if |s| < width then Spaces(width - |s|) + s else s
  }

  /** Trimming a left-padded string gives back the unpadded one. */
  lemma TrimPadLeft(s: string, width: nat)
    requires s != [] && !IsWhite(s[0]) && !IsWhite(s[|s| - 1])
    ensures Trim(PadLeft(s, width)) == s
  {
    var p := PadLeft(s, width);
    var n := |p| - |s|;
    assert p[n..] == s && p[0..] == p;
    assert p[|p| - 1] == s[|s| - 1];
    TrimEndKeeps(p);
    TrimStartWhitePrefix(p, 0, n);
  }

  /** A string not ending in white space is its own TrimEnd. */
  lemma TrimEndKeeps(s: string)
    requires s != [] && !IsWhite(s[|s| - 1])
    ensures TrimEnd(s) == s
  {
  }

  lemma {:induction false} TrimStartWhitePrefix(p: string, k: nat, n: nat)
    requires k <= n <= |p|
    requires forall i :: 0 <= i < n ==> p[i] == ' '
    requires n < |p| ==> !IsWhite(p[n])
    ensures TrimStart(p[k..]) == TrimStart(p[n..])
    decreases n - k
  {
    if k < n {
      assert p[k..][1..] == p[k + 1..];
      TrimStartWhitePrefix(p, k + 1, n);
    }
  }

  /** No element occurs twice (a HashSet's elements, listed). */
  predicate NoDup<T(==)>(s: seq<T>) {
    forall i, j :: 0 <= i < j < |s| ==> s[i] != s[j]
  }

  /** Ordinal (character-code) lexicographic order on strings. */
  predicate StrLess(a: string, b: string)
    decreases |a|
  {
    if a == [] then b != []
    else if b == [] then false
    else if a[0] != b[0] then a[0] < b[0]
    else StrLess(a[1..], b[1..])
  }

  lemma {:induction false} StrLessIrreflexive(a: string)
    ensures !StrLess(a, a)
    decreases |a|
  {
    if a != [] {
      StrLessIrreflexive(a[1..]);
    }
  }

  lemma {:induction false} StrLessTotal(a: string, b: string)
    ensures StrLess(a, b) || a == b || StrLess(b, a)
    decreases |a|
  {
    if a != [] && b != [] && a[0] == b[0] {
      StrLessTotal(a[1..], b[1..]);
      if a[1..] == b[1..] {
        assert a == [a[0]] + a[1..] && b == [b[0]] + b[1..];
      }
    }
  }

  lemma {:induction false} StrLessTransitive(a: string, b: string, c: string)
    requires StrLess(a, b) && StrLess(b, c)
    ensures StrLess(a, c)
    decreases |a|
  {
    if a != [] && b != [] && c != [] && a[0] == b[0] && b[0] == c[0] {
      StrLessTransitive(a[1..], b[1..], c[1..]);
    }
  }
}
