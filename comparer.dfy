/** DefinitionComparer: the equality and the hash that key the dictionary from record
    contents to label sets. A record is a list of 16-bit words. */
module Comparer {

  import opened Words

  /** Equals: the lengths first, then the words index by index, stopping at the first
      difference. (The ReferenceEquals shortcut answers true only for a list compared with
      itself, which the element-wise test answers true as well.) */
  method Equals(a: seq<Short>, b: seq<Short>) returns (eq: bool)
    ensures eq <==> |a| == |b| && forall i :: 0 <= i < |a| ==> a[i] == b[i]
    ensures eq <==> a == b
  {
    if |a| != |b| {
      return false;
    }
    var index := 0;
    while index < |a|
      invariant 0 <= index <= |a|
      invariant forall i :: 0 <= i < index ==> a[i] == b[i]
    {
      if a[index] != b[index] {
        return false;
      }
      index := index + 1;
    }
    return true;
  }

  /** The 16-bit two's complement pattern of a word, in the low half of 32 bits. */
  function Bits(w: Short): bv32 {
    (if w < 0 then w + 0x1_0000 else w) as bv32
  }

  /** The patterns of a list of words. */
  function Patterns(words: seq<Short>): (ps: seq<bv32>)
    ensures |ps| == |words|
  {
    if words == [] then [] else [Bits(words[0])] + Patterns(words[1..])
  }

  /** `acc ^= word` promotes the word to int first, so a negative word (top bit of its
      pattern set) is sign-extended and sets the whole upper half. */
  function LowTerm(b: bv32): bv32 {
    if b >= 0x8000 then 0xFFFF_0000 | b else b
  }

  /** `acc ^= word << 16`: the word's 16 bits moved into the upper half (the sign bits
      shifted out of the 32-bit int are lost). */
  function HighTerm(b: bv32): bv32 {
    b << 16
  }

  /** What one word contributes, in the high half or in the low half. */
  function Term(b: bv32, high: bool): bv32 {
    if high then HighTerm(b) else LowTerm(b)
  }

  /** `acc ^= high ? word << 16 : word`: one word folded into the accumulator. */
  function XorTerm(acc: bv32, p: bv32, high: bool): bv32 {
    acc ^ Term(p, high)
  }

  /** A left fold from position i on that flips a flag after every element, the shape of
      the GetHashCode loop: with XorTerm, the first word goes to the low half, the second to
      the high half, and so on. */
  function Alternating<A, E>(step: (A, E, bool) -> A, es: seq<E>, i: nat, acc: A, high: bool): A
    requires i <= |es|
    decreases |es| - i
  {
    if i == |es| then acc else Alternating(step, es, i + 1, step(acc, es[i], high), !high)
  }

  /** The hash of a word list, as the 32-bit pattern of the int GetHashCode returns: the
      whole fold, from acc = 0 and high = false. */
  function Hash(words: seq<Short>): bv32 {
    Alternating(XorTerm, Patterns(words), 0, 0, false)
  }

  /** GetHashCode: each word promoted to int, then folded in (FoldHash). */
  method GetHashCode(words: seq<Short>) returns (h: bv32)
    ensures h == Hash(words)
  {
    h := FoldHash(Patterns(words));
  }

  /** The loop of GetHashCode: the XOR fold, with `high` flipping after every word. */
  method FoldHash(ps: seq<bv32>) returns (acc: bv32)
    ensures acc == Alternating(XorTerm, ps, 0, 0, false)
  {
    acc := 0;
    var high := false;
    var i := 0;
    while i < |ps|
      invariant 0 <= i <= |ps|
      invariant Alternating(XorTerm, ps, i, acc, high) == Alternating(XorTerm, ps, 0, 0, false)
    {
      acc := acc ^ Term(ps[i], high);
      high := !high;
      i := i + 1;
    }
  }

  /** Folding over one more element applies the step once more at the end, with the flag
      the alternation has reached by then (`last`: `high` flipped once per element from i
      on). `qs` is `ps` with one element added at the end. */
  lemma {:induction false} AlternatingSnoc<A, E>(step: (A, E, bool) -> A, ps: seq<E>, qs: seq<E>, i: nat,
                                                 acc: A, high: bool, last: bool)
    requires |qs| == |ps| + 1 && forall k :: 0 <= k < |ps| ==> qs[k] == ps[k]
    requires i <= |ps| && last == (high != ((|ps| - i) % 2 == 1))
    ensures Alternating(step, qs, i, acc, high) == step(Alternating(step, ps, i, acc, high), qs[|ps|], last)
    decreases |ps| - i
  {
    if i < |ps| {
      assert qs[i] == ps[i];
      AlternatingSnoc(step, ps, qs, i + 1, step(acc, ps[i], high), !high, last);
    }
  }

  /** The patterns of a longer list: those of the shorter one, then the new word's. */
  lemma {:induction false} PatternsSnoc(words: seq<Short>, w: Short)
    ensures Patterns(words + [w]) == Patterns(words) + [Bits(w)]
  {
    if words != [] {
      assert (words + [w])[1..] == words[1..] + [w];
      PatternsSnoc(words[1..], w);
    } else {
      assert words + [w] == [w];
    }
  }

  /** The hash, word by word: one more word is one more `acc ^= ...` step, the word
      sign-extended at an even position (0, 2, ...) and shifted into the high half at an odd
      one. */
  lemma HashSnoc(words: seq<Short>, w: Short)
    ensures Hash(words + [w]) == XorTerm(Hash(words), Bits(w), |words| % 2 == 1)
    ensures Hash(words + [w]) == Hash(words) ^ Term(Bits(w), |words| % 2 == 1)
  {
    var ps, qs := Patterns(words), Patterns(words + [w]);
    PatternsSnoc(words, w);
    assert qs[|ps|] == Bits(w);
    AlternatingSnoc(XorTerm, ps, qs, 0, 0, false, |words| % 2 == 1);
  }

  /** The empty list hashes to 0. */
  lemma HashOfEmpty()
    ensures Hash([]) == 0
  {
  }

  /** The hash agrees with Equals: lists Equals calls equal get the same hash. */
  lemma HashConsistent(a: seq<Short>, b: seq<Short>)
    requires |a| == |b| && forall i :: 0 <= i < |a| ==> a[i] == b[i]
    ensures Hash(a) == Hash(b)
  {
    assert a == b;
  }

  /** The fold is not injective: [1, 0, 1] and [0, 0, 0] differ but hash alike (the two 1s
      both land in the low half and cancel), so the dictionary needs Equals to tell keys
      apart. */
  lemma HashCollides()
    ensures Hash([1, 0, 1]) == Hash([0, 0, 0]) == 0
  {
    assert Patterns([1, 0, 1]) == [1, 0, 1] && Patterns([0, 0, 0]) == [0, 0, 0];
  }
}
