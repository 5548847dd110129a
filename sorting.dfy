/** The orderings LINQ and System.Collections.Immutable supply: OrderBy, a stable sort on an
    integer key, and ToImmutableSortedSet on strings, which sorts and drops repeats. */
module Sorting {

  import opened Text

  /** s is in ascending order of key. */
  predicate SortedBy<T>(s: seq<T>, key: T -> int) {
    forall i, j :: 0 <= i < j < |s| ==> key(s[i]) <= key(s[j])
  }

  /** x placed into the sorted s after every element whose key is not larger, so that
      among equal keys the earlier input stays first. */
  function InsertBy<T>(x: T, s: seq<T>, key: T -> int): (r: seq<T>)
    requires SortedBy(s, key)
    ensures SortedBy(r, key)
    ensures multiset(r) == multiset(s) + multiset{x}
  {
    if s == [] then [x]
    else if key(x) < key(s[0]) then [x] + s
    else
      var rest := InsertBy(x, s[1..], key);
      InsertByBound(x, s, key, rest);
      assert s == [s[0]] + s[1..];
      [s[0]] + rest
  }

  /** Every element of the tail, with x inserted, has a key at least the head's. */
  lemma InsertByBound<T>(x: T, s: seq<T>, key: T -> int, rest: seq<T>)
    requires SortedBy(s, key) && s != [] && key(s[0]) <= key(x)
    requires multiset(rest) == multiset(s[1..]) + multiset{x}
    ensures forall k :: 0 <= k < |rest| ==> key(s[0]) <= key(rest[k])
  {
    forall k | 0 <= k < |rest| ensures key(s[0]) <= key(rest[k]) {
      assert rest[k] in multiset(rest);
      if rest[k] != x {
        assert rest[k] in multiset(s[1..]);
        assert rest[k] in s[1..];
      }
    }
  }

  /** OrderBy(key): a stable sort, one element at a time. */
  function SortBy<T>(s: seq<T>, key: T -> int): (r: seq<T>)
    ensures SortedBy(r, key)
    ensures multiset(r) == multiset(s)
  {
    if s == [] then []
    else
      var n := |s| - 1;
      assert s == s[..n] + [s[n]];
      InsertBy(s[n], SortBy(s[..n], key), key)
  }

  /** A sort keeps the elements and their number. */
  lemma SortByKeeps<T>(s: seq<T>, key: T -> int)
    ensures |SortBy(s, key)| == |s|
    ensures forall x :: x in SortBy(s, key) <==> x in s
  {
    var r := SortBy(s, key);
    assert |r| == |multiset(r)| == |multiset(s)| == |s|;
    forall x ensures x in r <==> x in s {
      assert x in r <==> x in multiset(r);
      assert x in s <==> x in multiset(s);
    }
  }

  /** The elements of s whose key is k, in the order of s. */
  function WithKey<T>(s: seq<T>, key: T -> int, k: int): (r: seq<T>)
    ensures |r| <= |s|
  {
    if s == [] then [] else (if key(s[0]) == k then [s[0]] else []) + WithKey(s[1..], key, k)
  }

  /** Filtering by key distributes over concatenation. */
  lemma {:induction false} WithKeyAppend<T>(a: seq<T>, b: seq<T>, key: T -> int, k: int)
    ensures WithKey(a + b, key, k) == WithKey(a, key, k) + WithKey(b, key, k)
    decreases |a|
  {
    if a != [] {
      assert (a + b)[0] == a[0] && (a + b)[1..] == a[1..] + b;
      WithKeyAppend(a[1..], b, key, k);
    } else {
      assert a + b == b;
    }
  }

  /** A sequence whose keys all lie above k holds nothing with key k. */
  lemma {:induction false} WithKeyAbove<T>(s: seq<T>, key: T -> int, k: int)
    requires forall i :: 0 <= i < |s| ==> k < key(s[i])
    ensures WithKey(s, key, k) == []
    decreases |s|
  {
    if s != [] {
      WithKeyAbove(s[1..], key, k);
    }
  }

  /** InsertBy places x after every element of equal key: among the elements with any one
      key, x comes last and the others keep their order. */
  lemma {:induction false} InsertByStable<T>(x: T, s: seq<T>, key: T -> int, k: int)
    requires SortedBy(s, key)
    ensures WithKey(InsertBy(x, s, key), key, k)
         == WithKey(s, key, k) + (if key(x) == k then [x] else [])
    decreases |s|
  {
    if s == [] {
    } else if key(x) < key(s[0]) {
      if key(x) == k {
        WithKeyAbove(s, key, k);
      }
      assert InsertBy(x, s, key) == [x] + s;
      WithKeyCons(x, s, key, k);
    } else {
      InsertByStable(x, s[1..], key, k);
      InsertByTail(x, s, key);
      WithKeyLater(s, InsertBy(x, s[1..], key), key, k, if key(x) == k then [x] else []);
    }
  }

  /** x not below the head of s goes into its tail. */
  lemma InsertByTail<T>(x: T, s: seq<T>, key: T -> int)
    requires SortedBy(s, key) && s != [] && key(s[0]) <= key(x)
    ensures InsertBy(x, s, key) == [s[0]] + InsertBy(x, s[1..], key)
  {
  }

  /** A tail whose filter gains `extra` at the end, put back behind the head of s, gives
      the filter of s with `extra` at the end. */
  lemma WithKeyLater<T>(s: seq<T>, rest: seq<T>, key: T -> int, k: int, extra: seq<T>)
    requires s != [] && WithKey(rest, key, k) == WithKey(s[1..], key, k) + extra
    ensures WithKey([s[0]] + rest, key, k) == WithKey(s, key, k) + extra
  {
    WithKeyCons(s[0], rest, key, k);
    assert [s[0]] + s[1..] == s;
    WithKeyCons(s[0], s[1..], key, k);
    Regroup(if key(s[0]) == k then [s[0]] else [], WithKey(s[1..], key, k), extra);
  }

  /** Filtering a sequence with a given head: the head if its key is k, then the rest. */
  lemma WithKeyCons<T>(h: T, s: seq<T>, key: T -> int, k: int)
    ensures WithKey([h] + s, key, k) == (if key(h) == k then [h] else []) + WithKey(s, key, k)
  {
    assert ([h] + s)[0] == h && ([h] + s)[1..] == s;
  }

  /** Concatenation is associative. */
  lemma Regroup<T>(a: seq<T>, b: seq<T>, c: seq<T>)
    ensures a + (b + c) == (a + b) + c
  {
  }

  /** OrderBy is stable: for every key, the elements that carry it come out in the order
      they went in. */
  lemma {:induction false} SortByStable<T>(s: seq<T>, key: T -> int, k: int)
    ensures WithKey(SortBy(s, key), key, k) == WithKey(s, key, k)
    decreases |s|
  {
    if s != [] {
      var n := |s| - 1;
      SortByStable(s[..n], key, k);
      InsertByStable(s[n], SortBy(s[..n], key), key, k);
      SortByLast(s, key);
      WithKeyLast(s, key, k);
    }
  }

  /** SortBy inserts the last element into the sorted rest. */
  lemma SortByLast<T>(s: seq<T>, key: T -> int)
    requires s != []
    ensures SortBy(s, key) == InsertBy(s[|s| - 1], SortBy(s[..|s| - 1], key), key)
  {
  }

  /** The filter of s is the filter of all but its last element, then that element if its
      key is k. */
  lemma WithKeyLast<T>(s: seq<T>, key: T -> int, k: int)
    requires s != []
    ensures WithKey(s, key, k)
         == WithKey(s[..|s| - 1], key, k) + (if key(s[|s| - 1]) == k then [s[|s| - 1]] else [])
  {
    var n := |s| - 1;
    assert s == s[..n] + [s[n]];
    WithKeyAppend(s[..n], [s[n]], key, k);
  }

  /** s is in strictly ascending ordinal order, so it holds no repeats. */
  predicate StrictlySorted(s: seq<string>) {
    forall i, j :: 0 <= i < j < |s| ==> StrLess(s[i], s[j])
  }

  /** x added to a sorted set of strings, unless it is there already. */
  function InsertString(x: string, s: seq<string>): (r: seq<string>)
    requires StrictlySorted(s)
    ensures StrictlySorted(r)
    ensures forall y :: y in r <==> y == x || y in s
  {
    if s == [] then [x]
    else if x == s[0] then s
    else if StrLess(x, s[0]) then
      assert forall k | 0 <= k < |s| :: StrLess(x, s[k]) by {
        forall k | 0 <= k < |s| ensures StrLess(x, s[k]) {
          if k > 0 {
            StrLessTransitive(x, s[0], s[k]);
          }
        }
      }
      [x] + s
    else
      StrLessTotal(x, s[0]);
      var rest := InsertString(x, s[1..]);
      assert forall k | 0 <= k < |rest| :: StrLess(s[0], rest[k]) by {
        forall k | 0 <= k < |rest| ensures StrLess(s[0], rest[k]) {
          assert rest[k] in rest;
          if rest[k] != x {
            assert rest[k] in s[1..];
          }
        }
      }
      [s[0]] + rest
  }

  /** ToImmutableSortedSet: the distinct strings of s in ascending order. */
  function SortedSet(s: seq<string>): (r: seq<string>)
    ensures StrictlySorted(r)
    ensures forall y :: y in r <==> y in s
  {
    if s == [] then []
    else
      var n := |s| - 1;
      assert forall y :: y in s <==> y in s[..n] || y == s[n] by {
        assert s == s[..n] + [s[n]];
      }
      InsertString(s[n], SortedSet(s[..n]))
  }

  /** A strictly sorted sequence holds no repeats. */
  lemma StrictlySortedNoDup(s: seq<string>)
    requires StrictlySorted(s)
    ensures NoDup(s)
  {
    forall i, j | 0 <= i < j < |s| ensures s[i] != s[j] {
      StrLessIrreflexive(s[i]);
    }
  }
}
