/** SortDefinitions: the order in which Serialize writes the records. Each record's labels
    become offset-table indices, optionally transposed; a record's indices are sorted, and
    the records are sorted by their first index. */
module Linearizer {

  import opened Results
  import opened Words
  import opened Sorting
  import opened Parser

  function Abs(x: int): nat {
    if x < 0 then -x else x
  }

  /** C#'s `/` on int: the quotient truncated toward zero. */
  function Quot(a: int, b: int): int
    requires b != 0
  {
    var q := Abs(a) / Abs(b);
    if (a < 0) == (b < 0) then q else -q
  }

  /** C#'s `%` on int: the remainder that goes with Quot, carrying the sign of `a`. */
  function Rem(a: int, b: int): int
    requires b != 0
  {
    a - b * Quot(a, b)
  }

  /** On a non-negative dividend and a positive divisor, C# and Dafny divide alike. */
  lemma QuotRemNatural(a: int, b: int)
    requires a >= 0 && b > 0
    ensures Quot(a, b) == a / b && Rem(a, b) == a % b
  {
  }

  /** A negative dividend rounds toward zero in C#, not down: -1 / 2 is 0 and -1 % 2 is -1. */
  lemma QuotTruncates()
    ensures Quot(-1, 2) == 0 && Rem(-1, 2) == -1
    ensures Quot(-7, 2) == -3 && Rem(-7, 2) == -1
  {
  }

  /** In general, C# divides a negative dividend by a positive divisor as a division of the
      magnitudes with the sign put back on both the quotient and the remainder. */
  lemma QuotNegative(a: int, b: int)
    requires a < 0 && b > 0
    ensures Quot(a, b) == -((-a) / b) && Rem(a, b) == -((-a) % b)
    ensures -b < Rem(a, b) <= 0
  {
  }

  /** A label missing from the table (IndexOf gives -1) is placed at -1 or, interleaved
      with more than one table, at -numSprites: never at a valid index unless numSprites is
      0. */
  lemma PositionOfMissing(interleaved: bool, numTables: int, numSprites: int)
    requires numTables > 0
    ensures Position(-1, interleaved, numTables, numSprites)
      == if interleaved && numTables > 1 then -numSprites else -1
  {
    if interleaved && numTables > 1 {
      QuotNegative(-1, numTables);
    }
  }

  /** From position i on, the first entry named `name` (List.IndexOf), or -1. */
  function IndexOfFrom(table: seq<Entry>, name: string, i: nat): (r: int)
    requires i <= |table|
    ensures r == -1 || i <= r < |table|
    ensures r >= 0 ==> table[r].name == name && forall k :: i <= k < r ==> table[k].name != name
    ensures r == -1 <==> forall k :: i <= k < |table| ==> table[k].name != name
    decreases |table| - i
  {
    if i == |table| then -1
    else if table[i].name == name then i
    else IndexOfFrom(table, name, i + 1)
  }

  /** labels.IndexOf(label) over the offset table's labels. */
  function IndexOfLabel(table: seq<Entry>, name: string): int {
    IndexOfFrom(table, name, 0)
  }

  /** Where an index sends a record: the index itself or, interleaved, its place once the
      offset table, read as numTables rows of numSprites, is read column by column. */
  function Position(index: int, interleaved: bool, numTables: int, numSprites: int): int
    requires numTables != 0
  {
    if interleaved then Quot(index, numTables) + Rem(index, numTables) * numSprites else index
  }

  /** A record and the positions of its labels, ascending. */
  datatype Placement = Placement(words: seq<Short>, indices: seq<int>)

  /** The key of `OrderBy(index => index)`. */
  function Id(x: int): int {
    x
  }

  /** The key of `OrderBy(definition => definition.Item2.First())`; never asked of a
      record without labels, where First() would throw. */
  function FirstIndex(p: Placement): int {
    if p.indices == [] then 0 else p.indices[0]
  }

  /** The positions of a record's labels, in label order. */
  function Positions(table: seq<Entry>, labels: seq<string>, interleaved: bool, numTables: int, numSprites: int)
    : (r: seq<int>)
    requires numTables != 0
    ensures |r| == |labels|
    ensures forall k :: 0 <= k < |labels| ==>
      r[k] == Position(IndexOfLabel(table, labels[k]), interleaved, numTables, numSprites)
  {
    seq(|labels|, k requires 0 <= k < |labels| => Position(IndexOfLabel(table, labels[k]), interleaved, numTables, numSprites))
  }

  /** One record's entry: its words and its label positions sorted. */
  function Place(d: Definition, table: seq<Entry>, interleaved: bool, numTables: int, numSprites: int)
    : (p: Placement)
    requires numTables != 0
    ensures p.words == d.words && |p.indices| == |d.labels| && SortedBy(p.indices, Id)
    ensures multiset(p.indices) == multiset(Positions(table, d.labels, interleaved, numTables, numSprites))
  {
    var indices := SortBy(Positions(table, d.labels, interleaved, numTables, numSprites), Id);
    SortByKeeps(Positions(table, d.labels, interleaved, numTables, numSprites), Id);
    Placement(d.words, indices)
  }

  /** The Select over the dictionary: one entry per record, in dictionary order. */
  function Placements(defs: seq<Definition>, table: seq<Entry>, interleaved: bool, numTables: int, numSprites: int)
    : (r: seq<Placement>)
    requires numTables != 0
    ensures |r| == |defs|
    ensures forall i :: 0 <= i < |defs| ==> r[i] == Place(defs[i], table, interleaved, numTables, numSprites)
  {
    seq(|defs|, i requires 0 <= i < |defs| => Place(defs[i], table, interleaved, numTables, numSprites))
  }

  /** Some record has no label, so that First() throws. */
  predicate Unlabelled(defs: seq<Definition>) {
    exists i :: 0 <= i < |defs| && defs[i].labels == []
  }

  /** When every record has a label, every entry has a first index, and its indices are
      ascending. */
  lemma PlacementsLabelled(defs: seq<Definition>, table: seq<Entry>, interleaved: bool, numTables: int, numSprites: int)
    requires numTables != 0 && !Unlabelled(defs)
    ensures forall p :: p in Placements(defs, table, interleaved, numTables, numSprites) ==>
      p.indices != [] && SortedBy(p.indices, Id)
  {
    var placed := Placements(defs, table, interleaved, numTables, numSprites);
    forall i | 0 <= i < |placed| ensures placed[i].indices != [] && SortedBy(placed[i].indices, Id) {
      var p := Place(defs[i], table, interleaved, numTables, numSprites);
      assert placed[i] == p;
      assert defs[i].labels != [];
    }
  }

  /** SortDefinitions on a parse result, with numSprites the offset table's length over
      numTables. A zero numTables is a division by zero. */
  function SortDefinitions(result: ParseResult, interleaved: bool, numTables: int): (r: Result<seq<Placement>>)
    ensures r.Fail? <==> numTables == 0 || Unlabelled(result.definitions)
    ensures r.Ok? ==> |r.value| == |result.definitions| && SortedBy(r.value, FirstIndex)
    ensures r.Ok? ==> forall p :: p in r.value ==> p.indices != [] && SortedBy(p.indices, Id)
  {
    if numTables == 0 then Fail
    else
      var numSprites := Quot(|result.offsetTable|, numTables);
      var placed := Placements(result.definitions, result.offsetTable, interleaved, numTables, numSprites);
      if Unlabelled(result.definitions) then Fail
      else
        SortByKeeps(placed, FirstIndex);
        PlacementsLabelled(result.definitions, result.offsetTable, interleaved, numTables, numSprites);
        Ok(SortBy(placed, FirstIndex))
  }

  /** The records come out permuted, each one placed exactly as Place describes: every
      record of the dictionary has its entry and every entry is some record's. */
  lemma SortDefinitionsPermutes(result: ParseResult, interleaved: bool, numTables: int)
    requires SortDefinitions(result, interleaved, numTables).Ok?
    ensures var numSprites := Quot(|result.offsetTable|, numTables);
      multiset(SortDefinitions(result, interleaved, numTables).value)
        == multiset(Placements(result.definitions, result.offsetTable, interleaved, numTables, numSprites))
  {
  }

  /** Records that tie on their first index (for one, records whose labels are all missing
      from the table) come out in dictionary order, as the stable OrderBy keeps them. */
  lemma SortDefinitionsStable(result: ParseResult, interleaved: bool, numTables: int, k: int)
    requires SortDefinitions(result, interleaved, numTables).Ok?
    ensures var numSprites := Quot(|result.offsetTable|, numTables);
      WithKey(SortDefinitions(result, interleaved, numTables).value, FirstIndex, k)
        == WithKey(Placements(result.definitions, result.offsetTable, interleaved, numTables, numSprites), FirstIndex, k)
  {
    var numSprites := Quot(|result.offsetTable|, numTables);
    SortByStable(Placements(result.definitions, result.offsetTable, interleaved, numTables, numSprites), FirstIndex, k);
  }

  /** A record's first index is the smallest of its positions, so records are ordered by the
      earliest place any of their labels occupies. */
  lemma FirstIndexIsLeast(p: Placement)
    requires p.indices != [] && SortedBy(p.indices, Id)
    ensures forall x :: x in p.indices ==> FirstIndex(p) <= x
  {
    forall x | x in p.indices ensures FirstIndex(p) <= x {
      var k :| 0 <= k < |p.indices| && p.indices[k] == x;
      if k > 0 {
        assert Id(p.indices[0]) <= Id(p.indices[k]);
      }
    }
  }

  /** Multiplying by a natural number keeps order. */
  lemma {:induction false} MulMonotone(a: int, b: int, n: int)
    ensures n >= 0 && a <= b ==> a * n <= b * n
    decreases if n < 0 then 0 else n
  {
    if n > 0 {
      MulMonotone(a, b, n - 1);
      assert a * n == a * (n - 1) + a && b * n == b * (n - 1) + b;
    }
  }

  /** Division is unique: x = r * n + q with 0 <= q < n fixes the quotient and the
      remainder. */
  lemma DivModUnique(x: int, n: int, r: int, q: int)
    requires n > 0 && 0 <= q < n && x == r * n + q
    ensures x / n == r && x % n == q
  {
    var d, m := x / n, x % n;
    assert x == d * n + m && 0 <= m < n;
    MulMonotone(d + 1, r, n);
    MulMonotone(r + 1, d, n);
    assert (d + 1) * n == d * n + n && (r + 1) * n == r * n + n;
    assert r == d;
  }

  /** The row and column of index i in a matrix of rows of numTables: the row is below
      numSprites when i is inside the matrix. */
  lemma RowColumn(i: int, numTables: int, numSprites: int)
    requires numTables > 0 && numSprites > 0 && 0 <= i < numTables * numSprites
    ensures Quot(i, numTables) == i / numTables && Rem(i, numTables) == i % numTables
    ensures i == (i / numTables) * numTables + i % numTables
    ensures 0 <= i / numTables < numSprites && 0 <= i % numTables < numTables
  {
    QuotRemNatural(i, numTables);
    MulMonotone(numSprites, i / numTables, numTables);
  }

  /** The interleave transform on a full table of numTables * numSprites entries stays in
      range. */
  lemma TransposeInRange(i: int, numTables: int, numSprites: int)
    requires numTables > 0 && numSprites > 0 && 0 <= i < numTables * numSprites
    ensures 0 <= Position(i, true, numTables, numSprites) < numTables * numSprites
  {
    RowColumn(i, numTables, numSprites);
    var q, r := i / numTables, i % numTables;
    assert Position(i, true, numTables, numSprites) == q + r * numSprites;
    MulMonotone(r, numTables - 1, numSprites);
    assert (numTables - 1) * numSprites == numTables * numSprites - numSprites;
    assert 0 <= r * numSprites by {
      MulMonotone(0, r, numSprites);
    }
  }

  /** The interleave transform sends distinct indices of a full table to distinct places:
      it is the transpose of a numTables x numSprites matrix. */
  lemma TransposeInjective(i: int, j: int, numTables: int, numSprites: int)
    requires numTables > 0 && numSprites > 0
    requires 0 <= i < numTables * numSprites && 0 <= j < numTables * numSprites
    requires Position(i, true, numTables, numSprites) == Position(j, true, numTables, numSprites)
    ensures i == j
  {
    RowColumn(i, numTables, numSprites);
    RowColumn(j, numTables, numSprites);
    var x := Position(i, true, numTables, numSprites);
    assert x == (i % numTables) * numSprites + i / numTables;
    assert x == (j % numTables) * numSprites + j / numTables;
    DivModUnique(x, numSprites, i % numTables, i / numTables);
    DivModUnique(x, numSprites, j % numTables, j / numTables);
  }

  /** With two tables of three, index 4 (the second entry of the second table) goes to place
      2 and index 5 stays at 5. */
  lemma TransposeExample()
    ensures Position(4, true, 2, 3) == 2 && Position(5, true, 2, 3) == 5
  {
  }
}
