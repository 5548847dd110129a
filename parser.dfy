/** Parse: reads a mapping file line by line. It starts in table mode, where `dc.w
    label-table` lines build the offset table. The first column-0 label that names an entry
    of that table switches it, once, to data mode. There every directive starts a record
    that is filed, under its contents, together with the labels declared since the last
    record. */
module Parser {

  import opened Results
  import opened Words
  import opened Text
  import opened Lexer
  import opened RecordReader
  import opened Records

  /** One offset-table entry: `dc.w label-tableName`. */
  datatype Entry = Entry(name: string, tableName: string)

  /** One entry of the definitions dictionary: a record's words and the labels filed
      under them (a HashSet, held duplicate-free in insertion order). */
  datatype Definition = Definition(words: seq<Short>, labels: seq<string>)

  /** What Parse returns. The dictionary is an association list in insertion order, the
      order in which a Dictionary nothing is removed from enumerates. */
  datatype ParseResult = ParseResult(offsetTable: seq<Entry>, definitions: seq<Definition>)

  /** The local variables of Parse: the pending labels, the dictionary, the offset table,
      the name of the first table (null until the first entry) and the mode. */
  datatype State = State(
    labels: seq<string>,
    definitions: seq<Definition>,
    offsetTable: seq<Entry>,
    mainTable: Option<string>,
    tableMode: bool)

  /** The state before the first line. */
  function Initial(): State {
    State([], [], [], None, true)
  }

  /** Some record already owns the label. */
  predicate Attached(defs: seq<Definition>, name: string) {
    exists i :: 0 <= i < |defs| && name in defs[i].labels
  }

  /** Some offset-table entry names the label. */
  predicate InTable(table: seq<Entry>, name: string) {
    exists i :: 0 <= i < |table| && table[i].name == name
  }

  /** No string is in both lists. */
  predicate Disjoint(a: seq<string>, b: seq<string>) {
    forall x :: x in a ==> x !in b
  }

  /** HashSet.Add. */
  function AddLabel(labels: seq<string>, name: string): (r: seq<string>)
    ensures forall x :: x in r <==> x in labels || x == name
    ensures NoDup(labels) ==> NoDup(r)
  {
    if name in labels then labels else labels + [name]
  }

  /** HashSet.Add of each of `more` in turn. */
  function AddLabels(labels: seq<string>, more: seq<string>): (r: seq<string>)
    ensures forall x :: x in r <==> x in labels || x in more
    ensures NoDup(labels) ==> NoDup(r)
    decreases |more|
  {
    if more == [] then labels
    else
      assert forall x :: x in more <==> x == more[0] || x in more[1..] by {
        assert more == [more[0]] + more[1..];
      }
      AddLabels(AddLabel(labels, more[0]), more[1..])
  }

  // ---------------------------------------------------------------- table mode

  /** `Split('-', 2)` of a table operand: the label before the first `-` and the table name
      after it; without a `-` the second token is missing. */
  function EntryOf(operand: string): (r: Result<Entry>)
    ensures r.Ok? <==> '-' in operand
    ensures r.Ok? ==> operand == r.value.name + "-" + r.value.tableName && '-' !in r.value.name
  {
    BeforeFacts(operand, '-');
    match After(operand, '-')
    case Fail => Fail
    case Ok(tableName) => Ok(Entry(Before(operand, '-'), tableName))
  }

  /** mainTable is null exactly while the table is empty, and then names its first table. */
  predicate Anchored(table: seq<Entry>, mainTable: Option<string>) {
    (mainTable.None? <==> table == []) && (mainTable.Some? ==> mainTable.value == table[0].tableName)
  }

  /** The duplicate rule: an entry already in the table may come again only in a table other
      than the first, and only with the label of the table's first entry. */
  predicate Rejected(table: seq<Entry>, mainTable: string, e: Entry)
    requires table != []
  {
    (e.tableName == mainTable || e.name != table[0].name) && e in table
  }

  /** What the duplicate rule lets into a table: every repeat of an earlier entry lies outside
      the first table and carries the first entry's label. */
  predicate AliasOnly(table: seq<Entry>) {
    forall i, j :: 0 <= i < j < |table| && table[i] == table[j] ==>
      table[j].tableName != table[0].tableName && table[j].name == table[0].name
  }

  /** One operand of a table-mode `dc.w`: its entry appended, the first one also naming the
      main table; a missing `-` or a rejected duplicate fails. */
  function AddEntry(table: seq<Entry>, mainTable: Option<string>, operand: string)
    : (r: Result<(seq<Entry>, Option<string>)>)
    requires Anchored(table, mainTable)
    ensures r.Ok? <==> '-' in operand && (table != [] ==> !Rejected(table, mainTable.value, EntryOf(operand).value))
    ensures r.Ok? ==> r.value.0 == table + [EntryOf(operand).value] && Anchored(r.value.0, r.value.1)
    ensures r.Ok? && AliasOnly(table) ==> AliasOnly(r.value.0)
  {
    match EntryOf(operand)
    case Fail => Fail
    case Ok(e) =>
      if mainTable.None? then Ok((table + [e], Some(e.tableName)))
      else if Rejected(table, mainTable.value, e) then Fail
      else
        var t := table + [e];
        assert AliasOnly(table) ==> AliasOnly(t) by {
          if AliasOnly(table) {
            forall i, j | 0 <= i < j < |t| && t[i] == t[j]
              ensures t[j].tableName != t[0].tableName && t[j].name == t[0].name
            {
              if j == |table| {
                assert e in table by { assert table[i] == e; }
              }
            }
          }
        }
        Ok((t, mainTable))
  }

  /** The operand loop of a table-mode `dc.w`: each operand's entry appended in turn. */
  function AddEntries(table: seq<Entry>, mainTable: Option<string>, operands: seq<string>)
    : (r: Result<(seq<Entry>, Option<string>)>)
    requires Anchored(table, mainTable)
    ensures r.Ok? ==> Anchored(r.value.0, r.value.1)
    decreases |operands|
  {
    if operands == [] then Ok((table, mainTable))
    else
      match AddEntry(table, mainTable, operands[0])
      case Fail => Fail
      case Ok((t, m)) => AddEntries(t, m, operands[1..])
  }

  /** es holds the entries of the operands, one for one and in the same order. */
  predicate EntriesOf(operands: seq<string>, es: seq<Entry>) {
    |operands| == |es| && forall k :: 0 <= k < |operands| ==> EntryOf(operands[k]) == Ok(es[k])
  }

  /** The table keeps encounter order: the old entries first, then one entry per operand, in
      the operands' order. */
  lemma {:induction false} AddEntriesInOrder(table: seq<Entry>, mainTable: Option<string>, operands: seq<string>)
    requires Anchored(table, mainTable)
    requires AddEntries(table, mainTable, operands).Ok?
    ensures var u := AddEntries(table, mainTable, operands).value.0;
      |u| >= |table| && u[..|table|] == table && EntriesOf(operands, u[|table|..])
    decreases |operands|
  {
    if operands != [] {
      AddEntriesStep(table, mainTable, operands);
      var e := EntryOf(operands[0]).value;
      var (t, m) := AddEntry(table, mainTable, operands[0]).value;
      var u := AddEntries(t, m, operands[1..]).value.0;
      AddEntriesInOrder(t, m, operands[1..]);
      ExtendedPrefix(table, e, u);
      EntriesOfCons(operands, e, u[|t|..]);
    }
  }

  /** The first turn of the operand loop: the first operand's entry is appended, and the
      rest of the line goes on from there. */
  lemma AddEntriesStep(table: seq<Entry>, mainTable: Option<string>, operands: seq<string>)
    requires Anchored(table, mainTable) && operands != []
    requires AddEntries(table, mainTable, operands).Ok?
    ensures EntryOf(operands[0]).Ok? && AddEntry(table, mainTable, operands[0]).Ok?
    ensures AddEntry(table, mainTable, operands[0]).value.0 == table + [EntryOf(operands[0]).value]
    ensures var (t, m) := AddEntry(table, mainTable, operands[0]).value;
      AddEntries(table, mainTable, operands) == AddEntries(t, m, operands[1..])
  {
  }

  /** A sequence that starts with table + [e] starts with table, and after it comes e. */
  lemma ExtendedPrefix(table: seq<Entry>, e: Entry, u: seq<Entry>)
    requires |u| >= |table| + 1 && u[..|table| + 1] == table + [e]
    ensures u[..|table|] == table && u[|table|..] == [e] + u[|table| + 1..]
  {
    assert u[..|table|] == u[..|table| + 1][..|table|];
    assert u == u[..|table| + 1] + u[|table| + 1..];
  }

  /** The entries of a line's operands: the first operand's, then the others'. */
  lemma EntriesOfCons(operands: seq<string>, e: Entry, rest: seq<Entry>)
    requires operands != [] && EntryOf(operands[0]) == Ok(e) && EntriesOf(operands[1..], rest)
    ensures EntriesOf(operands, [e] + rest)
  {
    forall k | 0 <= k < |operands| ensures EntryOf(operands[k]) == Ok(([e] + rest)[k]) {
      if k > 0 {
        assert operands[k] == operands[1..][k - 1];
      }
    }
  }

  /** The duplicate rule holds of the table after a whole `dc.w` line of entries. */
  lemma {:induction false} AddEntriesAliasOnly(table: seq<Entry>, mainTable: Option<string>, operands: seq<string>)
    requires Anchored(table, mainTable) && AliasOnly(table)
    requires AddEntries(table, mainTable, operands).Ok?
    ensures AliasOnly(AddEntries(table, mainTable, operands).value.0)
    decreases |operands|
  {
    if operands != [] {
      var (t, m) := AddEntry(table, mainTable, operands[0]).value;
      AddEntriesAliasOnly(t, m, operands[1..]);
    }
  }

  /** The operand loop, as Parse runs it. */
  method AddTableEntries(table: seq<Entry>, mainTable: Option<string>, operands: seq<string>)
    returns (r: Result<(seq<Entry>, Option<string>)>)
    requires Anchored(table, mainTable)
    ensures r == AddEntries(table, mainTable, operands)
  {
    var t, m := table, mainTable;
    var i := 0;
    while i < |operands|
      invariant i <= |operands| && Anchored(t, m)
      invariant AddEntries(t, m, operands[i..]) == AddEntries(table, mainTable, operands)
    {
      assert operands[i..][1..] == operands[i + 1..];
      var entry := EntryOf(operands[i]);
      if entry.Fail? {
        return Fail;
      }
      var e := entry.value;
      if m.None? {
        m := Some(e.tableName);
      } else if (e.tableName == m.value || e.name != t[0].name) && e in t {
        return Fail;
      }
      t := t + [e];
      i := i + 1;
    }
    r := Ok((t, m));
  }

  // ---------------------------------------------------------------- data mode

  /** TryGetValue from position i on: the entry whose key has the same words (the comparer's
      Equals is word-by-word equality), or -1. */
  function FindFrom(defs: seq<Definition>, key: seq<Short>, i: nat): (r: int)
    requires i <= |defs|
    ensures r == -1 || i <= r < |defs|
    ensures r >= 0 ==> defs[r].words == key
    ensures r == -1 <==> forall k :: i <= k < |defs| ==> defs[k].words != key
    decreases |defs| - i
  {
    if i == |defs| then -1
    else if defs[i].words == key then i
    else FindFrom(defs, key, i + 1)
  }

  /** TryGetValue: the position of the entry keyed by `key`, or -1. */
  function FindKey(defs: seq<Definition>, key: seq<Short>): int {
    FindFrom(defs, key, 0)
  }

  /** Where File puts the record keyed by `key`: the entry with its words, or a new one at
      the end. */
  function Slot(defs: seq<Definition>, key: seq<Short>): (k: nat)
    ensures k <= |defs|
    ensures k < |defs| ==> defs[k].words == key
    ensures k == |defs| <==> forall i :: 0 <= i < |defs| ==> defs[i].words != key
  {
    if FindKey(defs, key) < 0 then |defs| else FindKey(defs, key)
  }

  /** A record filed with the pending labels: a new entry owning exactly them when no entry
      has its words, otherwise the labels merged into that entry's set; every other entry
      stays as it was. */
  function File(defs: seq<Definition>, key: seq<Short>, labels: seq<string>): (r: seq<Definition>)
    ensures |r| == if FindKey(defs, key) < 0 then |defs| + 1 else |defs|
    ensures forall i :: 0 <= i < |defs| ==> r[i].words == defs[i].words
    ensures Slot(defs, key) < |r| && r[Slot(defs, key)].words == key
    ensures forall i :: 0 <= i < |defs| && i != Slot(defs, key) ==> r[i] == defs[i]
    ensures forall x :: x in r[Slot(defs, key)].labels <==>
      (Slot(defs, key) < |defs| && x in defs[Slot(defs, key)].labels) || x in labels
    ensures FindKey(defs, key) < 0 ==> r[|defs|] == Definition(key, labels)
    ensures forall x :: Attached(r, x) <==> Attached(defs, x) || x in labels
  {
    var k := FindKey(defs, key);
    if k < 0 then
      var r := defs + [Definition(key, labels)];
      assert r[|defs|].words == key;
      assert forall x :: Attached(r, x) <==> Attached(defs, x) || x in labels by {
        forall x ensures Attached(r, x) <==> Attached(defs, x) || x in labels {
          if x in labels {
            assert x in r[|defs|].labels;
          }
          if Attached(defs, x) {
            var i :| 0 <= i < |defs| && x in defs[i].labels;
            assert x in r[i].labels;
          }
        }
      }
      r
    else
      var r := defs[k := defs[k].(labels := AddLabels(defs[k].labels, labels))];
      assert r[k].words == key;
      assert forall x :: Attached(r, x) <==> Attached(defs, x) || x in labels by {
        forall x ensures Attached(r, x) <==> Attached(defs, x) || x in labels {
          if x in labels {
            assert x in r[k].labels;
          }
          if Attached(defs, x) {
            var i :| 0 <= i < |defs| && x in defs[i].labels;
            assert x in r[i].labels;
          }
          if Attached(r, x) {
            var i :| 0 <= i < |r| && x in r[i].labels;
            if i != k {
              assert x in defs[i].labels;
            }
          }
        }
      }
      r
  }

  // ---------------------------------------------------------------- one line

  /** What a line does to the parse: go on at a later line, or stop at `even`. */
  datatype Next = Continue(st: State, pos: nat) | Stop(st: State)

  /** A column-0 label: fatal when a record already owns it. In table mode a label that the
      offset table names ends table mode and empties the pending set. Then it is added to
      the pending labels. */
  function Declare(st: State, name: string): (r: Result<State>)
    ensures r.Fail? <==> Attached(st.definitions, name)
    ensures r.Ok? ==> r.value.tableMode == (st.tableMode && !InTable(st.offsetTable, name))
    ensures r.Ok? ==> forall x :: x in r.value.labels <==>
      x == name || (x in st.labels && r.value.tableMode == st.tableMode)
    ensures r.Ok? ==> r.value.(labels := st.labels, tableMode := st.tableMode) == st
  {
    if Attached(st.definitions, name) then Fail
    else
      var st' := if st.tableMode && InTable(st.offsetTable, name) then st.(tableMode := false, labels := []) else st;
      Ok(st'.(labels := AddLabel(st'.labels, name)))
  }

  /** A table-mode directive: it must be `dc.w`, and its operands are appended to the
      offset table. */
  function TableDirective(pos: nat, st: State, d: Directive): (r: Result<Next>)
    requires Anchored(st.offsetTable, st.mainTable)
    ensures r.Ok? ==> r == Ok(Continue(r.value.st, pos + 1)) && Anchored(r.value.st.offsetTable, r.value.st.mainTable)
    ensures r.Ok? ==> r.value.st.tableMode == st.tableMode
  {
    if d.isByte then Fail
    else
      match AddEntries(st.offsetTable, st.mainTable, d.operands)
      case Fail => Fail
      case Ok((table, mainTable)) => Ok(Continue(st.(offsetTable := table, mainTable := mainTable), pos + 1))
  }

  /** A data-mode directive starts a record, read from its operands and the lines after it;
      the record is filed with the pending labels, which then start afresh. */
  function DataDirective(lines: seq<string>, entrySize: int, pos: nat, st: State, d: Directive): (r: Result<Next>)
    requires pos < |lines|
    ensures r.Ok? ==> r.value.Continue? && pos < r.value.pos <= |lines|
    ensures r.Ok? ==> r.value.st.(definitions := st.definitions, labels := st.labels) == st
  {
    match ReadRecord(Lex(lines), Cursor(pos + 1, d.operands, 0, d.isByte), entrySize)
    case Fail => Fail
    case Ok((next, key)) => Ok(Continue(st.(definitions := File(st.definitions, key, st.labels), labels := []), next))
  }

  /** An indented statement, or the text after a label: `even` stops the parse; anything
      else must be a `dc.b`/`dc.w` directive, taken as the mode says. */
  function Statement(lines: seq<string>, entrySize: int, pos: nat, st: State, line: string): (r: Result<Next>)
    requires pos < |lines| && Anchored(st.offsetTable, st.mainTable)
    ensures r.Ok? && r.value.Continue? ==> pos < r.value.pos <= |lines|
    ensures r.Ok? ==> Anchored(r.value.st.offsetTable, r.value.st.mainTable)
    ensures r.Ok? ==> r.value.st.tableMode == st.tableMode
  {
    if line == "even" then Ok(Stop(st))
    else
      match GetOperandEnumerator(line)
      case Fail => Fail
      case Ok(d) =>
        if st.tableMode then TableDirective(pos, st, d) else DataDirective(lines, entrySize, pos, st, d)
  }

  /** A line with a label at column 0: the label declared, then the text after its `:`,
      when there is any, taken as a statement. */
  function LabelLine(lines: seq<string>, entrySize: int, pos: nat, st: State, name: string, rest: Result<string>)
    : (r: Result<Next>)
    requires pos < |lines| && Anchored(st.offsetTable, st.mainTable)
    ensures r.Ok? && r.value.Continue? ==> pos < r.value.pos <= |lines|
    ensures r.Ok? ==> Anchored(r.value.st.offsetTable, r.value.st.mainTable)
    ensures r.Ok? ==> r.value.st.tableMode == (st.tableMode && !InTable(st.offsetTable, name))
  {
    match Declare(st, name)
    case Fail => Fail
    case Ok(st') =>
      match rest
      case Fail => Fail
      case Ok(after) =>
        var line := TrimStart(after);
        if IsBlank(line) then Ok(Continue(st', pos + 1)) else Statement(lines, entrySize, pos, st', line)
  }

  /** One pass of Parse's loop, on the line at `pos`. */
  function Step(lines: seq<string>, entrySize: int, pos: nat, st: State): (r: Result<Next>)
    requires pos < |lines| && Anchored(st.offsetTable, st.mainTable)
    ensures r.Ok? && r.value.Continue? ==> pos < r.value.pos <= |lines|
    ensures r.Ok? ==> Anchored(r.value.st.offsetTable, r.value.st.mainTable)
  {
    match ClassifyLine(lines[pos])
    case Skip => Ok(Continue(st, pos + 1))
    case Statement(text) => Statement(lines, entrySize, pos, st, text)
    case Labelled(name, rest) => LabelLine(lines, entrySize, pos, st, name, rest)
  }

  /** The loop from line `pos` on, to the end of the lines or to `even`. */
  function Run(lines: seq<string>, entrySize: int, pos: nat, st: State): (r: Result<ParseResult>)
    requires pos <= |lines| && Anchored(st.offsetTable, st.mainTable)
    decreases |lines| - pos
  {
    if pos == |lines| then Ok(ParseResult(st.offsetTable, st.definitions))
    else
      match Step(lines, entrySize, pos, st)
      case Fail => Fail
      case Ok(Stop(st')) => Ok(ParseResult(st'.offsetTable, st'.definitions))
      case Ok(Continue(st', pos')) => Run(lines, entrySize, pos', st')
  }

  /** `even` ends the parse: the statement stops the loop with the state as it is, and
      nothing after it is read. */
  lemma RunStopsAtEven(lines: seq<string>, entrySize: int, pos: nat, st: State)
    requires pos < |lines| && Anchored(st.offsetTable, st.mainTable)
    requires ClassifyLine(lines[pos]) == LineKind.Statement("even")
    ensures Run(lines, entrySize, pos, st) == Ok(ParseResult(st.offsetTable, st.definitions))
  {
  }

  /** A blank or comment-only line changes nothing: the loop goes on at the next line. */
  lemma RunSkipsBlank(lines: seq<string>, entrySize: int, pos: nat, st: State)
    requires pos < |lines| && Anchored(st.offsetTable, st.mainTable)
    requires ClassifyLine(lines[pos]).Skip?
    ensures Run(lines, entrySize, pos, st) == Run(lines, entrySize, pos + 1, st)
  {
  }

  /** The result of Parse on a file's lines. */
  function Parsed(lines: seq<string>, entrySize: int): Result<ParseResult> {
    Run(lines, entrySize, 0, Initial())
  }

  // ---------------------------------------------------------------- what Parse keeps

  /** The records are well formed: each has the record shape and a duplicate-free label set;
      no two have the same words, and no two share a label. */
  predicate ValidDefinitions(defs: seq<Definition>, entrySize: int) {
    && (forall i :: 0 <= i < |defs| ==> RecordShape(defs[i].words, entrySize) && NoDup(defs[i].labels))
    && (forall i, j :: 0 <= i < j < |defs| ==> defs[i].words != defs[j].words && Disjoint(defs[i].labels, defs[j].labels))
  }

  /** The invariant of Parse's loop: the dictionary is well formed and the pending labels are
      owned by no record; table mode has filed no record yet; the offset table is anchored
      to the main table and satisfies the duplicate rule. */
  predicate Valid(st: State, entrySize: int) {
    && NoDup(st.labels)
    && ValidDefinitions(st.definitions, entrySize)
    && (forall x :: x in st.labels ==> !Attached(st.definitions, x))
    && (st.tableMode ==> st.definitions == [])
    && Anchored(st.offsetTable, st.mainTable)
    && AliasOnly(st.offsetTable)
  }

  /** What a successful Parse returns: well-formed records, each label owned by at most one,
      and an offset table obeying the duplicate rule. */
  predicate WellFormed(p: ParseResult, entrySize: int) {
    ValidDefinitions(p.definitions, entrySize) && AliasOnly(p.offsetTable)
  }

  /** Filing a record with pending labels no record owns keeps the records well formed. */
  lemma FileValid(defs: seq<Definition>, key: seq<Short>, labels: seq<string>, entrySize: int)
    requires ValidDefinitions(defs, entrySize) && RecordShape(key, entrySize) && NoDup(labels)
    requires forall x :: x in labels ==> !Attached(defs, x)
    ensures ValidDefinitions(File(defs, key, labels), entrySize)
  {
    var r := File(defs, key, labels);
    var k := FindKey(defs, key);
    if k < 0 {
      assert r == defs + [Definition(key, labels)];
      forall i, j | 0 <= i < j < |r| ensures r[i].words != r[j].words && Disjoint(r[i].labels, r[j].labels) {
        if j == |defs| {
          forall x | x in r[i].labels ensures x !in r[j].labels {
            assert Attached(defs, x) by { assert x in defs[i].labels; }
          }
        }
      }
    } else {
      assert r == defs[k := defs[k].(labels := AddLabels(defs[k].labels, labels))];
      forall i, j | 0 <= i < j < |r| ensures r[i].words != r[j].words && Disjoint(r[i].labels, r[j].labels) {
        if i == k || j == k {
          var other := if i == k then j else i;
          forall x | x in r[k].labels ensures x !in r[other].labels {
            if x !in labels {
              assert x in defs[k].labels;
            }
          }
        }
      }
    }
  }

  /** Declaring a label keeps the invariant. */
  lemma DeclareValid(st: State, name: string, entrySize: int)
    requires Valid(st, entrySize) && Declare(st, name).Ok?
    ensures Valid(Declare(st, name).value, entrySize)
  {
  }

  /** A statement keeps the invariant. */
  lemma StatementValid(lines: seq<string>, entrySize: int, pos: nat, st: State, line: string)
    requires pos < |lines| && Valid(st, entrySize)
    requires Statement(lines, entrySize, pos, st, line).Ok?
    ensures Valid(Statement(lines, entrySize, pos, st, line).value.st, entrySize)
  {
    if line != "even" {
      var d := GetOperandEnumerator(line).value;
      if st.tableMode {
        AddEntriesAliasOnly(st.offsetTable, st.mainTable, d.operands);
      } else {
        var (next, key) := ReadRecord(Lex(lines), Cursor(pos + 1, d.operands, 0, d.isByte), entrySize).value;
        FileValid(st.definitions, key, st.labels, entrySize);
      }
    }
  }

  /** One pass of the loop keeps the invariant. */
  lemma StepValid(lines: seq<string>, entrySize: int, pos: nat, st: State)
    requires pos < |lines| && Valid(st, entrySize)
    requires Step(lines, entrySize, pos, st).Ok?
    ensures Valid(Step(lines, entrySize, pos, st).value.st, entrySize)
  {
    match ClassifyLine(lines[pos])
    case Skip =>
    case Statement(text) =>
      StatementValid(lines, entrySize, pos, st, text);
    case Labelled(name, rest) =>
      DeclareValid(st, name, entrySize);
      var st' := Declare(st, name).value;
      var line := TrimStart(rest.value);
      if !IsBlank(line) {
        StatementValid(lines, entrySize, pos, st', line);
      }
  }

  /** The loop from any state satisfying the invariant returns a well-formed result. */
  lemma {:induction false} RunWellFormed(lines: seq<string>, entrySize: int, pos: nat, st: State)
    requires pos <= |lines| && Valid(st, entrySize)
    requires Run(lines, entrySize, pos, st).Ok?
    ensures WellFormed(Run(lines, entrySize, pos, st).value, entrySize)
    decreases |lines| - pos
  {
    if pos < |lines| {
      StepValid(lines, entrySize, pos, st);
      match Step(lines, entrySize, pos, st).value
      case Stop(_) =>
      case Continue(st', pos') => RunWellFormed(lines, entrySize, pos', st');
    }
  }

  /** Every successful parse is well formed: no two records have the same words, no label
      is owned by two records, every record has the length its header word announces, and
      duplicate offset-table entries are only the aliases the rule lets through. */
  lemma ParsedWellFormed(lines: seq<string>, entrySize: int)
    requires Parsed(lines, entrySize).Ok?
    ensures WellFormed(Parsed(lines, entrySize).value, entrySize)
  {
    RunWellFormed(lines, entrySize, 0, Initial());
  }

  // ---------------------------------------------------------------- the rules of the loop

  /** The line is a column-0 label that the offset table names. */
  predicate SwitchesMode(read: string, table: seq<Entry>) {
    ClassifyLine(read).Labelled? && InTable(table, ClassifyLine(read).name)
  }

  /** The mode changes once: a successful pass leaves table mode exactly when it was in table
      mode and its line is a label the offset table names; data mode is never left. */
  lemma ModeChange(lines: seq<string>, entrySize: int, pos: nat, st: State)
    requires pos < |lines| && Anchored(st.offsetTable, st.mainTable)
    requires Step(lines, entrySize, pos, st).Ok?
    ensures Step(lines, entrySize, pos, st).value.st.tableMode <==>
      st.tableMode && !SwitchesMode(lines[pos], st.offsetTable)
  {
  }

  /** A label some record already owns cannot be declared again. */
  lemma RedeclaredLabelFails(lines: seq<string>, entrySize: int, pos: nat, st: State)
    requires pos < |lines| && Anchored(st.offsetTable, st.mainTable)
    requires ClassifyLine(lines[pos]).Labelled? && Attached(st.definitions, ClassifyLine(lines[pos]).name)
    ensures Step(lines, entrySize, pos, st).Fail?
  {
  }

  /** `even` is not a directive: it has no blank to end an operand size. */
  lemma EvenIsNoDirective()
    ensures GetOperandEnumerator("even").Fail?
  {
    var s := "even";
    assert s[0] == 'e' && s[1] == 'v' && s[2] == 'e' && s[3] == 'n';
    assert forall i :: 0 <= i < |s| ==> !IsWhite(s[i]);
  }

  /** In table mode a `dc.b` directive is an error. */
  lemma ByteTableFails(lines: seq<string>, entrySize: int, pos: nat, st: State, line: string)
    requires pos < |lines| && Anchored(st.offsetTable, st.mainTable) && st.tableMode
    requires GetOperandEnumerator(line).Ok? && GetOperandEnumerator(line).value.isByte
    ensures Statement(lines, entrySize, pos, st, line).Fail?
  {
    if line == "even" {
      EvenIsNoDirective();
    }
  }

  /** In data mode a directive files one record and consumes the pending labels: they are
      afterwards owned by a record, no other label becomes owned, and the pending set is
      empty. */
  lemma RecordTakesLabels(lines: seq<string>, entrySize: int, pos: nat, st: State, line: string)
    requires pos < |lines| && Anchored(st.offsetTable, st.mainTable) && !st.tableMode && line != "even"
    requires Statement(lines, entrySize, pos, st, line).Ok?
    ensures var st' := Statement(lines, entrySize, pos, st, line).value.st;
      && st'.labels == []
      && (forall x :: Attached(st'.definitions, x) <==> Attached(st.definitions, x) || x in st.labels)
      && |st.definitions| <= |st'.definitions| <= |st.definitions| + 1
    ensures GetOperandEnumerator(line).Ok?
    ensures var d := GetOperandEnumerator(line).value;
      var read := ReadRecord(Lex(lines), Cursor(pos + 1, d.operands, 0, d.isByte), entrySize);
      var st' := Statement(lines, entrySize, pos, st, line).value.st;
      && read.Ok?
      && st'.definitions == File(st.definitions, read.value.1, st.labels)
      && st'.definitions[Slot(st.definitions, read.value.1)].words == read.value.1
      && forall x :: x in st.labels ==> x in st'.definitions[Slot(st.definitions, read.value.1)].labels
  {
  }

  // ---------------------------------------------------------------- the loop

  /** Parse over the lines of a mapping file: one Pass per line, until the lines run out,
      `even` stops it, or a line fails. */
  method Parse(lines: seq<string>, entrySize: int) returns (r: Result<ParseResult>)
    ensures r == Parsed(lines, entrySize)
    ensures r.Ok? ==> WellFormed(r.value, entrySize)
  {
    if Parsed(lines, entrySize).Ok? {
      ParsedWellFormed(lines, entrySize);
    }
    var st := Initial();
    var pos := 0;
    while pos < |lines|
      invariant pos <= |lines| && Anchored(st.offsetTable, st.mainTable)
      invariant Run(lines, entrySize, pos, st) == Parsed(lines, entrySize)
      decreases |lines| - pos
    {
      var next := Pass(lines, entrySize, pos, st);
      match next {
        case Fail =>
          return Fail;
        case Ok(Stop(st')) =>
          return Ok(ParseResult(st'.offsetTable, st'.definitions));
        case Ok(Continue(st', pos')) =>
          st, pos := st', pos';
      }
    }
    r := Ok(ParseResult(st.offsetTable, st.definitions));
  }

  /** One pass of the loop: a blank line is skipped; a label at column 0 is declared;
      otherwise the trimmed line is a statement. */
  method Pass(lines: seq<string>, entrySize: int, pos: nat, st: State) returns (r: Result<Next>)
    requires pos < |lines| && Anchored(st.offsetTable, st.mainTable)
    ensures r == Step(lines, entrySize, pos, st)
  {
    match ClassifyLine(lines[pos]) {
      case Skip =>
        r := Ok(Continue(st, pos + 1));
      case Statement(text) =>
        r := Execute(lines, entrySize, pos, st, text);
      case Labelled(name, rest) =>
        r := Label(lines, entrySize, pos, st, name, rest);
    }
  }

  /** A label at column 0: refused when a record owns it; in table mode, one the offset table
      names ends table mode and clears the pending labels; it is added to them. The text after
      its `:`, when there is any, is the statement. */
  method Label(lines: seq<string>, entrySize: int, pos: nat, st: State, name: string, rest: Result<string>)
    returns (r: Result<Next>)
    requires pos < |lines| && Anchored(st.offsetTable, st.mainTable)
    ensures r == LabelLine(lines, entrySize, pos, st, name, rest)
  {
    if Attached(st.definitions, name) {
      return Fail;
    }
    var cur := st;
    if cur.tableMode && InTable(cur.offsetTable, name) {
      cur := cur.(tableMode := false, labels := []);
    }
    cur := cur.(labels := AddLabel(cur.labels, name));
    assert Declare(st, name) == Ok(cur);
    if rest.Fail? {
      return Fail;
    }
    var line := TrimStart(rest.value);
    if IsBlank(line) {
      return Ok(Continue(cur, pos + 1));
    }
    r := Execute(lines, entrySize, pos, cur, line);
  }

  /** The statement of a pass: `even` stops; a directive adds entries in table mode and a
      record in data mode. */
  method Execute(lines: seq<string>, entrySize: int, pos: nat, st: State, line: string) returns (r: Result<Next>)
    requires pos < |lines| && Anchored(st.offsetTable, st.mainTable)
    ensures r == Statement(lines, entrySize, pos, st, line)
  {
    if line == "even" {
      return Ok(Stop(st));
    }
    var directive := GetOperandEnumerator(line);
    if directive.Fail? {
      return Fail;
    }
    var d := directive.value;
    if st.tableMode {
      if d.isByte {
        return Fail;
      }
      var entries := AddTableEntries(st.offsetTable, st.mainTable, d.operands);
      if entries.Fail? {
        return Fail;
      }
      r := Ok(Continue(st.(offsetTable := entries.value.0, mainTable := entries.value.1), pos + 1));
    } else {
      var record := ReadRecordFrom(lines, Cursor(pos + 1, d.operands, 0, d.isByte), entrySize);
      if record.Fail? {
        return Fail;
      }
      var (next, definition) := record.value;
      r := Ok(Continue(st.(definitions := File(st.definitions, definition, st.labels), labels := []), next));
    }
  }
}
