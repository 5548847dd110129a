/** The line lexer: comment stripping, the size directive, the operand split of a directive
    line, and the classification of a raw line as blank, label declaration or statement. */
module Lexer {

  import opened Results
  import opened Text

  /** StripComments: the text before the first `;` (the whole line when there is none), a
      prefix of the line free of `;`, cut just before the first `;`. */
  function StripComments(line: string): (r: string)
    ensures |r| <= |line| && r == line[..|r|]
    ensures ';' !in r
    ensures |r| < |line| ==> line[|r|] == ';'
  {
    BeforeFacts(line, ';');
    Before(line, ';')
  }

  /** ParseOperandSize: `dc.b` means byte operands, `dc.w` word operands, anything else is
      an error. */
  function ParseOperandSize(token: string): (r: Result<bool>)
    ensures r == Ok(true) <==> token == "dc.b"
    ensures r == Ok(false) <==> token == "dc.w"
    ensures r.Fail? <==> token != "dc.b" && token != "dc.w"
  {
    if token == "dc.b" then Ok(true)
    else if token == "dc.w" then Ok(false)
    else Fail
  }

  /** The position of the first white-space character, or -1. */
  function IndexOfWhite(s: string): (r: int)
    ensures -1 <= r < |s|
    ensures r == -1 <==> forall i :: 0 <= i < |s| ==> !IsWhite(s[i])
    ensures r >= 0 ==> IsWhite(s[r]) && forall i :: 0 <= i < r ==> !IsWhite(s[i])
  {
    if s == [] then -1
    else if IsWhite(s[0]) then 0
    else
      var k := IndexOfWhite(s[1..]);
      if k < 0 then -1 else k + 1
  }

  /** A directive line taken apart: its operand size and its operand tokens. */
  datatype Directive = Directive(isByte: bool, operands: seq<string>)

  /** Split(entries, StringSplitOptions.TrimEntries) after the split: each field trimmed. */
  function TrimAll(fields: seq<string>): (r: seq<string>)
    ensures |r| == |fields|
  {
    if fields == [] then [] else [Trim(fields[0])] + TrimAll(fields[1..])
  }

  lemma {:induction false} TrimAllAt(fields: seq<string>, i: nat)
    requires i < |fields|
    ensures TrimAll(fields)[i] == Trim(fields[i])
  {
    var rest := TrimAll(fields[1..]);
    assert TrimAll(fields) == [Trim(fields[0])] + rest;
    if i > 0 {
      TrimAllAt(fields[1..], i - 1);
      assert fields[1..][i - 1] == fields[i];
    }
  }

  /** GetOperandEnumerator: line.Split(null, 2) cuts at the first white-space character; the
      part before it is the size directive and the part after it (an IndexOutOfRange error
      when there is no white space) is split at every comma into trimmed operand tokens. */
  function GetOperandEnumerator(line: string): (r: Result<Directive>)
    ensures r.Ok? <==> IndexOfWhite(line) >= 0 && line[..IndexOfWhite(line)] in {"dc.b", "dc.w"}
    ensures r.Ok? ==> r.value.isByte == (line[..IndexOfWhite(line)] == "dc.b")
  {
    var k := IndexOfWhite(line);
    var head := if k < 0 then line else line[..k];
    match ParseOperandSize(head)
    case Fail => Fail
    case Ok(isByte) =>
      if k < 0 then Fail
      else Ok(Directive(isByte, TrimAll(Split(line[k + 1..], ','))))
  }

  /** The text after a line's first white space (empty when it has none). */
  function OperandText(line: string): string {
    var k := IndexOfWhite(line);
    if k < 0 then "" else line[k + 1..]
  }

  /** The operand tokens of a directive line: the comma-separated fields of the text after
      the first white space, each trimmed. */
  lemma OperandTokens(line: string)
    requires GetOperandEnumerator(line).Ok?
    ensures |GetOperandEnumerator(line).value.operands| == |Split(OperandText(line), ',')|
    ensures forall i :: 0 <= i < |Split(OperandText(line), ',')| ==>
      && GetOperandEnumerator(line).value.operands[i] == Trim(Split(OperandText(line), ',')[i])
      && ',' !in Split(OperandText(line), ',')[i]
  {
    OperandsAreFields(line);
    SplitFields(OperandText(line), ',');
    TrimAllEach(Split(OperandText(line), ','));
  }

  /** The operands of a directive line are its fields after the first white space, trimmed. */
  lemma OperandsAreFields(line: string)
    requires GetOperandEnumerator(line).Ok?
    ensures GetOperandEnumerator(line).value.operands == TrimAll(Split(OperandText(line), ','))
  {
  }

  /** TrimAll trims each field. */
  lemma TrimAllEach(fields: seq<string>)
    ensures forall i :: 0 <= i < |fields| ==> TrimAll(fields)[i] == Trim(fields[i])
  {
    forall i | 0 <= i < |fields| ensures TrimAll(fields)[i] == Trim(fields[i]) {
      TrimAllAt(fields, i);
    }
  }

  /** Operands a directive line can carry and read back: free of `,` and `;`, the last one
      ending in a character other than white space. */
  predicate WritableOperands(ops: seq<string>) {
    && ops != [] && ops[|ops| - 1] != [] && !IsWhite(ops[|ops| - 1][|ops[|ops| - 1]| - 1])
    && forall i :: 0 <= i < |ops| ==> ',' !in ops[i] && ';' !in ops[i]
  }

  /** A directive line as a writer indents it, two tabs, the size, a space and the operands
      joined by commas, is a statement whose text is the line without the tabs; that text's
      operand split gives the size back and each operand trimmed. */
  lemma DirectiveLexes(size: string, ops: seq<string>)
    requires size == "dc.b" || size == "dc.w"
    requires WritableOperands(ops)
    ensures ClassifyLine("\t\t" + (size + " " + Join(ops, ','))) == Statement(size + " " + Join(ops, ','))
    ensures GetOperandEnumerator(size + " " + Join(ops, ',')) == Ok(Directive(size == "dc.b", TrimAll(ops)))
  {
    var j := Join(ops, ',');
    JoinAvoids(ops, ',', ';');
    JoinEnds(ops, ',');
    DirectiveEnds(size, j);
    DirectiveLine(size + " " + j);
    DirectiveOperands(size, ops);
  }

  /** The operand split of a directive's text gives the size and the operands trimmed. */
  lemma DirectiveOperands(size: string, ops: seq<string>)
    requires size == "dc.b" || size == "dc.w"
    requires WritableOperands(ops)
    ensures GetOperandEnumerator(size + " " + Join(ops, ',')) == Ok(Directive(size == "dc.b", TrimAll(ops)))
  {
    var j := Join(ops, ',');
    var t := size + " " + j;
    DirectiveText(size, j);
    OperandsAreFields(t);
    SplitJoin(ops, ',');
    var d := GetOperandEnumerator(t).value;
    assert d.isByte == (size == "dc.b") && d.operands == TrimAll(ops);
  }

  /** The text of a directive line starts with the size and ends where the operands end;
      it holds a `;` only where they do. */
  lemma DirectiveEnds(size: string, j: string)
    requires |size| == 4 && ';' !in size && j != [] && ';' !in j
    ensures var t := size + " " + j; t[0] == size[0] && t[|t| - 1] == j[|j| - 1] && ';' !in t
  {
    var t := size + " " + j;
    assert forall i :: 5 <= i < |t| ==> t[i] == j[i - 5];
    assert forall i :: 0 <= i < 4 ==> t[i] == size[i];
  }

  /** The text of a directive line: white space first at position 4, after the size. */
  lemma DirectiveText(size: string, j: string)
    requires |size| == 4 && forall i :: 0 <= i < 4 ==> !IsWhite(size[i])
    ensures IndexOfWhite(size + " " + j) == 4 && (size + " " + j)[..4] == size
    ensures OperandText(size + " " + j) == j
  {
    var t := size + " " + j;
    assert IsWhite(t[4]);
    assert forall i :: 0 <= i < 4 ==> t[i] == size[i];
  }

  /** Two tabs before a text with no `;` that starts and ends with something other than
      white space: a statement, whose text is that text. */
  lemma DirectiveLine(t: string)
    requires t != [] && !IsWhite(t[0]) && !IsWhite(t[|t| - 1]) && ';' !in t
    ensures ClassifyLine("\t\t" + t) == Statement(t)
  {
    var line := "\t\t" + t;
    NoComment(t);
    TrimTabs(t);
    assert IsWhite(line[0]) && !IsWhite(line[2]);
  }

  /** Two tabs before a text with no `;`: StripComments keeps all of it. */
  lemma NoComment(t: string)
    requires ';' !in t
    ensures StripComments("\t\t" + t) == "\t\t" + t
  {
    var line := "\t\t" + t;
    assert forall i :: 2 <= i < |line| ==> line[i] == t[i - 2];
    assert ';' !in line;
  }

  /** Two tabs before a text that starts and ends with something other than white space:
      trimming leaves the text. */
  lemma TrimTabs(t: string)
    requires t != [] && !IsWhite(t[0]) && !IsWhite(t[|t| - 1])
    ensures Trim("\t\t" + t) == t
  {
    var line := "\t\t" + t;
    assert line[|line| - 1] == t[|t| - 1];
    TrimEndKeeps(line);
    assert line[1..][1..] == t;
    assert TrimStart(line) == t;
  }

  /** What a raw line of the file is to Parse. */
  datatype LineKind =
    | Skip
      /** A label at column 0, and the text after its `:` (a failure when there is no `:`) */
    | Labelled(name: string, rest: Result<string>)
      /** An indented statement: a directive or the `even` sentinel */
    | Statement(text: string)

  lemma BlankTrim(s: string)
    ensures IsBlank(TrimStart(TrimEnd(s))) <==> IsBlank(s)
  {
    var e := TrimEnd(s);
    var t := TrimStart(e);
    if t != [] {
      assert !IsWhite(t[0]);
      assert t[0] == s[|e| - |t|];
    }
  }

  /** The first half of Parse's loop body: a line blank before its comment is skipped; a
      line whose stripped text starts at column 0 declares the label before its first `:`;
      any other line is a statement, trimmed. */
  function ClassifyLine(read: string): (r: LineKind)
    ensures r.Skip? <==> IsBlank(StripComments(read))
    ensures r.Labelled? <==> !IsBlank(StripComments(read)) && read != [] && !IsWhite(read[0])
    ensures r.Labelled? ==>
      var stripped := TrimEnd(StripComments(read));
      r.name == Before(stripped, ':') && r.rest == After(stripped, ':')
    ensures r.Statement? ==> r.text == Trim(StripComments(read)) && !IsBlank(r.text)
  {
    if IsBlank(read) then Skip
    else
      var stripped := TrimEnd(StripComments(read));
      var line := TrimStart(stripped);
      BlankTrim(StripComments(read));
      if IsBlank(line) then Skip
      else if |line| == |stripped| then Labelled(Before(line, ':'), After(line, ':'))
      else Statement(line)
  }
}
