/** Fields of module metadata: the field scanner undoes the field printer. */
module ModuleFields {
  import opened Results
  import opened Text
  import opened ModuleMetadata
  import opened ModuleArrays

  predicate IsName(name: string) {
    name != "" && forall i :: 0 <= i < |name| ==> In(NameChar, name[i])
  }

  // A field as the scanner can return it.
  predicate ScannedField(f: Field) {
    IsName(f.name) && Trimmed(f.value) && Quiet(f.value, START)
  }

  // No bracket and no string of the value is left open at its end.
  predicate Closed(f: Field) {
    Run(START, f.value) == START
  }

  predicate WellFormedFields(fields: seq<Field>) {
    forall i :: 0 <= i < |fields| ==> ScannedField(fields[i]) && Closed(fields[i])
  }

  // ----- Reading one printed line.

  lemma {:induction false} ValueLenConcat(v: string, rest: string, st: Scan)
    requires Quiet(v, st)
    ensures ValueLen(v + rest, st) == |v| + ValueLen(rest, Run(st, v))
    decreases |v|
  {
    if v == "" {
      assert v + rest == rest;
    } else {
      assert (v + rest)[1..] == v[1..] + rest;
      ValueLenConcat(v[1..], rest, Step(st, v[0]));
    }
  }

  // The scanner on `name: value` followed by any text at all.
  lemma LineScan(f: Field, tail: string)
    requires ScannedField(f)
    ensures var len := |f.value| + ValueLen(tail, Run(START, f.value));
            var text := f.value + tail;
            NextField(f.name + ": " + text) == Ok(Cut(Field(f.name, Trim(" " + text[..len])), SkipComma(text[len..])))
  {
    hide Step, Run, Quiet, Trim, Trimmed, ValueLen, Span, SkipComma;
    var text := f.value + tail;
    var s := f.name + ": " + text;
    assert s == f.name + (": " + text);
    assert forall i :: 0 <= i < |f.name| ==> s[i] == f.name[i];
    SpanIs(s, NameChar, |f.name|);
    var colon := ": " + text;
    assert s[|f.name|..] == colon && s[..|f.name|] == f.name;
    SpanIs(colon, Blank, 0);
    assert colon[0..] == colon && colon[1..] == " " + text;
    SpaceScan(text);
    ValueLenConcat(f.value, tail, START);
    var len := ValueLen(text, START);
    assert (" " + text)[..1 + len] == " " + text[..len];
    assert (" " + text)[1 + len..] == text[len..];
  }

  lemma SpaceScan(text: string)
    ensures ValueLen(" " + text, START) == 1 + ValueLen(text, START)
  {
    assert (" " + text)[1..] == text;
  }

  // A closed value ends at the comma the printer puts after it.
  lemma ClosedLine(f: Field, rest: string)
    requires ScannedField(f) && Closed(f)
    ensures NextField(f.name + ": " + f.value + ("," + rest)) == Ok(Cut(f, rest))
  {
    hide Step, Run, Quiet, Trim, Trimmed, NextField;
    LineScan(f, "," + rest);
    assert f.name + ": " + f.value + ("," + rest) == f.name + ": " + (f.value + ("," + rest));
    assert ("," + rest)[1..] == rest;
    var text := f.value + ("," + rest);
    assert text[..|f.value|] == f.value && text[|f.value|..] == "," + rest;
    assert " " + f.value == " " + f.value + "";
    TrimPadded(" ", f.value, "");
  }

  const FIELD_INDENT := "\n    "

  lemma LineShape(f: Field, rest: string)
    requires Trimmed(f.value)
    ensures "\n" + (FieldLine(f) + rest) == FIELD_INDENT + (f.name + ": " + f.value + ("," + ("\n" + rest)))
  {
    hide Trim, Trimmed;
    assert f.value == "" + f.value + "";
    TrimPadded("", f.value, "");
    FiveParts(f.name, f.value, rest);
  }

  lemma FiveParts(name: string, value: string, rest: string)
    ensures "\n" + ("    " + name + ": " + value + ",\n" + rest)
         == FIELD_INDENT + (name + ": " + value + ("," + ("\n" + rest)))
  {
  }

  lemma IndentScan(front: string)
    requires front == "" || !In(Separator, front[0])
    ensures Span(FIELD_INDENT + front, Separator) == |FIELD_INDENT|
    ensures (FIELD_INDENT + front)[|FIELD_INDENT|..] == front
  {
    SpanIs(FIELD_INDENT + front, Separator, |FIELD_INDENT|);
  }

  lemma LineStep(f: Field, rest: string)
    requires ScannedField(f) && Closed(f)
    ensures Fields("\n" + (FieldLine(f) + rest)) == Joined([f], Fields("\n" + rest))
  {
    hide Step, Run, Quiet, Trim, Trimmed, NextField, FieldLine, Span;
    LineShape(f, rest);
    var front := f.name + ": " + f.value + ("," + ("\n" + rest));
    assert front[0] == f.name[0];
    IndentScan(front);
    ClosedLine(f, "\n" + rest);
  }

  // Printed well-formed fields are read back one by one, whatever follows them.
  lemma {:induction false} FieldsOfLines(fields: seq<Field>, tail: string)
    requires WellFormedFields(fields)
    ensures Fields("\n" + (FieldLines(fields) + tail)) == Joined(fields, Fields("\n" + tail))
  {
    hide Fields, FieldLine, ScannedField, Closed, Joined;
    if fields == [] {
      assert FieldLines(fields) + tail == tail;
      JoinedAgain([], [], Fields("\n" + tail));
    } else {
      var rest := FieldLines(fields[1..]) + tail;
      assert FieldLines(fields) + tail == FieldLine(fields[0]) + rest;
      LineStep(fields[0], rest);
      FieldsOfLines(fields[1..], tail);
      JoinedAgain([fields[0]], fields[1..], Fields("\n" + tail));
      assert [fields[0]] + fields[1..] == fields;
    }
  }

  // Parsing printed fields gives back the fields.
  lemma FieldsRoundTrip(fields: seq<Field>)
    requires WellFormedFields(fields)
    ensures Fields(RenderedFields(fields)) == Ok(fields)
  {
    if fields != [] {
      FieldsOfLines(fields, "");
      assert FieldLines(fields) + "" == FieldLines(fields);
      assert "\n" + "" == "\n";
      assert Fields("\n") == Ok([]) by {
        SpanIs("\n", Separator, 1);
      }
      JoinedAgain(fields, [], Ok([]));
    }
  }

  // ----- What the scanner returns is well formed, except that its last value may be open.

  lemma ScannedName(s: string)
    requires Span(s, NameChar) > 0
    ensures IsName(s[..Span(s, NameChar)])
  {
    SpanOf(s, NameChar);
  }

  lemma {:induction false} ScannedValue(s: string, st: Scan)
    requires !st.inString ==> !st.prevEscape
    ensures var len := ValueLen(s, st);
            && Quiet(s[..len], st)
            && (len < |s| ==> s[len] == ',' && Run(st, s[..len]) == START)
    decreases |s|
  {
    var len := ValueLen(s, st);
    if len > 0 {
      ScannedValue(s[1..], Step(st, s[0]));
      assert s[..len][1..] == s[1..][..len - 1];
      assert len < |s| ==> s[1..][len - 1] == s[len];
    }
  }

  lemma NextFieldScanned(s: string)
    requires NextField(s).Ok?
    ensures var cut := NextField(s).value; ScannedField(cut.field) && (cut.rest != "" ==> Closed(cut.field))
  {
    hide Step, Run, Quiet, Trim, Trimmed, Span, ValueLen, IsName;
    ScannedName(s);
    var afterName := s[Span(s, NameChar)..];
    var text := afterName[Span(afterName, Blank)..][1..];
    var len := ValueLen(text, START);
    ScannedValue(text, START);
    TrimmedScans(text[..len]);
    assert text[len..] != "" ==> len < |text|;
  }

  predicate ScannedFields(fields: seq<Field>) {
    && (forall i :: 0 <= i < |fields| ==> ScannedField(fields[i]))
    && (forall i :: 0 <= i < |fields| - 1 ==> Closed(fields[i]))
  }

  lemma {:induction false} FieldsScanned(s: string)
    requires Fields(s).Ok?
    ensures ScannedFields(Fields(s).value)
    decreases |s|
  {
    hide NextField, ScannedField, Closed, Span;
    var front := s[Span(s, Separator)..];
    if front != "" {
      NextFieldScanned(front);
      var cut := NextField(front).value;
      FieldsScanned(cut.rest);
      if cut.rest == "" {
        assert Fields("") == Ok([]);
      }
    }
  }

  // Only the last value of a parsed body can be open, and the round trip works exactly when it is not.
  predicate LastClosed(fields: seq<Field>) {
    fields != [] ==> Closed(fields[|fields| - 1])
  }

  lemma ParsedWellFormed(s: string)
    requires Fields(s).Ok?
    ensures WellFormedFields(Fields(s).value) <==> LastClosed(Fields(s).value)
  {
    FieldsScanned(s);
  }

  lemma OpenTail(st: Scan)
    requires st != START && (!st.inString ==> !st.prevEscape)
    ensures ValueLen(",\n", st) == 2
  {
    assert ",\n"[1..] == "\n" && "\n"[1..] == "";
  }

  // An open last value swallows the comma printed after it.
  lemma OpenLine(f: Field)
    requires ScannedField(f) && !Closed(f)
    ensures NextField(f.name + ": " + (f.value + ",\n")) == Ok(Cut(Field(f.name, f.value + ","), ""))
  {
    hide Quiet, Trim, NextField, ValueLen;
    assert f.value != "";
    NoEscapeOutside(f.value, START);
    OpenTail(Run(START, f.value));
    LineScan(f, ",\n");
    var text := f.value + ",\n";
    assert text[..|text|] == text && text[|text|..] == "";
    assert " " + text == " " + (f.value + ",") + "\n";
    TrimPadded(" ", f.value + ",", "\n");
  }

  lemma OpenShape(name: string, value: string)
    ensures "\n" + ("    " + name + ": " + value + ",\n" + "") == FIELD_INDENT + (name + ": " + (value + ",\n"))
  {
  }

  lemma OpenText(f: Field)
    requires Trimmed(f.value)
    ensures "\n" + (FieldLine(f) + "") == FIELD_INDENT + (f.name + ": " + (f.value + ",\n"))
  {
    hide Trim, Trimmed;
    assert f.value == "" + f.value + "";
    TrimPadded("", f.value, "");
    OpenShape(f.name, f.value);
  }

  lemma OpenFieldChanges(f: Field)
    requires ScannedField(f) && !Closed(f)
    ensures Fields("\n" + (FieldLine(f) + "")) == Ok([Field(f.name, f.value + ",")])
  {
    hide Step, Run, Quiet, Trim, NextField, Span, Closed, FieldLine;
    var front := f.name + ": " + (f.value + ",\n");
    OpenText(f);
    assert front[0] == f.name[0];
    IndentScan(front);
    OpenLine(f);
    assert Fields("") == Ok([]) by { SpanIs("", Separator, 0); }
    var last := Field(f.name, f.value + ",");
    assert [last] + [] == [last];
    assert Fields(FIELD_INDENT + front) == Ok([last]);
  }

  // Printed fields are read back as the same fields exactly when all of them are well formed.
  lemma FieldsRoundTripExactly(fields: seq<Field>)
    ensures Fields(RenderedFields(fields)) == Ok(fields) <==> WellFormedFields(fields)
  {
    hide Fields, FieldLine, FieldLines, ScannedField, Closed;
    if WellFormedFields(fields) {
      FieldsRoundTrip(fields);
    } else if ScannedFields(fields) {
      var n := |fields| - 1;
      var last := fields[n];
      FieldsOfLines(fields[..n], FieldLine(last) + "");
      OpenFieldChanges(last);
      LinesSplit(fields);
      assert |(fields[..n] + [Field(last.name, last.value + ",")])[n].value| > |fields[n].value|;
    } else if Fields(RenderedFields(fields)).Ok? {
      FieldsScanned(RenderedFields(fields));
    }
  }

  // For fields that were themselves read from a body, only the end of the last value matters.
  lemma RoundTripExactly(s: string)
    requires Fields(s).Ok?
    ensures var fields := Fields(s).value; Fields(RenderedFields(fields)) == Ok(fields) <==> LastClosed(fields)
  {
    hide Fields, RenderedFields, WellFormedFields;
    FieldsRoundTripExactly(Fields(s).value);
    ParsedWellFormed(s);
  }

  // The body `x: (` is read as one field, printed, and then read as another one: `x` with `(,`.
  lemma OpenBracketChanges()
    ensures var f := Field("x", "("); Fields(RenderedFields([f])) == Ok([f.(value := "(,")])
  {
    hide Fields, FieldLine, NextField;
    var f := Field("x", "(");
    assert "("[1..] == "";
    OpenFieldChanges(f);
    assert [f][1..] == [];
    assert FieldLines([f]) == FieldLine(f) + "";
    assert "(" + "," == "(,";
  }

  lemma {:induction false} LinesSplit(fields: seq<Field>)
    requires fields != []
    ensures FieldLines(fields) == FieldLines(fields[..|fields| - 1]) + (FieldLine(fields[|fields| - 1]) + "")
  {
    hide FieldLine;
    var n := |fields| - 1;
    if n == 0 {
      assert fields[1..] == [];
      assert FieldLines(fields[..0]) == "";
    } else {
      LinesSplit(fields[1..]);
      assert fields[1..][..n - 1] == fields[..n][1..];
    }
  }
}
