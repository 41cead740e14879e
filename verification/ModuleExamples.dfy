/** Two modules: one the laws of ModuleUpsert apply to, and one that shows why they ask what they ask. */
module ModuleExamples {
  import opened Results
  import opened Text
  import opened ModuleMetadata
  import opened ModuleArrays
  import opened ModuleFields
  import opened ModuleUpsert
  import opened ModuleTwice

  // ----- The premises at work: an item in a module with an empty body, whatever follows it.

  const EMPTY_MODULE := "#[module({"

  lemma EmptyModuleBody(rest: string)
    ensures ModuleBody(EMPTY_MODULE + ("})]" + rest)) == Ok((10, 10))
  {
    hide FindFrom;
    var source := EMPTY_MODULE + ("})]" + rest);
    assert OccursAt(source, ATTRIBUTE, 0);
    FindIs(source, ATTRIBUTE, 0);
    assert source[0..] == source;
    SpanIs(source, BeforeBrace, 9);
    assert source[10..] == "})]" + rest;
  }

  lemma EmptyModule(rest: string, name: string, item: string)
    ensures var source := EMPTY_MODULE + ("})]" + rest);
            && SafeModule(source, name)
            && Upserted(source, name, item) ==
               Ok(EMPTY_MODULE + RenderedFields([Field(name, RenderedArray([item]))]) + ("})]" + rest))
  {
    hide ModuleBody, RenderedFields, RenderedArray;
    var source := EMPTY_MODULE + ("})]" + rest);
    EmptyModuleBody(rest);
    assert source[10..10] == "" && source[..10] == EMPTY_MODULE && source[10..] == "})]" + rest;
    assert Fields("") == Ok([]) by {
      SpanIs("", Separator, 0);
    }
  }

  // The text it becomes, character by character.
  lemma EmptyModuleText(rest: string, name: string, item: string)
    ensures Upserted("#[module({" + ("})]" + rest), name, item) ==
            Ok("#[module({" + ("\n    " + name + ": [\n        " + item + ",\n    ],\n") + ("})]" + rest))
  {
    hide Upserted, RenderedFields, RenderedArray, SafeModule;
    EmptyModule(rest, name, item);
    OneFieldText(name, item);
  }

  lemma OneFieldText(name: string, item: string)
    ensures RenderedFields([Field(name, RenderedArray([item]))])
         == "\n    " + name + ": [\n        " + item + ",\n    ],\n"
  {
    hide RenderedArray, FieldLine, Trimmed;
    var f := Field(name, RenderedArray([item]));
    ArrayIsTrimmed([item]);
    LineLength(f);
    ArrayOfOne(item);
    OneFieldLine(f);
    FieldTexts(name, item);
  }

  lemma FieldTexts(name: string, item: string)
    ensures "\n" + ("    " + name + ": " + ("[\n" + ("        " + item + ",\n") + "    ]") + ",\n")
         == "\n    " + name + ": [\n        " + item + ",\n    ],\n"
  {
  }

  // The text of an array of two items, and of two fields.
  lemma TwoItemsText(a: string, b: string)
    ensures RenderedArray([a, b]) == "[\n" + ("        " + a + ",\n" + ("        " + b + ",\n")) + "    ]"
  {
    hide ItemLines;
    LinesConcat([a], [b]);
    assert [a] + [b] == [a, b];
    OneLine(a);
    OneLine(b);
  }

  lemma TwoFieldsText(f: Field, g: Field)
    requires Trimmed(f.value) && Trimmed(g.value)
    ensures RenderedFields([f, g])
         == "\n" + ("    " + f.name + ": " + f.value + ",\n") + ("    " + g.name + ": " + g.value + ",\n")
  {
    hide FieldLine, Trimmed;
    OpenLines(f, g);
    LineLength(f);
    LineLength(g);
  }

  // ----- Without the premises: an open bracket swallows what is printed after it.

  // Inside a parenthesis that never closes, the value scan runs to the end.
  lemma {:induction false} NeverStops(s: string, st: Scan)
    requires ')' !in s && st.depths.paren > 0
    ensures ValueLen(s, st) == |s|
    decreases |s|
  {
    if s != "" {
      NeverStops(s[1..], Step(st, s[0]));
    }
  }

  // The field `x: (` takes all text after it into its value.
  lemma OpenTakesAll(tail: string)
    requires ')' !in tail && Trimmed("(" + tail)
    ensures Fields("x: " + ("(" + tail + "\n")) == Ok([Field("x", "(" + tail)])
    ensures Fields("x: " + ("(" + tail)) == Ok([Field("x", "(" + tail)])
  {
    hide Step, ValueLen, Trim, Trimmed, NextField;
    OpenTakesText(tail, "");
    OpenTakesText(tail, "\n");
    assert "(" + tail + "" == "(" + tail;
  }

  lemma OpenTakesText(tail: string, pad: string)
    requires ')' !in tail && Trimmed("(" + tail) && (pad == "" || pad == "\n")
    ensures Fields("x: " + ("(" + tail + pad)) == Ok([Field("x", "(" + tail)])
  {
    hide Step, ValueLen, Trim, Trimmed, NextField;
    var f := Field("x", "(");
    OpenParen();
    LineScan(f, tail + pad);
    NeverStops(tail + pad, Run(START, "("));
    var text := "(" + (tail + pad);
    assert text == "(" + tail + pad && "x" + ": " + text == "x: " + text;
    assert text[..|text|] == text && text[|text|..] == "";
    assert " " + text == " " + ("(" + tail) + pad;
    TrimPadded(" ", "(" + tail, pad);
    assert NextField("x: " + text) == Ok(Cut(Field("x", "(" + tail), ""));
    LastField("x: " + text);
  }

  lemma LastField(s: string)
    requires s != "" && !In(Separator, s[0]) && NextField(s).Ok? && NextField(s).value.rest == ""
    ensures Fields(s) == Ok([NextField(s).value.field])
  {
    hide NextField;
    SpanIs(s, Separator, 0);
    assert s[0..] == s;
    assert Fields("") == Ok([]) by {
      SpanIs("", Separator, 0);
    }
    assert [NextField(s).value.field] + [] == [NextField(s).value.field];
  }

  lemma OpenParen()
    ensures ScannedField(Field("x", "(")) && Run(START, "(").depths.paren > 0
  {
    assert "("[1..] == "";
  }

  // A module whose one field is `x: (`, before and after it gained `y: [A]` once.
  const OPEN := Field("x", "(")
  const GAINED := Field("y", RenderedArray(["A"]))
  const OPEN_TAIL := ",\n    y: " + RenderedArray(["A"]) + ","

  // A body without braces is found in full.
  lemma ModuleAround(text: string)
    requires forall i :: 0 <= i < |text| ==> !IsBrace(text[i])
    ensures ModuleBody(EMPTY_MODULE + (text + "})]")) == Ok((10, 10 + |text|))
    ensures (EMPTY_MODULE + (text + "})]"))[10..10 + |text|] == text
  {
    hide FindFrom, CloseOffset, BracesLeft;
    var source := EMPTY_MODULE + (text + "})]");
    assert OccursAt(source, ATTRIBUTE, 0);
    FindIs(source, ATTRIBUTE, 0);
    assert source[0..] == source;
    SpanIs(source, BeforeBrace, 9);
    assert source[10..] == text + "})]";
    NoBraces(text);
    OnlyBracesCount(text, 1);
    NothingLeft();
    CloseOffsetComplete(text, "})]", 1);
  }

  lemma NothingLeft()
    ensures BracesLeft("", 1) == Some(1)
  {
  }

  lemma OpenModuleBody()
    ensures ModuleBody(EMPTY_MODULE + ("x: (" + "})]")) == Ok((10, 14))
  {
    hide ModuleBody;
    ModuleAround("x: (");
  }

  lemma OpenTailShape()
    ensures ')' !in OPEN_TAIL && Trimmed("(" + OPEN_TAIL) && '\n' in "(" + OPEN_TAIL
  {
    assert ["A"][1..] == [];
    assert ItemLines(["A"]) == "        A,\n" + "";
    assert ("(" + OPEN_TAIL)[2] == '\n';
  }

  lemma OpenRendered()
    ensures RenderedFields([OPEN, GAINED]) == FIELD_INDENT + ("x: " + ("(" + OPEN_TAIL + "\n"))
  {
    hide RenderedArray, Trim, FieldLine;
    var value := RenderedArray(["A"]);
    OpenLines(OPEN, GAINED);
    RenderedShape(["A"]);
    LinesOfBoth(value);
    TwoLines("x", "(", "y", value);
    assert "\n" + "    " == FIELD_INDENT && ",\n" + "    " + "y" + ": " == ",\n    y: " && "x" + ": " == "x: ";
  }

  lemma LinesOfBoth(value: string)
    requires '\n' in value
    ensures FieldLine(OPEN) == "    " + "x" + ": " + "(" + ",\n"
    ensures FieldLine(Field("y", value)) == "    " + "y" + ": " + value + ",\n"
  {
    hide Trim;
    assert "(" == "" + "(" + "";
    TrimPadded("", "(", "");
  }

  lemma TwoLines(x: string, v: string, y: string, a: string)
    ensures "\n" + ("    " + x + ": " + v + ",\n") + ("    " + y + ": " + a + ",\n")
         == "\n" + "    " + (x + ": " + (v + (",\n" + "    " + y + ": " + a + ",") + "\n"))
  {
    assert ",\n" == "," + "\n";
  }

  lemma RenderedShape(items: seq<string>)
    ensures '\n' in RenderedArray(items)
  {
    assert RenderedArray(items)[1] == '\n';
  }

  lemma OpenLines(f: Field, g: Field)
    ensures RenderedFields([f, g]) == "\n" + FieldLine(f) + FieldLine(g)
  {
    hide FieldLine;
    assert [f, g][1..] == [g] && [g][1..] == [];
    assert FieldLines([g]) == FieldLine(g) + "";
  }

  // The module's second upsert of `A` into `y` adds another field `y`: the text grows.
  lemma OpenModuleGrows()
    ensures var source := EMPTY_MODULE + ("x: (" + "})]");
            var once := Upserted(source, "y", "A");
            && !SafeModule(source, "y")
            && once.Ok? && Upserted(once.value, "y", "A").Ok?
            && |Upserted(once.value, "y", "A").value| > |once.value|
  {
    hide ModuleBody, RenderedFields, RenderedArray, Fields, BraceNeutral, Run, Quiet, FieldLine;
    var source := EMPTY_MODULE + ("x: (" + "})]");
    OpenModuleBody();
    assert source[10..14] == "x: (";
    TypeNameIsItem("A");
    OpenReads();
    UpsertFrame(source, "y", "A");
    var once := Upserted(source, "y", "A").value;
    var swallowed := Field("x", "(" + OPEN_TAIL);
    OpenLines(OPEN, GAINED);
    OpenLines(swallowed, GAINED);
    OpenLonger();
  }

  lemma OpenReads()
    ensures Fields("x: (") == Ok([OPEN]) && !Closed(OPEN)
    ensures WithFieldItem([OPEN], "y", "A") == Ok([OPEN, GAINED])
    ensures Fields(RenderedFields([OPEN, GAINED])) == Ok([Field("x", "(" + OPEN_TAIL)])
    ensures WithFieldItem([Field("x", "(" + OPEN_TAIL)], "y", "A") == Ok([Field("x", "(" + OPEN_TAIL), GAINED])
  {
    hide RenderedFields, RenderedArray, Fields, Trimmed;
    OpenTakesEmpty();
    OpenParen();
    OpenTailShape();
    OpenRendered();
    OpenTakesAll(OPEN_TAIL);
    Indented("x: " + ("(" + OPEN_TAIL + "\n"));
    AddedAtEnd(OPEN);
    AddedAtEnd(Field("x", "(" + OPEN_TAIL));
  }

  lemma OpenTakesEmpty()
    ensures Fields("x: (") == Ok([OPEN])
  {
    hide Fields;
    OpenTakesAll("");
    assert "(" + "" == "(" && "x: " + "(" == "x: (";
  }

  lemma Indented(front: string)
    requires front != "" && !In(Separator, front[0])
    ensures Fields(FIELD_INDENT + front) == Fields(front)
  {
    hide NextField;
    IndentScan(front);
    SpanIs(front, Separator, 0);
    assert front[0..] == front;
  }

  lemma AddedAtEnd(f: Field)
    requires f.name != "y"
    ensures WithFieldItem([f], "y", "A") == Ok([f, GAINED])
  {
    hide RenderedArray, ArrayItems;
    assert [f][1..] == [];
    assert [f] + [GAINED] == [f, GAINED];
  }

  lemma OpenLonger()
    ensures |FieldLine(Field("x", "(" + OPEN_TAIL))| > |FieldLine(OPEN)|
  {
    hide Trim, RenderedArray;
    OpenTailShape();
    assert "(" == "" + "(" + "";
    TrimPadded("", "(", "");
  }

  // ----- Nothing is open, and still: a parenthesis in a string hides the comma after it.

  const QUOTED := "\"(\", \"x\""
  const QUOTED_FIELD := Field("a", "[" + QUOTED + "]")

  lemma QuotedScans()
    ensures Quiet(QUOTED, IN_ARRAY) && Run(IN_ARRAY, QUOTED) == IN_ARRAY
    ensures BumpAll(FLAT, QUOTED) == Depths(0, 0, 1) && Commaless(QUOTED, FLAT) && Trimmed(QUOTED)
  {
    hide Step, Run, Quiet, Bump, BumpAll, Commaless;
    var a, b, c := "\"(\"", ", ", "\"x\"";
    assert QUOTED == a + b + c;
    QuotedRuns();
    QuotedBumps();
    RunConcat(a, b, IN_ARRAY);
    RunConcat(a + b, c, IN_ARRAY);
    BumpConcat(a, b, FLAT);
    BumpConcat(a + b, c, FLAT);
    CommalessConcat(a, b, FLAT);
    CommalessConcat(a + b, c, FLAT);
  }

  lemma QuotedRuns()
    ensures Quiet("\"(\"", IN_ARRAY) && Run(IN_ARRAY, "\"(\"") == IN_ARRAY
    ensures Quiet(", ", IN_ARRAY) && Run(IN_ARRAY, ", ") == IN_ARRAY
    ensures Quiet("\"x\"", IN_ARRAY) && Run(IN_ARRAY, "\"x\"") == IN_ARRAY
  {
    assert "\"(\""[1..] == "(\"" && "(\""[1..] == "\"" && "\""[1..] == "";
    assert ", "[1..] == " " && " "[1..] == "";
    assert "\"x\""[1..] == "x\"" && "x\""[1..] == "\"";
  }

  lemma QuotedBumps()
    ensures BumpAll(FLAT, "\"(\"") == Depths(0, 0, 1) && Commaless("\"(\"", FLAT)
    ensures BumpAll(Depths(0, 0, 1), ", ") == Depths(0, 0, 1) && Commaless(", ", Depths(0, 0, 1))
    ensures BumpAll(Depths(0, 0, 1), "\"x\"") == Depths(0, 0, 1) && Commaless("\"x\"", Depths(0, 0, 1))
  {
    assert "\"(\""[1..] == "(\"" && "(\""[1..] == "\"" && "\""[1..] == "";
    assert ", "[1..] == " " && " "[1..] == "";
    assert "\"x\""[1..] == "x\"" && "x\""[1..] == "\"";
  }

  // The array of the two strings is scanned as one item, and is printed and read as well-formed fields.
  lemma QuotedShape()
    ensures ScannedField(QUOTED_FIELD) && Closed(QUOTED_FIELD) && ClosesAtEnd(QUOTED_FIELD.value)
    ensures ArrayItems(QUOTED_FIELD.value) == Ok([QUOTED]) && !ListedItem(QUOTED)
  {
    hide Run, Quiet, BumpAll, Commaless, Items, Trim;
    QuotedScans();
    ArrayRun(QUOTED);
    Unbracketed(QUOTED);
    assert QUOTED + "" == QUOTED && "" + QUOTED == QUOTED && "" + QUOTED + "" == QUOTED;
    ItemsConcat(QUOTED, "", FLAT, "");
    LastItem(Depths(0, 0, 1), QUOTED);
    TrimPadded("", QUOTED, "");
    CloseBracket(IN_ARRAY);
  }

  lemma QuotedUpdated()
    ensures WithFieldItem([QUOTED_FIELD], "a", "A").Ok? && !Stable([QUOTED_FIELD], "a")
    ensures var us := WithFieldItem([QUOTED_FIELD], "a", "A").value; WellFormedFields(us) && LastClosed(us)
  {
    hide ArrayItems, RenderedArray, Closed, ScannedField, ListedItem, ClosesAtEnd;
    QuotedShape();
    UpdateShape([QUOTED_FIELD], "a", "A");
    assert FirstNamed([QUOTED_FIELD], "a") == 0;
    TypeNameIsItem("A");
    UpdatedExactly([QUOTED_FIELD], "a", "A");
    assert [QUOTED][0] == QUOTED;
  }

  // The module `a: ["(", "x"]`. Nothing in it is open, before or after the upsert of `A`, and its updated
  // fields are read back as they were printed; but the array is not the old one with `A`, and a second
  // upsert changes the text again.
  lemma ParenthesisInString()
    ensures var source := EMPTY_MODULE + (("a: " + QUOTED_FIELD.value) + "})]");
            && Upserted(source, "a", "A").Ok?
            && var out := Upserted(source, "a", "A").value;
            && ModuleBody(out).Ok?
            && var (start, end) := ModuleBody(out).value;
               var read := Fields(out[start..end]);
            && read.Ok? && WellFormedFields(read.value) && LastClosed(read.value)
            && !GainsItem([QUOTED_FIELD], read.value, "a", "A")
            && Upserted(out, "a", "A") != Ok(out)
  {
    hide ModuleBody, Fields, WithFieldItem, RenderedFields, Stable, WellFormedFields, GainsItem, BraceNeutral;
    var text := "a: " + QUOTED_FIELD.value;
    var source := EMPTY_MODULE + (text + "})]");
    assert forall i :: 0 <= i < |text| ==> !IsBrace(text[i]);
    ModuleAround(text);
    QuotedReads();
    QuotedUpdated();
    TypeNameIsItem("A");
    UpsertReadsExactly(source, "a", "A");
    UpsertAddsExactly(source, "a", "A");
    UpsertTwiceExactly(source, "a", "A");
  }

  lemma QuotedReads()
    ensures Fields("a: " + QUOTED_FIELD.value) == Ok([QUOTED_FIELD])
  {
    hide NextField, Run, Quiet, Trim, Trimmed, ValueLen, ClosesAtEnd, ArrayItems;
    QuotedShape();
    var f := QUOTED_FIELD;
    LineScan(f, "");
    EmptyValue(START);
    assert f.value + "" == f.value && "a" + ": " + f.value == "a: " + f.value;
    assert f.value[..|f.value|] == f.value && f.value[|f.value|..] == "";
    assert " " + f.value == " " + f.value + "";
    TrimPadded(" ", f.value, "");
    LastField("a: " + f.value);
  }

  // ----- The array of the one item `(`: printed and read, it is the array of `(,`.

  lemma OpenItemChanges()
    ensures ArrayItems(RenderedArray(["("])) == Ok(["(,"]) && !ListedItem("(")
  {
    hide Items, Trim, ItemLines, IsArray;
    assert "("[1..] == "";
    ArrayShape(ItemLines(["("]));
    Unbracketed("\n" + ItemLines(["("]) + CLOSE_INDENT);
    OpenItemOfLines(["("]);
    assert "(" + "," == "(,";
    assert ["("][..0] == [] && [] + ["(,"] == ["(,"];
  }
}
