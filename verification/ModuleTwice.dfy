/** Upserting the same item twice: exactly when the second time changes nothing. */
module ModuleTwice {
  import opened Results
  import opened Text
  import opened ModuleMetadata
  import opened ModuleArrays
  import opened ModuleFields
  import opened ModuleUpsert

  // ----- Type names.

  // A type name is an item that all laws of upserting apply to.
  lemma {:induction false} TypeNameScans(item: string, d: Depths)
    requires IsName(item) || item == ""
    ensures Commaless(item, d) && BumpAll(d, item) == d && Matched(item, d)
    decreases |item|
  {
    if item != "" {
      assert In(NameChar, item[0]);
      TypeNameScans(item[1..], d);
    }
  }

  lemma TypeNameIsItem(item: string)
    requires IsName(item)
    ensures WellFormedItem(item) && BraceNeutral(item)
  {
    hide Run, Quiet, BumpAll, Commaless, Matched, BracesLeft;
    TypeNameScans(item, FLAT);
    assert In(NameChar, item[0]) && In(NameChar, item[|item| - 1]);
    assert Quoteless(item) by {
      assert forall i :: 0 <= i < |item| ==> In(NameChar, item[i]);
    }
    MatchedInArray(item, FLAT);
    ItemIsNeutral(item);
  }

  // ----- Printing the items of an array again moves the field scanner as the array itself did.

  // Two scanner states that differ at most in a remembered backslash.
  predicate Alike(a: Scan, b: Scan) {
    a.depths == b.depths && a.inString == b.inString
  }

  predicate Settled(st: Scan) {
    !st.inString ==> !st.prevEscape
  }

  function Rested(st: Scan): Scan {
    Scan(st.depths, st.inString, false)
  }

  lemma {:induction false} BlankRun(s: string, st: Scan)
    requires AllWhitespace(s) && !st.prevEscape
    ensures Run(st, s) == st && Quiet(s, st)
    decreases |s|
  {
    if s != "" {
      BlankRun(s[1..], st);
    }
  }

  lemma CommaRun(pad: string, st: Scan)
    requires AllWhitespace(pad) && Settled(st)
    ensures Run(st, pad + ",") == Rested(st) && Run(st, ",\n") == Rested(st)
    ensures Quiet(pad + ",", st) <==> !Stops(st, ',')
    ensures Quiet(",\n", st) <==> !Stops(st, ',')
  {
    hide Step;
    RunWhitespace(pad, st);
    RunConcat(pad, ",", st);
    OneComma(Run(st, pad));
    OneComma(st);
    RunConcat(",", "\n", st);
    BlankRun("\n", Rested(st));
    assert "," + "\n" == ",\n";
  }

  lemma OneComma(st: Scan)
    requires Settled(st)
    ensures Run(st, ",") == Rested(st) && (Quiet(",", st) <==> !Stops(st, ','))
  {
    assert ","[1..] == "";
  }

  lemma LinesOfKept(current: string)
    ensures ItemLines(Keep(current)) == if Trim(current) == "" then "" else "        " + Trim(current) + ",\n"
  {
    hide Trim;
    if Trim(current) != "" {
      assert [Trim(current)][1..] == [];
      assert "        " + Trim(current) + ",\n" + "" == "        " + Trim(current) + ",\n";
    }
  }

  // The text of one item and its comma, against its printed line.
  lemma LineRun(current: string, st: Scan)
    requires !st.prevEscape
    ensures var line := ItemLines(Keep(current));
            && Run(st, current + ",") == Run(st, line) && !Run(st, line).prevEscape
            && (Quiet(current + ",", st) ==> Quiet(line, st))
  {
    hide Step, Run, Quiet, Trim, Stops;
    var left, right := TrimSplits(current);
    var t := Trim(current);
    LinesOfKept(current);
    BlankRun(left, st);
    RunConcat(left, t, st);
    var inner := Run(st, t);
    NoEscapeOutside(t, st);
    CommaRun(right, inner);
    RunConcat(left + t, right + ",", st);
    assert left + t + (right + ",") == current + ",";
    if t == "" {
      assert left + t == left;
      NothingRun(st);
    } else {
      BlankRun("        ", st);
      RunConcat("        ", t, st);
      RunConcat("        " + t, ",\n", st);
    }
  }

  lemma NothingRun(st: Scan)
    ensures Run(st, "") == st && Quiet("", st)
  {
  }

  lemma {:induction false} LinesConcat(a: seq<string>, b: seq<string>)
    ensures ItemLines(a + b) == ItemLines(a) + ItemLines(b)
  {
    if a == [] {
      assert a + b == b;
    } else {
      var line := "        " + a[0] + ",\n";
      assert (a + b)[1..] == a[1..] + b;
      LinesConcat(a[1..], b);
      assert line + (ItemLines(a[1..]) + ItemLines(b)) == line + ItemLines(a[1..]) + ItemLines(b);
    }
  }

  lemma {:induction false} ItemsRun(inner: string, d: Depths, current: string, st: Scan)
    requires !st.prevEscape
    ensures var lines := ItemLines(Items(inner, d, current));
            && Run(st, current + inner + ",") == Run(st, lines) && !Run(st, lines).prevEscape
            && (Quiet(current + inner + ",", st) ==> Quiet(lines, st))
    decreases |inner|
  {
    hide Step, Run, Quiet, Bump, Keep, ItemLines;
    if inner == "" {
      assert current + inner + "," == current + ",";
      LineRun(current, st);
    } else if inner[0] == ',' && d == FLAT {
      var next := Run(st, current + ",");
      LineRun(current, st);
      ItemsRun(inner[1..], d, "", next);
      assert current + inner + "," == (current + ",") + ("" + inner[1..] + ",");
      RunConcat(current + ",", "" + inner[1..] + ",", st);
      var kept, rest := Keep(current), Items(inner[1..], d, "");
      LinesConcat(kept, rest);
      RunConcat(ItemLines(kept), ItemLines(rest), st);
    } else {
      assert current + inner + "," == current + [inner[0]] + inner[1..] + ",";
      ItemsRun(inner[1..], Bump(d, inner[0]), current + [inner[0]], st);
    }
  }

  // The printed lines up to the last item, without its comma.
  function OpenLines(items: seq<string>): string
    requires items != []
  {
    var n := |items| - 1;
    ItemLines(items[..n]) + ("        " + items[n])
  }

  lemma OpenLinesFront(front: seq<string>, items: seq<string>)
    requires items != []
    ensures OpenLines(front + items) == ItemLines(front) + OpenLines(items)
  {
    hide ItemLines;
    var n := |front + items| - 1;
    assert (front + items)[..n] == front + items[..|items| - 1];
    LinesConcat(front, items[..|items| - 1]);
  }

  lemma LinesClosed(items: seq<string>)
    requires items != []
    ensures ItemLines(items) == OpenLines(items) + ",\n"
  {
    hide ItemLines;
    var n := |items| - 1;
    LinesConcat(items[..n], [items[n]]);
    assert items == items[..n] + [items[n]];
    OneLine(items[n]);
  }

  lemma OneLine(item: string)
    ensures ItemLines([item]) == "        " + item + ",\n" && ItemLines([]) == ""
  {
    assert [item][1..] == [];
    assert "        " + item + ",\n" + "" == "        " + item + ",\n";
  }

  lemma KeptOpen(current: string, st: Scan)
    requires !st.prevEscape && Keep(current) != []
    ensures var text := OpenLines(Keep(current));
            && Alike(Run(st, text), Run(st, current)) && (Quiet(current, st) ==> Quiet(text, st))
  {
    hide Step, Run, Quiet, Trim, Stops;
    var left, right := TrimSplits(current);
    var t := Trim(current);
    OneLine(t);
    assert [t][..0] == [] && OpenLines([t]) == "" + ("        " + t);
    assert "" + ("        " + t) == "        " + t;
    BlankRun(left, st);
    RunConcat(left, t, st);
    RunWhitespace(right, Run(st, t));
    RunConcat(left + t, right, st);
    BlankRun("        ", st);
    RunConcat("        ", t, st);
  }

  lemma {:induction false} ItemsRunOpen(inner: string, d: Depths, current: string, st: Scan)
    requires !st.prevEscape && Items(inner, d, current) != []
    ensures var text := OpenLines(Items(inner, d, current));
            && Alike(Run(st, text), Run(st, current + inner)) && (Quiet(current + inner, st) ==> Quiet(text, st))
    decreases |inner|
  {
    hide Step, Run, Quiet, Bump, Keep, ItemLines, OpenLines;
    if inner == "" {
      assert current + inner == current;
      KeptOpen(current, st);
    } else if inner[0] == ',' && d == FLAT {
      var next := Run(st, current + ",");
      var kept, rest := Keep(current), Items(inner[1..], d, "");
      LineRun(current, st);
      assert current + inner == (current + ",") + ("" + inner[1..]);
      RunConcat(current + ",", "" + inner[1..], st);
      if rest == [] {
        NoItemsRun(inner[1..], next);
        AfterComma(current, st);
        assert "" + inner[1..] == inner[1..];
        KeptOpen(current, st);
        assert kept + rest == kept;
      } else {
        ItemsRunOpen(inner[1..], d, "", next);
        OpenLinesFront(kept, rest);
        RunConcat(ItemLines(kept), OpenLines(rest), st);
      }
    } else {
      assert current + inner == current + [inner[0]] + inner[1..];
      ItemsRunOpen(inner[1..], Bump(d, inner[0]), current + [inner[0]], st);
    }
  }

  lemma AfterComma(current: string, st: Scan)
    requires !st.prevEscape
    ensures Alike(Run(st, current + ","), Run(st, current)) && (Quiet(current + ",", st) ==> Quiet(current, st))
  {
    hide Step, Run, Quiet, Stops;
    RunConcat(current, ",", st);
    NoEscapeOutside(current, st);
    OneComma(Run(st, current));
  }

  // Text without any item is blank or commas: it moves the scanner nowhere.
  lemma NoItemsRun(inner: string, st: Scan)
    requires !st.prevEscape && Items(inner, FLAT, "") == []
    ensures Alike(Run(st, inner), st)
  {
    hide Step, Run, Quiet, Items;
    ItemsRun(inner, FLAT, "", st);
    OneLine("");
    NothingRun(st);
    assert "" + inner + "," == inner + ",";
    AfterComma(inner, st);
  }

  // ----- The target array, printed again.

  lemma {:induction false} NameRun(name: string, st: Scan)
    requires (IsName(name) || name == "") && !st.prevEscape
    ensures Run(st, name) == st && Quiet(name, st)
    decreases |name|
  {
    if name != "" {
      assert In(NameChar, name[0]);
      NameRun(name[1..], st);
    }
  }

  lemma NameLineRun(item: string, st: Scan)
    requires IsName(item) && !st.prevEscape && !Stops(st, ',')
    ensures Run(st, ItemLines([item])) == st && Quiet(ItemLines([item]), st)
  {
    hide Step, Run, Quiet, Stops;
    OneLine(item);
    BlankRun("        ", st);
    NameRun(item, st);
    RunConcat("        ", item, st);
    CommaRun("", st);
    RunConcat("        " + item, ",\n", st);
  }

  // The scanner inside the array, before its closing bracket.
  function BeforeEnd(value: string): Scan
    requires value != ""
  {
    Run(START, value[..|value| - 1])
  }

  lemma ArrayRun(inner: string)
    ensures BeforeEnd("[" + inner + "]") == Run(IN_ARRAY, inner)
    ensures Run(START, "[" + inner + "]") == Step(Run(IN_ARRAY, inner), ']')
    ensures Quiet("[" + inner + "]", START) <==> Quiet(inner, IN_ARRAY)
  {
    hide Step, Bump;
    var value := "[" + inner + "]";
    assert value[..|value| - 1] == "[" + inner;
    RunConcat("[", inner, START);
    RunConcat("[" + inner, "]", START);
    OpenBracket();
    CloseBracket(Run(IN_ARRAY, inner));
  }

  lemma OpenBracket()
    ensures Run(START, "[") == IN_ARRAY && Quiet("[", START)
  {
    assert "["[1..] == "";
  }

  lemma CloseBracket(st: Scan)
    ensures Run(st, "]") == Step(st, ']') && Quiet("]", st)
  {
    assert "]"[1..] == "";
  }

  // With one name added at the end, a printed array scans as the array it was read from, as long as
  // the bracket that ends it is the one that closes it.
  lemma ReprintedRun(inner: string, item: string)
    requires IsName(item) && Quiet(inner, IN_ARRAY) && !Stops(Run(IN_ARRAY, inner), ',')
    ensures var printed := RenderedArray(WithItem(Items(inner, FLAT, ""), item));
            Quiet(printed, START) && (Run(START, printed) == START <==> Run(START, "[" + inner + "]") == START)
  {
    hide Step, Run, Quiet, Stops, Items, ItemLines, WithItem, Bump;
    var items := Items(inner, FLAT, "");
    var st := Run(IN_ARRAY, inner);
    ItemsRun(inner, FLAT, "", IN_ARRAY);
    assert "" + inner + "," == inner + ",";
    NoEscapeOutside(inner, IN_ARRAY);
    RunConcat(inner, ",", IN_ARRAY);
    OneComma(st);
    var rested := Rested(st);
    SameStops(st);
    WithItemLines(items, item);
    NameLineRun(item, rested);
    RunConcat(ItemLines(items), ItemLines([item]), IN_ARRAY);
    var lines := ItemLines(WithItem(items, item));
    assert Run(IN_ARRAY, lines) == rested && Quiet(lines, IN_ARRAY);
    PrintedRun(lines);
    ArrayRun(inner);
    SameClose(st);
  }

  lemma SameStops(st: Scan)
    ensures Stops(st, ',') == Stops(Rested(st), ',')
  {
  }

  lemma SameClose(st: Scan)
    requires Settled(st)
    ensures Step(st, ']') == START <==> Step(Rested(st), ']') == START
  {
  }

  lemma WithItemLines(items: seq<string>, item: string)
    ensures ItemLines(WithItem(items, item)) == ItemLines(items)
         || ItemLines(WithItem(items, item)) == ItemLines(items) + ItemLines([item])
  {
    hide ItemLines;
    LinesConcat(items, [item]);
  }

  lemma PrintedRun(lines: string)
    requires Quiet(lines, IN_ARRAY) && !Run(IN_ARRAY, lines).prevEscape
    ensures Quiet("[\n" + lines + "    ]", START)
    ensures Run(START, "[\n" + lines + "    ]") == Step(Run(IN_ARRAY, lines), ']')
  {
    hide Step;
    CommaInArray();
    RunConcat("[\n", lines, START);
    var st := Run(IN_ARRAY, lines);
    RunConcat("[\n" + lines, "    ]", START);
    BlankRun("    ", st);
    RunConcat("    ", "]", st);
    CloseBracket(st);
    assert "    " + "]" == "    ]";
  }

  // ----- Printed items, read back.

  lemma {:induction false} ItemsOfFront(front: seq<string>, rest: string)
    requires ListedItems(front)
    ensures Items("\n" + ItemLines(front) + rest, FLAT, "") == front + Items("\n" + rest, FLAT, "")
  {
    hide ListedItem, Items;
    if front == [] {
      assert "\n" + "" + rest == "\n" + rest;
      assert front + Items("\n" + rest, FLAT, "") == Items("\n" + rest, FLAT, "");
    } else {
      var more := "\n" + ItemLines(front[1..]) + rest;
      FrontLine(front[0], ItemLines(front[1..]), rest);
      ItemsFront(front[0], more);
      ItemsOfFront(front[1..], rest);
      assert [front[0]] + (front[1..] + Items("\n" + rest, FLAT, "")) == front + Items("\n" + rest, FLAT, "");
    }
  }

  lemma FrontLine(item: string, lines: string, rest: string)
    ensures "\n" + ("        " + item + ",\n" + lines) + rest == ITEM_INDENT + item + "," + ("\n" + lines + rest)
  {
  }

  // Text that leaves a bracket open inside the first of its items is all one item.
  lemma OneOpenItem(item: string, tail: string)
    requires ScannedItem(item) && BumpAll(FLAT, item) != FLAT
    requires Trimmed(item + tail) && BumpAll(BumpAll(FLAT, item), tail) == BumpAll(FLAT, item)
    requires Commaless(tail, BumpAll(FLAT, item))
    ensures Items(ITEM_INDENT + (item + tail) + ("\n" + CLOSE_INDENT), FLAT, "") == [item + tail]
  {
    hide Items, Trim, BumpAll, Commaless, Trimmed;
    var pad := "\n" + CLOSE_INDENT;
    var text := ITEM_INDENT + (item + tail) + pad;
    var d := BumpAll(FLAT, item);
    BumpWhitespace(ITEM_INDENT, FLAT);
    BumpWhitespace(pad, d);
    BumpConcat(item, tail, FLAT);
    CommalessConcat(item, tail, FLAT);
    BumpConcat(ITEM_INDENT, item + tail, FLAT);
    CommalessConcat(ITEM_INDENT, item + tail, FLAT);
    CommalessConcat(ITEM_INDENT + (item + tail), pad, FLAT);
    ItemsConcat(text, "", FLAT, "");
    assert text + "" == text && "" + text == text;
    LastItem(BumpAll(FLAT, text), text);
    TrimPadded(ITEM_INDENT, item + tail, pad);
  }

  lemma LastItem(d: Depths, current: string)
    ensures Items("", d, current) == Keep(current)
  {
  }

  lemma OpenCommas(d: Depths, item: string)
    requires d != FLAT && IsName(item)
    ensures BumpAll(d, ",") == d && Commaless(",", d)
    ensures BumpAll(d, ",\n        " + item + ",") == d && Commaless(",\n        " + item + ",", d)
  {
    hide BumpAll, Commaless, Bump;
    PlainComma(d);
    BumpWhitespace("\n        ", d);
    BumpConcat(",", "\n        ", d);
    CommalessConcat(",", "\n        ", d);
    TypeNameScans(item, d);
    BumpConcat("," + "\n        ", item, d);
    CommalessConcat("," + "\n        ", item, d);
    BumpConcat("," + "\n        " + item, ",", d);
    CommalessConcat("," + "\n        " + item, ",", d);
    assert "," + "\n        " == ",\n        ";
  }

  lemma PlainComma(d: Depths)
    requires d != FLAT
    ensures BumpAll(d, ",") == d && Commaless(",", d)
  {
    assert ","[1..] == "";
  }

  lemma OpenText(lines: string, open: string, tail: string)
    ensures var rest := "        " + open + tail + "\n" + CLOSE_INDENT;
            && "\n" + (lines + ("        " + open + tail + "\n")) + CLOSE_INDENT == "\n" + lines + rest
            && "\n" + rest == ITEM_INDENT + (open + tail) + ("\n" + CLOSE_INDENT)
  {
  }

  // The items of a printed array whose last scanned item is open: it swallows what is printed after it.
  lemma OpenReparse(front: seq<string>, open: string, tail: string)
    requires ListedItems(front) && ScannedItem(open) && BumpAll(FLAT, open) != FLAT
    requires tail != "" && tail[|tail| - 1] == ','
    requires BumpAll(BumpAll(FLAT, open), tail) == BumpAll(FLAT, open) && Commaless(tail, BumpAll(FLAT, open))
    ensures var lines := ItemLines(front) + ("        " + open + tail + "\n");
            ArrayItems("[\n" + lines + "    ]") == Ok(front + [open + tail])
  {
    hide Items, ItemLines, BumpAll, Commaless, IsArray, Trim;
    var lines := ItemLines(front) + ("        " + open + tail + "\n");
    ArrayShape(lines);
    Unbracketed("\n" + lines + CLOSE_INDENT);
    var rest := "        " + open + tail + "\n" + CLOSE_INDENT;
    OpenText(ItemLines(front), open, tail);
    ItemsOfFront(front, rest);
    OneOpenItem(open, tail);
  }

  // Reading the printed target back and inserting the item again gives the same array when the items
  // are listed, and otherwise a longer one.
  lemma ReparseGrows(items: seq<string>, item: string)
    requires ScannedItems(items) && IsName(item)
    ensures var printed := WithItem(items, item);
            var back := ArrayItems(RenderedArray(printed));
            && back.Ok?
            && (ListedItems(items) ==> WithItem(back.value, item) == printed)
            && (!ListedItems(items) ==> |ItemLines(WithItem(back.value, item))| > |ItemLines(printed)|)
  {
    hide ArrayItems, ItemLines, ScannedItem, BumpAll, Commaless, Trimmed;
    var printed := WithItem(items, item);
    TypeNameIsListed(item);
    if ListedItems(items) {
      ArrayRoundTrip(printed);
    } else {
      ListedIsClosed(items);
      var n := |items| - 1;
      var front, open := items[..n], items[n];
      assert items == front + [open];
      FrontIsListed(items);
      var d := BumpAll(FLAT, open);
      OpenCommas(d, item);
      LinesConcat(front, [open]);
      OneLine(open);
      OneLine(item);
      if item in items {
        assert ItemLines(items) == ItemLines(front) + ("        " + open + "," + "\n");
        OpenReparse(front, open, ",");
        LongerLines(front, open + ",", item, |ItemLines(items)|);
      } else {
        var tail := ",\n        " + item + ",";
        LinesConcat(items, [item]);
        assert ItemLines(printed) == ItemLines(front) + ("        " + open + tail + "\n");
        OpenReparse(front, open, tail);
        assert item !in front;
        assert open + tail != item by { assert |open + tail| > |item|; }
        LinesConcat(front, [open + tail]);
        LinesConcat(front + [open + tail], [item]);
        OneLine(open + tail);
      }
    }
  }

  lemma LongerLines(front: seq<string>, last: string, item: string, n: nat)
    requires n < |ItemLines(front)| + 8 + |last| + 2
    ensures |ItemLines(WithItem(front + [last], item))| > n
  {
    hide ItemLines;
    LinesConcat(front, [last]);
    OneLine(last);
    LinesConcat(front + [last], [item]);
  }

  lemma TypeNameIsListed(item: string)
    requires IsName(item)
    ensures ListedItem(item)
  {
    hide BumpAll, Commaless, Matched;
    TypeNameScans(item, FLAT);
    assert In(NameChar, item[0]) && In(NameChar, item[|item| - 1]);
  }

  lemma ListedIsClosed(items: seq<string>)
    requires ScannedItems(items) && !ListedItems(items)
    ensures items != [] && BumpAll(FLAT, items[|items| - 1]) != FLAT
  {
    hide BumpAll, Commaless, Trimmed;
  }

  lemma FrontIsListed(items: seq<string>)
    requires ScannedItems(items) && items != []
    ensures ListedItems(items[..|items| - 1]) && ScannedItem(items[|items| - 1])
  {
    hide BumpAll, Commaless, Trimmed;
  }

  // ----- The printed fields, read back.

  lemma {:induction false} FieldLinesConcat(a: seq<Field>, b: seq<Field>)
    ensures FieldLines(a + b) == FieldLines(a) + FieldLines(b)
  {
    hide FieldLine;
    if a == [] {
      assert a + b == b;
    } else {
      assert (a + b)[1..] == a[1..] + b;
      FieldLinesConcat(a[1..], b);
      assert FieldLine(a[0]) + (FieldLines(a[1..]) + FieldLines(b)) ==
          FieldLine(a[0]) + FieldLines(a[1..]) + FieldLines(b);
    }
  }

  lemma OneFieldLine(f: Field)
    ensures FieldLines([f]) == FieldLine(f)
  {
    hide FieldLine;
    assert [f][1..] == [];
    assert FieldLine(f) + "" == FieldLine(f);
  }

  lemma Around(a: seq<Field>, f: Field, b: seq<Field>)
    ensures FieldLines(a + [f] + b) == FieldLines(a) + FieldLine(f) + FieldLines(b)
  {
    hide FieldLine, FieldLines;
    FieldLinesConcat(a + [f], b);
    FieldLinesConcat(a, [f]);
    OneFieldLine(f);
  }

  // A longer line makes a longer text.
  lemma LongerField(fields: seq<Field>, i: nat, f: Field)
    requires i < |fields|
    ensures |FieldLines(fields[i := f])| == |FieldLines(fields)| - |FieldLine(fields[i])| + |FieldLine(f)|
  {
    hide FieldLine, FieldLines;
    Around(fields[..i], fields[i], fields[i + 1..]);
    Around(fields[..i], f, fields[i + 1..]);
    assert fields == fields[..i] + [fields[i]] + fields[i + 1..];
    assert fields[i := f] == fields[..i] + [f] + fields[i + 1..];
  }

  lemma LineLength(f: Field)
    requires Trimmed(f.value)
    ensures FieldLine(f) == "    " + f.name + ": " + f.value + ",\n"
    ensures |FieldLine(f)| == |f.name| + |f.value| + 8
  {
    hide Trim, Trimmed;
    assert f.value == "" + f.value + "";
    TrimPadded("", f.value, "");
  }

  // A value that ends on a top-level comma is cut there, and the next field begins after it.
  lemma CutLine(f: Field, after: string)
    requires ScannedField(f) && Closed(f)
    ensures Fields("\n" + ("    " + f.name + ": " + f.value + "," + after)) == Joined([f], Fields(after))
  {
    hide Step, Run, Quiet, Trim, Trimmed, NextField, Span, Joined, Fields;
    var front := f.name + ": " + (f.value + ("," + after));
    CutText(f.name, f.value, after);
    assert front[0] == f.name[0];
    IndentScan(front);
    LineScan(f, "," + after);
    var text := f.value + ("," + after);
    CommaStops(after);
    assert text[..|f.value|] == f.value && text[|f.value|..] == "," + after;
    assert " " + f.value == " " + f.value + "";
    TrimPadded(" ", f.value, "");
    assert NextField(front) == Ok(Cut(f, after));
    FirstField(FIELD_INDENT, front);
  }

  lemma CutText(name: string, value: string, after: string)
    ensures "\n" + ("    " + name + ": " + value + "," + after) ==
        FIELD_INDENT + (name + ": " + (value + ("," + after)))
  {
  }

  lemma CommaStops(after: string)
    ensures ValueLen("," + after, START) == 0 && SkipComma("," + after) == after
  {
    assert ("," + after)[1..] == after;
  }

  lemma FirstField(pad: string, front: string)
    requires NextField(front).Ok? && front != ""
    requires Span(pad + front, Separator) == |pad| && (pad + front)[|pad|..] == front
    ensures var cut := NextField(front).value; Fields(pad + front) == Joined([cut.field], Fields(cut.rest))
  {
    hide NextField, Span;
  }

  // A text that goes on with a name and a comma, or with a bracket, is no field.
  lemma NoField(item: string, more: string)
    requires IsName(item)
    ensures Fields("\n" + ("        " + item + "," + more)).Err? && Fields("\n" + ("    ]" + more)).Err?
  {
    hide Fields, NextField, IsName;
    var front := item + ("," + more);
    NameThenComma(item, more);
    IndentText(item, more);
    assert (ITEM_INDENT + front)[|ITEM_INDENT|..] == front;
    assert forall i :: 0 <= i < |ITEM_INDENT| ==> In(Separator, (ITEM_INDENT + front)[i]);
    SpanIs(ITEM_INDENT + front, Separator, |ITEM_INDENT|);
    FirstFails(ITEM_INDENT, front);
    var close := "]" + more;
    NoName(more);
    IndentScan(close);
    FirstFails(FIELD_INDENT, close);
  }

  lemma IndentText(item: string, more: string)
    ensures "\n" + ("        " + item + "," + more) == ITEM_INDENT + (item + ("," + more))
    ensures "\n" + ("    ]" + more) == FIELD_INDENT + ("]" + more)
  {
  }

  lemma NameThenComma(item: string, more: string)
    requires IsName(item)
    ensures var front := item + ("," + more);
            front != "" && !In(Separator, front[0]) && NextField(front).Err?
  {
    hide Trim, ValueLen, Span;
    var front := item + ("," + more);
    assert forall i :: 0 <= i < |item| ==> front[i] == item[i] && In(NameChar, item[i]);
    assert front[0] == item[0];
    SpanIs(front, NameChar, |item|);
    assert front[|item|..] == "," + more;
    SpanIs("," + more, Blank, 0);
  }

  lemma NoName(more: string)
    ensures NextField("]" + more).Err? && !In(Separator, ("]" + more)[0])
  {
    hide Trim, ValueLen, Span;
    SpanIs("]" + more, NameChar, 0);
  }

  lemma FirstFails(pad: string, front: string)
    requires NextField(front).Err? && front != ""
    requires Span(pad + front, Separator) == |pad| && (pad + front)[|pad|..] == front
    ensures Fields(pad + front).Err?
  {
    hide NextField, Span;
  }

  // ----- The three ways a second upsert goes wrong.

  // The last bracket of the value is not the one that closes it: the comma after the last item then
  // ends the field, and what follows is no field at all.
  lemma BrokenTarget(pre: seq<Field>, name: string, inner: string, item: string, more: string)
    requires WellFormedFields(pre) && IsName(name) && IsName(item)
    requires Quiet(inner, IN_ARRAY) && Stops(Run(IN_ARRAY, inner), ',')
    ensures var items := Items(inner, FLAT, "");
            !Quiet(RenderedArray(WithItem(items, item)), START)
    ensures var items := Items(inner, FLAT, "");
            var line := "    " + name + ": " + RenderedArray(WithItem(items, item)) + ",\n";
            Fields("\n" + (FieldLines(pre) + (line + more))).Err?
  {
    hide Step, Run, Quiet, Items, ItemLines, WithItem, Bump, Trim, Trimmed, Fields, FieldLines, WellFormedFields,
      IsName, OpenLines, Joined;
    var items := Items(inner, FLAT, "");
    SomeItem(inner);
    ItemsScanned(inner, FLAT, "") by { NothingScanned(); }
    ItemsRunOpen(inner, FLAT, "", IN_ARRAY);
    assert "" + inner == inner;
    var text := OpenLines(items);
    NoEscapeOutside(text, IN_ARRAY);
    StopsIs(Run(IN_ARRAY, text), Run(IN_ARRAY, inner));
    LinesClosed(items);
    BrokenText(items, item);
    var after := if item in items then "\n" + "    ]" else "\n" + ("        " + item + "," + "\n    ]");
    assert RenderedArray(WithItem(items, item)) == "[\n" + text + "," + after;
    var f := Field(name, "[\n" + text);
    BrokenValue(items);
    CommaInArray();
    RunConcat("[\n", text, START);
    StopsAfter(f.value, after);
    var line := "    " + name + ": " + RenderedArray(WithItem(items, item)) + ",\n";
    var rest := if item in items then "\n" + ("    ]" + (",\n" + more))
        else "\n" + ("        " + item + "," + ("\n    ]" + (",\n" + more)));
    assert rest == after + (",\n" + more);
    Regrouped(name, f.value, after, more);
    CutLine(f, rest);
    NoField(item, "\n    ]" + (",\n" + more));
    NoField(item, ",\n" + more);
    FieldsOfLines(pre, line + more);
    JoinedFails(pre, [f], Fields(rest));
  }

  lemma JoinedFails(a: seq<Field>, b: seq<Field>, rest: Result<seq<Field>, RewriteError>)
    requires rest.Err?
    ensures Joined(a, Joined(b, rest)).Err?
  {
  }

  lemma Regrouped(name: string, value: string, after: string, more: string)
    ensures "    " + name + ": " + (value + "," + after) + ",\n" + more
         == "    " + name + ": " + value + "," + (after + (",\n" + more))
  {
  }

  // The printed array, cut at the comma after its last scanned item.
  lemma BrokenText(items: seq<string>, item: string)
    requires items != []
    ensures RenderedArray(WithItem(items, item)) ==
            "[\n" + OpenLines(items) + "," + (if item in items then "\n" + "    ]"
                else "\n" + ("        " + item + "," + "\n    ]"))
  {
    hide ItemLines, OpenLines;
    LinesClosed(items);
    var text := OpenLines(items);
    if item in items {
      assert "[\n" + (text + ",\n") + "    ]" == "[\n" + text + "," + ("\n" + "    ]") by { ClosedText(text); }
    } else {
      LinesConcat(items, [item]);
      OneLine(item);
      MoreText(text, item);
    }
  }

  lemma ClosedText(text: string)
    ensures "[\n" + (text + ",\n") + "    ]" == "[\n" + text + "," + ("\n" + "    ]")
  {
  }

  lemma MoreText(text: string, item: string)
    ensures "[\n" + (text + ",\n" + ("        " + item + ",\n")) + "    ]"
         == "[\n" + text + "," + ("\n" + ("        " + item + "," + "\n    ]"))
  {
  }

  lemma SomeItem(inner: string)
    requires Stops(Run(IN_ARRAY, inner), ',')
    ensures Items(inner, FLAT, "") != []
  {
    hide Items, Run;
    if Items(inner, FLAT, "") == [] {
      NoItemsRun(inner, IN_ARRAY);
    }
  }

  lemma StopsIs(a: Scan, b: Scan)
    requires Alike(a, b) && Stops(b, ',') && Settled(a)
    ensures a == START
  {
  }

  lemma BrokenValue(items: seq<string>)
    requires items != [] && ScannedItems(items)
    ensures Trimmed("[\n" + OpenLines(items))
  {
    hide ItemLines;
    var last := items[|items| - 1];
    assert ScannedItem(last);
    assert ("[\n" + OpenLines(items))[|"[\n" + OpenLines(items)| - 1] == last[|last| - 1];
  }

  lemma StopsAfter(value: string, after: string)
    requires Run(START, value) == START && Quiet(value, START)
    ensures !Quiet(value + "," + after, START)
  {
    hide Run;
    RunConcat(value, "," + after, START);
    assert value + ("," + after) == value + "," + after;
  }

  // The scanner's depths, counted from where an open value has left it.
  function Above(base: Scan, d: Depths): Scan {
    base.(depths := Depths(base.depths.bracket + d.bracket, base.depths.brace + d.brace, base.depths.paren + d.paren))
  }

  // Text without quotes and backslashes whose brackets match cannot end an open value.
  lemma {:induction false} Swallowed(s: string, base: Scan, d: Depths)
    requires Matched(s, d) && '"' !in s && '\\' !in s && !base.prevEscape && base != START
    ensures Quiet(s, Above(base, d))
    ensures !base.inString ==> Run(Above(base, d), s) == Above(base, BumpAll(d, s))
    decreases |s|
  {
    if s != "" {
      if base.inString {
        InString(s, Above(base, d));
      } else {
        assert Step(Above(base, d), s[0]) == Above(base, Bump(d, s[0]));
        Swallowed(s[1..], base, Bump(d, s[0]));
      }
    }
  }

  lemma {:induction false} InString(s: string, st: Scan)
    requires st.inString && '"' !in s
    ensures Quiet(s, st)
    decreases |s|
  {
    if s != "" {
      InString(s[1..], Step(st, s[0]));
    }
  }

  // Characters that no scanner counts.
  predicate Uncounted(s: string) {
    forall i :: 0 <= i < |s| ==> s[i] !in "[]{}()\"\\"
  }

  lemma {:induction false} UncountedMatched(s: string, d: Depths)
    requires Uncounted(s)
    ensures Matched(s, d) && BumpAll(d, s) == d
    decreases |s|
  {
    if s != "" {
      UncountedMatched(s[1..], d);
    }
  }

  lemma NameUncounted(name: string)
    requires IsName(name)
    ensures Uncounted(name)
  {
    assert forall i :: 0 <= i < |name| ==> In(NameChar, name[i]);
  }

  // The line of a new array is such text.
  lemma NewLineMatched(name: string, item: string)
    requires IsName(name) && IsName(item)
    ensures var text := ",\n" + FieldLine(Field(name, RenderedArray([item])));
            Matched(text, FLAT) && '"' !in text && '\\' !in text
  {
    hide Matched, BumpAll, Bump, RenderedArray, FieldLine, Trimmed, Uncounted;
    var f := Field(name, RenderedArray([item]));
    ArrayIsTrimmed([item]);
    LineLength(f);
    ArrayOfOne(item);
    NameUncounted(name);
    NameUncounted(item);
    var before, inside := ",\n    " + name + ": ", "\n        " + item + ",\n    ";
    NewText(name, item);
    UncountedAround(name, item);
    MatchedAround(before, inside, ",\n");
  }

  lemma UncountedAround(name: string, item: string)
    requires Uncounted(name) && Uncounted(item)
    ensures Uncounted(",\n    " + name + ": ") && Uncounted("\n        " + item + ",\n    ") && Uncounted(",\n")
  {
  }

  lemma MatchedAround(before: string, inside: string, after: string)
    requires Uncounted(before) && Uncounted(inside) && Uncounted(after)
    ensures var text := before + "[" + inside + "]" + after;
            Matched(text, FLAT) && '"' !in text && '\\' !in text
  {
    hide Matched, BumpAll, Bump;
    UncountedMatched(before, FLAT);
    Brackets();
    MatchedConcat(before, "[", FLAT);
    BumpConcat(before, "[", FLAT);
    UncountedMatched(inside, Depths(1, 0, 0));
    MatchedConcat(before + "[", inside, FLAT);
    BumpConcat(before + "[", inside, FLAT);
    MatchedConcat(before + "[" + inside, "]", FLAT);
    BumpConcat(before + "[" + inside, "]", FLAT);
    UncountedMatched(after, FLAT);
    MatchedConcat(before + "[" + inside + "]", after, FLAT);
  }

  lemma Brackets()
    ensures Matched("[", FLAT) && BumpAll(FLAT, "[") == Depths(1, 0, 0)
    ensures Matched("]", Depths(1, 0, 0)) && BumpAll(Depths(1, 0, 0), "]") == FLAT
  {
    assert "["[1..] == "" && "]"[1..] == "";
  }

  lemma ArrayOfOne(item: string)
    ensures RenderedArray([item]) == "[\n" + ("        " + item + ",\n") + "    ]"
  {
    OneLine(item);
  }

  lemma NewText(name: string, item: string)
    ensures ",\n" + ("    " + name + ": " + ("[\n" + ("        " + item + ",\n") + "    ]") + ",\n")
         == (",\n    " + name + ": ") + "[" + ("\n        " + item + ",\n    ") + "]" + ",\n"
  {
  }

  // An open last value swallows the new array printed after it.
  lemma SwallowsNew(open: Field, name: string, item: string)
    requires ScannedField(open) && !Closed(open) && IsName(name) && IsName(item)
    ensures var line := FieldLine(Field(name, RenderedArray([item])));
            var f := Field(open.name, open.value + ",\n" + line[..|line| - 1]);
            && |line| > 0 && Trimmed(f.value)
            && Fields("\n" + (FieldLine(open) + line)) == Ok([f])
  {
    hide Step, Run, Quiet, Trim, Matched, NextField, RenderedArray, FieldLine, Span, Fields, Closed;
    var line := FieldLine(Field(name, RenderedArray([item])));
    ArrayIsTrimmed([item]);
    LineLength(Field(name, RenderedArray([item])));
    LineLength(open);
    NewLineMatched(name, item);
    var text := ",\n" + line;
    var st := Run(START, open.value);
    OpenState(open);
    QuietAfter(text, st);
    LineScan(open, text);
    ValueLenConcat(text, "", st);
    assert text + "" == text;
    EmptyValue(Run(st, text));
    var value := open.value + ",\n" + line[..|line| - 1];
    var whole := open.value + text;
    assert line == line[..|line| - 1] + "\n";
    assert whole == value + "\n";
    assert whole[..|whole|] == whole && whole[|whole|..] == "";
    assert " " + whole == " " + value + "\n";
    TrimPadded(" ", value, "\n");
    var front := open.name + ": " + whole;
    assert front[0] == open.name[0] && In(NameChar, open.name[0]);
    OpenShapeText(open.name, open.value, line);
    IndentScan(front);
    var f := Field(open.name, value);
    assert NextField(front) == Ok(Cut(f, ""));
    FirstField(FIELD_INDENT, front);
    NoFields();
    assert [f] + [] == [f];
  }

  lemma OpenState(open: Field)
    requires !Closed(open)
    ensures open.value != "" && Run(START, open.value) != START && Settled(Run(START, open.value))
  {
    NoEscapeOutside(open.value, START);
  }

  lemma QuietAfter(text: string, st: Scan)
    requires Matched(text, FLAT) && '"' !in text && '\\' !in text && st != START && Settled(st)
    ensures Quiet(text, st)
  {
    hide Matched, Quiet;
    if st.inString {
      InString(text, st);
    } else {
      Swallowed(text, st, FLAT);
      assert Above(st, FLAT) == st;
    }
  }

  lemma EmptyValue(st: Scan)
    ensures ValueLen("", st) == 0 && SkipComma("") == ""
  {
  }

  lemma NoFields()
    ensures Fields("") == Ok([])
  {
    SpanIs("", Separator, 0);
  }

  lemma OpenShapeText(name: string, value: string, line: string)
    ensures "\n" + ("    " + name + ": " + value + ",\n" + line) ==
        FIELD_INDENT + (name + ": " + (value + (",\n" + line)))
  {
  }

  // ----- The theorem, on the fields.

  // What a second update makes of the printed fields.
  function Again(us: seq<Field>, name: string, item: string): Result<string, RewriteError> {
    var fields :- Fields(RenderedFields(us));
    var updated :- WithFieldItem(fields, name, item);
    Ok(RenderedFields(updated))
  }

  // The bracket that ends the value is the one that closes it.
  predicate ClosesAtEnd(value: string)
    requires value != ""
  {
    !Stops(BeforeEnd(value), ',')
  }

  // What a caller can check before the first upsert: the last value is closed, and the target array, if
  // there is one, is closed by its last bracket and has items that each read as one unit.
  predicate Stable(fields: seq<Field>, name: string) {
    && LastClosed(fields)
    && var i := FirstNamed(fields, name);
       i < |fields| && ArrayItems(fields[i].value).Ok? ==>
         fields[i].value != "" && ClosesAtEnd(fields[i].value) && ListedItems(ArrayItems(fields[i].value).value)
  }

  // The items of the target after the first upsert.
  function NewItems(fields: seq<Field>, name: string, item: string): seq<string> {
    var i := FirstNamed(fields, name);
    if i < |fields| && ArrayItems(fields[i].value).Ok? then WithItem(ArrayItems(fields[i].value).value, item)
        else [item]
  }

  lemma ArrayEnds(value: string)
    requires IsArray(value)
    ensures |value| >= 2 && value == "[" + value[1..|value| - 1] + "]"
  {
  }

  lemma TargetShape(value: string)
    requires Trimmed(value) && ArrayItems(value).Ok? && Quiet(value, START)
    ensures |value| >= 2
    ensures var inner := value[1..|value| - 1];
            && value == "[" + inner + "]" && ArrayItems(value) == Ok(Items(inner, FLAT, ""))
            && Quiet(inner, IN_ARRAY) && BeforeEnd(value) == Run(IN_ARRAY, inner)
            && ScannedItems(Items(inner, FLAT, ""))
  {
    hide Step, Run, Quiet, Items, Trim, ScannedItems, IsArray, BeforeEnd, Trimmed;
    assert value == "" + value + "";
    TrimPadded("", value, "");
    ArrayEnds(value);
    var inner := value[1..|value| - 1];
    ArrayRun(inner);
    NothingScanned();
    ItemsScanned(inner, FLAT, "");
  }

  lemma NewFieldWellFormed(name: string, item: string)
    requires IsName(name) && IsName(item)
    ensures WellFormedFields([Field(name, RenderedArray([item]))])
  {
    hide RenderedArray, ScannedField, Closed, WellFormedItem;
    TypeNameIsItem(item);
    ArrayFieldWellFormed(name, [item]);
  }

  lemma TargetWellFormed(f: Field, item: string)
    requires ScannedField(f) && ArrayItems(f.value).Ok? && f.value != "" && IsName(item)
    ensures var target := Field(f.name, RenderedArray(WithItem(ArrayItems(f.value).value, item)));
            && Trimmed(target.value)
            && (ScannedField(target) <==> ClosesAtEnd(f.value))
            && (ClosesAtEnd(f.value) ==> (Closed(target) <==> Closed(f)))
  {
    hide Step, Run, Quiet, Items, RenderedArray, ArrayItems, WithItem, Stops, Trimmed, BeforeEnd;
    TargetShape(f.value);
    var inner := f.value[1..|f.value| - 1];
    var items := Items(inner, FLAT, "");
    ArrayIsTrimmed(WithItem(items, item));
    if ClosesAtEnd(f.value) {
      ReprintedRun(inner, item);
    } else {
      BrokenTarget([], f.name, inner, item, "");
    }
  }

  // When the updated fields are well formed.
  lemma UpdatedExactly(fields: seq<Field>, name: string, item: string)
    requires ScannedFields(fields) && IsName(name) && IsName(item) && WithFieldItem(fields, name, item).Ok?
    ensures var i := FirstNamed(fields, name);
            && (i < |fields| ==> fields[i].value != "")
            && (WellFormedFields(WithFieldItem(fields, name, item).value) <==>
                LastClosed(fields) && (i < |fields| ==> ClosesAtEnd(fields[i].value)))
  {
    hide ScannedField, Closed, ClosesAtEnd, WithFieldItem, RenderedArray, ArrayItems, FirstNamed, WithItem;
    var us := WithFieldItem(fields, name, item).value;
    UpdateShape(fields, name, item);
    var i := FirstNamed(fields, name);
    if i == |fields| {
      NewFieldWellFormed(name, item);
      var new_ := [Field(name, RenderedArray([item]))];
      assert us == fields + new_;
      assert new_[0] == us[i];
      assert forall j :: 0 <= j < i ==> us[j] == fields[j];
    } else {
      ArrayNotEmpty(fields[i].value);
      TargetWellFormed(fields[i], item);
      assert forall j :: 0 <= j < |fields| && j != i ==> us[j] == fields[j];
      var n := |fields| - 1;
      assert ScannedField(us[i]) <==> ClosesAtEnd(fields[i].value);
      if ClosesAtEnd(fields[i].value) {
        assert Closed(us[i]) <==> Closed(fields[i]);
        assert Closed(us[n]) <==> Closed(fields[n]);
        assert forall j :: 0 <= j < n ==> Closed(us[j]);
      }
    }
  }

  lemma ArrayNotEmpty(value: string)
    requires ArrayItems(value).Ok?
    ensures value != ""
  {
  }

  // Everything in order: the fields are read back as they were printed, and the item is there.
  lemma AgainSame(fields: seq<Field>, name: string, item: string)
    requires ScannedFields(fields) && IsName(name) && IsName(item) && WithFieldItem(fields, name, item).Ok?
    requires WellFormedFields(WithFieldItem(fields, name, item).value)
    ensures var us := WithFieldItem(fields, name, item).value;
            && (ListedItems(NewItems(fields, name, item)) ==> Again(us, name, item) == Ok(RenderedFields(us)))
            && (!ListedItems(NewItems(fields, name, item)) ==>
                  Again(us, name, item).Ok? && |Again(us, name, item).value| > |RenderedFields(us)|)
  {
    hide Fields, WithFieldItem, ArrayItems, RenderedArray, FirstNamed, WithItem, FieldLines, FieldLine, ListedItems,
      ScannedItems, Closed, ScannedField;
    var us := WithFieldItem(fields, name, item).value;
    FieldsRoundTripExactly(us);
    UpdateShape(fields, name, item);
    UpdateShape(us, name, item);
    var i := FirstNamed(fields, name);
    assert us[i].name == name;
    assert forall j :: 0 <= j < i ==> us[j] == fields[j];
    assert FirstNamed(us, name) == i;
    var items := NewItems(fields, name, item);
    NewItemsReparse(fields, name, item);
    var back := ArrayItems(RenderedArray(items)).value;
    var f := Field(name, RenderedArray(WithItem(back, item)));
    if ListedItems(items) {
      assert us[i := f] == us;
    } else {
      LongerArray(name, WithItem(back, item), items);
      LongerField(us, i, f);
    }
  }

  lemma LongerArray(name: string, a: seq<string>, b: seq<string>)
    requires |ItemLines(a)| > |ItemLines(b)|
    ensures |FieldLine(Field(name, RenderedArray(a)))| > |FieldLine(Field(name, RenderedArray(b)))|
  {
    hide ItemLines, FieldLine;
    ArrayIsTrimmed(a);
    ArrayIsTrimmed(b);
    LineLength(Field(name, RenderedArray(a)));
    LineLength(Field(name, RenderedArray(b)));
  }

  lemma NewItemsReparse(fields: seq<Field>, name: string, item: string)
    requires ScannedFields(fields) && IsName(item) && WithFieldItem(fields, name, item).Ok?
    ensures var items := NewItems(fields, name, item);
            var back := ArrayItems(RenderedArray(items));
            && back.Ok?
            && (ListedItems(items) ==> WithItem(back.value, item) == items)
            && (!ListedItems(items) ==> |ItemLines(WithItem(back.value, item))| > |ItemLines(items)|)
    ensures var i := FirstNamed(fields, name);
            ListedItems(NewItems(fields, name, item)) <==>
            (i < |fields| ==> ArrayItems(fields[i].value).Ok? && ListedItems(ArrayItems(fields[i].value).value))
  {
    hide ArrayItems, RenderedArray, FirstNamed, ItemLines, ScannedItems, ListedItem, WithFieldItem, Quiet, Trimmed;
    UpdateShape(fields, name, item);
    TypeNameIsListed(item);
    var i := FirstNamed(fields, name);
    if i < |fields| {
      assert ScannedField(fields[i]);
      TargetShape(fields[i].value);
      var items := ArrayItems(fields[i].value).value;
      ReparseGrows(items, item);
      ListedWith(items, item);
    } else {
      ArrayRoundTrip([item]);
    }
  }

  lemma ListedWith(items: seq<string>, item: string)
    requires ListedItem(item)
    ensures ListedItems(WithItem(items, item)) <==> ListedItems(items)
  {
    hide ListedItem;
    assert item !in items ==> WithItem(items, item)[..|items|] == items;
    assert forall i :: 0 <= i < |items| ==> WithItem(items, item)[i] == items[i];
  }

  // The text of the printed fields around one of them.
  lemma RenderedAround(us: seq<Field>, i: nat)
    requires i < |us|
    ensures RenderedFields(us) == "\n" + (FieldLines(us[..i]) + (FieldLine(us[i]) + FieldLines(us[i + 1..])))
  {
    hide FieldLine, FieldLines;
    Around(us[..i], us[i], us[i + 1..]);
    assert us == us[..i] + [us[i]] + us[i + 1..];
    assert FieldLines(us[..i]) + FieldLine(us[i]) + FieldLines(us[i + 1..])
        == FieldLines(us[..i]) + (FieldLine(us[i]) + FieldLines(us[i + 1..]));
  }

  // The target is not closed by its last bracket: the printed fields cannot be read at all.
  lemma AgainBroken(fields: seq<Field>, us: seq<Field>, name: string, item: string)
    requires ScannedFields(fields) && IsName(name) && IsName(item) && WithFieldItem(fields, name, item) == Ok(us)
    requires var i := FirstNamed(fields, name);
             i < |fields| && fields[i].value != "" && !ClosesAtEnd(fields[i].value)
    ensures Fields(RenderedFields(us)).Err? && Again(us, name, item).Err?
  {
    hide Fields, WithFieldItem, ArrayItems, RenderedArray, FirstNamed, WithItem, FieldLines, FieldLine, Items, Run,
      Quiet, Closed, RenderedFields, Stops, BeforeEnd, Trimmed;
    UpdateShape(fields, name, item);
    var i := FirstNamed(fields, name);
    var v := fields[i].value;
    assert ScannedField(fields[i]);
    TargetShape(v);
    var inner := v[1..|v| - 1];
    var pre, more := fields[..i], FieldLines(us[i + 1..]);
    assert us[..i] == pre;
    assert WellFormedFields(pre);
    RenderedAround(us, i);
    ArrayIsTrimmed(WithItem(Items(inner, FLAT, ""), item));
    LineLength(us[i]);
    BrokenTarget(pre, name, inner, item, more);
  }

  // The last value is open, and printed last: it gains a comma.
  lemma OpenLast(us: seq<Field>)
    requires ScannedFields(us) && us != [] && !Closed(us[|us| - 1])
    ensures var n := |us| - 1;
            Fields(RenderedFields(us)) == Ok(us[n := us[n].(value := us[n].value + ",")])
  {
    hide Fields, FieldLine, FieldLines, ScannedField, Closed;
    var n := |us| - 1;
    var last := us[n];
    FieldsOfLines(us[..n], FieldLine(last) + "");
    OpenFieldChanges(last);
    LinesSplit(us);
    assert us[..n] + [Field(last.name, last.value + ",")] == us[n := last.(value := last.value + ",")];
  }

  lemma AgainOpenLast(fields: seq<Field>, us: seq<Field>, name: string, item: string)
    requires ScannedFields(fields) && IsName(name) && IsName(item) && WithFieldItem(fields, name, item) == Ok(us)
    requires var i := FirstNamed(fields, name);
             i < |fields| && fields[i].value != "" && ClosesAtEnd(fields[i].value)
    requires !LastClosed(fields)
    ensures Again(us, name, item).Err? || |Again(us, name, item).value| > |RenderedFields(us)|
  {
    hide Fields, WithFieldItem, ArrayItems, RenderedArray, FirstNamed, WithItem, FieldLines, FieldLine, ListedItems,
      Closed, ScannedField, ClosesAtEnd, Trimmed;
    UpdateShape(fields, name, item);
    var i := FirstNamed(fields, name);
    var n := |fields| - 1;
    TargetWellFormed(fields[i], item);
    assert forall j :: 0 <= j < |fields| && j != i ==> us[j] == fields[j];
    OpenLast(us);
    var open := us[n].(value := us[n].value + ",");
    var back := us[n := open];
    UpdateShape(back, name, item);
    assert forall j :: 0 <= j < i ==> back[j] == fields[j];
    assert back[i].name == name;
    assert FirstNamed(back, name) == i;
    OpenTrimmed(us[n]);
    if i == n {
      NoArray(open.value);
    } else {
      NewItemsReparse(fields, name, item);
      var items := NewItems(fields, name, item);
      var again := WithItem(ArrayItems(RenderedArray(items)).value, item);
      var f := Field(name, RenderedArray(again));
      NotShorter(name, again, items);
      LongerField(us, n, open);
      LongerField(back, i, f);
      LineLength(us[n]);
      LineLength(open);
    }
  }

  lemma NotShorter(name: string, a: seq<string>, b: seq<string>)
    requires a == b || |ItemLines(a)| > |ItemLines(b)|
    ensures |FieldLine(Field(name, RenderedArray(a)))| >= |FieldLine(Field(name, RenderedArray(b)))|
  {
    hide FieldLine, RenderedArray, ItemLines;
    if a != b {
      LongerArray(name, a, b);
    }
  }

  lemma OpenTrimmed(f: Field)
    requires ScannedField(f) && !Closed(f)
    ensures f.value != "" && Trimmed(f.value) && Trimmed(f.value + ",")
  {
    hide Quiet;
    OpenState(f);
  }

  lemma NoArray(value: string)
    requires Trimmed(value) && value != "" && value[|value| - 1] != ']'
    ensures ArrayItems(value).Err?
  {
    hide Trim, Items, Trimmed;
    assert value == "" + value + "";
    TrimPadded("", value, "");
  }

  // The last value is open, and the new array is printed after it: it is swallowed, and added again.
  lemma AgainSwallowed(fields: seq<Field>, us: seq<Field>, name: string, item: string)
    requires ScannedFields(fields) && IsName(name) && IsName(item) && WithFieldItem(fields, name, item) == Ok(us)
    requires FirstNamed(fields, name) == |fields| && !LastClosed(fields)
    ensures Fields(RenderedFields(us)).Ok? && |Fields(RenderedFields(us)).value| == |fields|
    ensures Again(us, name, item).Ok? && |Again(us, name, item).value| > |RenderedFields(us)|
  {
    hide Fields, WithFieldItem, ArrayItems, RenderedArray, FirstNamed, FieldLines, FieldLine, Closed, ScannedField,
        Trimmed;
    UpdateShape(fields, name, item);
    var n := |fields| - 1;
    var pre, open, new_ := fields[..n], fields[n], Field(name, RenderedArray([item]));
    assert us == pre + [open] + [new_];
    RenderedAround(us, n);
    OneFieldLine(new_);
    assert us[..n] == pre && us[n] == open && us[n + 1..] == [new_];
    var line := FieldLine(new_);
    assert WellFormedFields(pre);
    FieldsOfLines(pre, FieldLine(open) + line);
    SwallowsNew(open, name, item);
    OpenTrimmed(open);
    var f := Field(open.name, open.value + ",\n" + line[..|line| - 1]);
    var back := pre + [f];
    assert Fields(RenderedFields(us)) == Ok(back);
    UpdateShape(back, name, item);
    assert forall j :: 0 <= j < |back| ==> back[j].name == fields[j].name;
    var k := FirstNamed(back, name);
    assert k == |back|;
    Around(pre, open, [new_]);
    Around(pre, f, [new_]);
    LineLength(open);
    LineLength(f);
  }

  // A second update prints the same text exactly when the fields were stable, and otherwise fails or
  // prints a longer one.
  lemma AgainExactly(fields: seq<Field>, name: string, item: string)
    requires ScannedFields(fields) && IsName(name) && IsName(item) && WithFieldItem(fields, name, item).Ok?
    ensures var us := WithFieldItem(fields, name, item).value;
            && (Stable(fields, name) <==> WellFormedFields(us) && ListedItems(NewItems(fields, name, item)))
            && (Stable(fields, name) ==> Again(us, name, item) == Ok(RenderedFields(us)))
            && (!Stable(fields, name) ==>
                  Again(us, name, item).Err? || |Again(us, name, item).value| > |RenderedFields(us)|)
  {
    hide WithFieldItem, ArrayItems, FirstNamed, ListedItems, ScannedFields, ClosesAtEnd, WellFormedFields,
      RenderedFields, NewItems, Again, Closed;
    var us := WithFieldItem(fields, name, item).value;
    UpdateShape(fields, name, item);
    UpdatedExactly(fields, name, item);
    NewItemsReparse(fields, name, item);
    var i := FirstNamed(fields, name);
    if WellFormedFields(us) {
      AgainSame(fields, name, item);
    } else if i < |fields| && !ClosesAtEnd(fields[i].value) {
      AgainBroken(fields, us, name, item);
    } else if i < |fields| {
      AgainOpenLast(fields, us, name, item);
    } else {
      AgainSwallowed(fields, us, name, item);
    }
  }

  // ----- What the first update achieves.

  // The updated fields, read back, are the old ones with the item added exactly when the target's items
  // are read as one unit each.
  lemma UpdatedGains(fields: seq<Field>, name: string, item: string)
    requires ScannedFields(fields) && IsName(item) && WithFieldItem(fields, name, item).Ok?
    ensures GainsItem(fields, WithFieldItem(fields, name, item).value, name, item) <==>
            ListedItems(NewItems(fields, name, item))
  {
    hide WithFieldItem, ArrayItems, RenderedArray, FirstNamed, ListedItems, ScannedFields;
    UpdateShape(fields, name, item);
    ArrayRoundTripExactly(NewItems(fields, name, item));
  }

  // The open last value is read back longer, so that it is not the old one, or is no array any more.
  lemma OpenLastLoses(fields: seq<Field>, us: seq<Field>, name: string, item: string)
    requires ScannedFields(fields) && IsName(name) && IsName(item) && WithFieldItem(fields, name, item) == Ok(us)
    requires var i := FirstNamed(fields, name);
             i < |fields| && fields[i].value != "" && ClosesAtEnd(fields[i].value)
    requires !LastClosed(fields)
    ensures Fields(RenderedFields(us)).Ok? && !GainsItem(fields, Fields(RenderedFields(us)).value, name, item)
  {
    hide Fields, WithFieldItem, ArrayItems, RenderedArray, RenderedFields, FirstNamed, WithItem, Closed, ScannedField,
      ClosesAtEnd, Trimmed;
    UpdateShape(fields, name, item);
    var i := FirstNamed(fields, name);
    var n := |fields| - 1;
    TargetWellFormed(fields[i], item);
    assert forall j :: 0 <= j < |fields| && j != i ==> us[j] == fields[j];
    OpenLast(us);
    OpenTrimmed(us[n]);
    var back := us[n := us[n].(value := us[n].value + ",")];
    assert |back[n].value| > |us[n].value|;
    if i == n {
      NoArray(back[n].value);
    }
  }

  lemma GainsExactly(fields: seq<Field>, name: string, item: string)
    requires ScannedFields(fields) && IsName(name) && IsName(item) && WithFieldItem(fields, name, item).Ok?
    ensures var read := Fields(RenderedFields(WithFieldItem(fields, name, item).value));
            (read.Ok? && GainsItem(fields, read.value, name, item)) <==> Stable(fields, name)
  {
    hide Fields, WithFieldItem, FirstNamed, ListedItems, ScannedFields, ClosesAtEnd, WellFormedFields, RenderedFields,
      NewItems, Stable, Closed, GainsItem, ArrayItems, Again;
    var us := WithFieldItem(fields, name, item).value;
    UpdateShape(fields, name, item);
    UpdatedExactly(fields, name, item);
    AgainExactly(fields, name, item);
    var i := FirstNamed(fields, name);
    if WellFormedFields(us) {
      FieldsRoundTripExactly(us);
      UpdatedGains(fields, name, item);
    } else if i < |fields| && !ClosesAtEnd(fields[i].value) {
      AgainBroken(fields, us, name, item);
    } else if i < |fields| {
      OpenLastLoses(fields, us, name, item);
    } else {
      AgainSwallowed(fields, us, name, item);
      ShortLoses(fields, Fields(RenderedFields(us)).value, name, item);
    }
  }

  lemma ShortLoses(fields: seq<Field>, fields': seq<Field>, name: string, item: string)
    requires FirstNamed(fields, name) == |fields| && |fields'| == |fields|
    ensures !GainsItem(fields, fields', name, item)
  {
    hide FirstNamed, ArrayItems;
  }

  // ----- The theorems, on the source.

  // Read back, the module is the old one, every other field with its name, value and place, and its
  // target array has the old items, plus the item exactly when it was missing: if and only if the module
  // is stable.
  lemma UpsertAddsExactly(source: string, name: string, item: string)
    requires Upserted(source, name, item).Ok? && IsName(name) && IsName(item)
    ensures var out := Upserted(source, name, item).value;
            var (start, end) := ModuleBody(source).value;
            var fields := Fields(source[start..end]).value;
            && ModuleBody(out).Ok?
            && var (start', end') := ModuleBody(out).value;
               var read := Fields(out[start'..end']);
               (read.Ok? && GainsItem(fields, read.value, name, item)) <==> Stable(fields, name)
  {
    hide Fields, WithFieldItem, RenderedFields, ModuleBody, BraceNeutral, IsName, Stable, GainsItem;
    var (start, end) := ModuleBody(source).value;
    TypeNameIsItem(item);
    UpsertFrame(source, name, item);
    FieldsScanned(source[start..end]);
    GainsExactly(Fields(source[start..end]).value, name, item);
  }

  lemma AgainIsUpsert(source: string, name: string, item: string)
    requires Upserted(source, name, item).Ok? && IsName(name) && BraceNeutral(item)
    ensures var out := Upserted(source, name, item).value;
            var (start, end) := ModuleBody(source).value;
            var us := WithFieldItem(Fields(source[start..end]).value, name, item).value;
            && start <= end <= |source|
            && out == source[..start] + RenderedFields(us) + source[end..]
            && Upserted(out, name, item) ==
               (if Again(us, name, item).Err? then Err(Again(us, name, item).error)
                else Ok(source[..start] + Again(us, name, item).value + source[end..]))
  {
    hide Fields, WithFieldItem, RenderedFields, IsName, ModuleBody, BraceNeutral;
    UpsertFrame(source, name, item);
    var out := Upserted(source, name, item).value;
    var (start, end) := ModuleBody(source).value;
    var (start', end') := ModuleBody(out).value;
    assert out[..start'] == source[..start] && out[end'..] == source[end..];
  }

  // A second upsert of the same type name returns the identical text exactly when the module is stable:
  // when the fields it printed are read back as they were, and so are the items of the target.
  lemma UpsertTwiceExactly(source: string, name: string, item: string)
    requires Upserted(source, name, item).Ok? && IsName(name) && IsName(item)
    ensures var out := Upserted(source, name, item).value;
            var (start, end) := ModuleBody(source).value;
            var fields := Fields(source[start..end]).value;
            var updated := WithFieldItem(fields, name, item).value;
            && (Upserted(out, name, item) == Ok(out) <==> Stable(fields, name))
            && (Stable(fields, name) <==> WellFormedFields(updated) && ListedItems(NewItems(fields, name, item)))
  {
    hide Fields, WithFieldItem, RenderedFields, ModuleBody, BraceNeutral, IsName, Again, Stable, WellFormedFields,
      ListedItems, NewItems;
    var (start, end) := ModuleBody(source).value;
    var text := source[start..end];
    TypeNameIsItem(item);
    AgainIsUpsert(source, name, item);
    FieldsScanned(text);
    AgainExactly(Fields(text).value, name, item);
  }

  // ----- A module without quotes whose brackets match is stable.

  lemma {:induction false} PlainRun(s: string, d: Depths)
    requires Quoteless(s)
    ensures Run(Scan(d, false, false), s) == Scan(BumpAll(d, s), false, false)
    decreases |s|
  {
    if s != "" {
      PlainRun(s[1..], Bump(d, s[0]));
    }
  }

  predicate BalancedField(f: Field) {
    Quoteless(f.value) && Balanced(f.value)
  }

  lemma SpanUncounted(s: string, k: CharClass)
    requires k == Separator || k == NameChar || k == Blank
    ensures Uncounted(s[..Span(s, k)])
  {
    SpanOf(s, k);
  }

  // Dropping text that no scanner counts from the front keeps the balance.
  lemma BalancedTail(s: string, n: nat)
    requires n <= |s| && Quoteless(s) && Balanced(s) && (Uncounted(s[..n]) || BumpAll(FLAT, s[..n]) == FLAT)
    ensures Quoteless(s[n..]) && Balanced(s[n..])
    ensures Matched(s[..n], FLAT)
  {
    hide BumpAll, Matched;
    assert s == s[..n] + s[n..];
    BumpConcat(s[..n], s[n..], FLAT);
    MatchedConcat(s[..n], s[n..], FLAT);
    if Uncounted(s[..n]) {
      UncountedMatched(s[..n], FLAT);
    }
  }

  lemma NextBalanced(s: string)
    requires Quoteless(s) && Balanced(s) && NextField(s).Ok?
    ensures var cut := NextField(s).value;
            BalancedField(cut.field) && Quoteless(cut.rest) && Balanced(cut.rest)
  {
    hide BumpAll, Matched, Span, ValueLen, Trim, Trimmed, Run, Step, Quiet, Uncounted;
    var n := Span(s, NameChar);
    SpanUncounted(s, NameChar);
    BalancedTail(s, n);
    var afterName := s[n..];
    var m := Span(afterName, Blank);
    SpanUncounted(afterName, Blank);
    BalancedTail(afterName, m);
    var colon := afterName[m..];
    ColonUncounted(colon);
    BalancedTail(colon, 1);
    var text := colon[1..];
    var len := ValueLen(text, START);
    ScannedValue(text, START);
    PlainRun(text[..len], FLAT);
    if len == |text| {
      assert text[..len] == text;
      assert text[len..] == "";
      EmptyBalanced();
    } else {
      BalancedTail(text, len);
      assert Matched(text[..len], FLAT);
      CommaUncounted(text[len..]);
      BalancedTail(text[len..], 1);
    }
    TrimmedScans(text[..len]);
  }

  lemma EmptyBalanced()
    ensures Balanced("") && SkipComma("") == ""
  {
  }

  lemma ColonUncounted(s: string)
    requires s != "" && s[0] == ':'
    ensures Uncounted(s[..1])
  {
  }

  lemma CommaUncounted(s: string)
    requires s != "" && s[0] == ','
    ensures Uncounted(s[..1])
  {
  }

  lemma {:induction false} FieldsBalanced(s: string)
    requires Quoteless(s) && Balanced(s) && Fields(s).Ok?
    ensures forall i :: 0 <= i < |Fields(s).value| ==> BalancedField(Fields(s).value[i])
    decreases |s|
  {
    hide NextField, Span, Uncounted, Quoteless, Balanced;
    var n := Span(s, Separator);
    SpanUncounted(s, Separator);
    BalancedTail(s, n);
    if s[n..] != "" {
      NextBalanced(s[n..]);
      FieldsBalanced(NextField(s[n..]).value.rest);
    }
  }

  lemma BalancedCloses(f: Field)
    requires BalancedField(f)
    ensures Closed(f)
    ensures IsArray(f.value) ==> ClosesAtEnd(f.value)
  {
    hide BumpAll, Matched, Run;
    PlainRun(f.value, FLAT);
    if IsArray(f.value) {
      var n := |f.value| - 1;
      var front := f.value[..n];
      PlainRun(front, FLAT);
      assert f.value == front + "]";
      MatchedConcat(front, "]", FLAT);
      NoCloser();
    }
  }

  lemma NoCloser()
    ensures !Matched("]", FLAT)
  {
  }

  // A caller can tell from the text: no quotes, and every bracket matched, in the body and inside the
  // target array.
  lemma BalancedIsStable(text: string, name: string)
    requires Quoteless(text) && Balanced(text) && Fields(text).Ok?
    requires var fields := Fields(text).value;
             var i := FirstNamed(fields, name);
             i < |fields| && IsArray(fields[i].value) ==> Balanced(fields[i].value[1..|fields[i].value| - 1])
    ensures Stable(Fields(text).value, name) && SafeFields(Fields(text).value, name)
  {
    hide Fields, Items, Balanced, Quoteless, Closed, FirstNamed, WellFormedItem, ListedItem, Trim, Trimmed, Quiet;
    var fields := Fields(text).value;
    FieldsBalanced(text);
    FieldsScanned(text);
    UpdateShape(fields, name, "");
    assert forall i :: 0 <= i < |fields| ==> BalancedField(fields[i]);
    if fields != [] {
      BalancedCloses(fields[|fields| - 1]);
    }
    var i := FirstNamed(fields, name);
    if i < |fields| && ArrayItems(fields[i].value).Ok? {
      var v := fields[i].value;
      assert ScannedField(fields[i]);
      assert v == "" + v + "";
      TrimPadded("", v, "");
      BalancedCloses(fields[i]);
      QuotelessArray(v);
      assert forall item :: WellFormedItem(item) ==> ListedItem(item) by { ListedFromWellFormed(); }
    }
  }

  lemma ListedFromWellFormed()
    ensures forall item :: WellFormedItem(item) ==> ListedItem(item)
  {
  }
}
