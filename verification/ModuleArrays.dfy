/** Array values of module metadata: the item scanner undoes the array printer. */
module ModuleArrays {
  import opened Results
  import opened Text
  import opened ModuleMetadata

  predicate Underflows(d: Depths, c: char) {
    || (c == ']' && d.bracket == 0)
    || (c == '}' && d.brace == 0)
    || (c == ')' && d.paren == 0)
  }

  // No closer in s is unmatched when s starts at depths d.
  predicate Matched(s: string, d: Depths)
    decreases |s|
  {
    s == "" || (!Underflows(d, s[0]) && Matched(s[1..], Bump(d, s[0])))
  }

  // No character of s is a comma outside all brackets.
  predicate Commaless(s: string, d: Depths)
    decreases |s|
  {
    s == "" || (!(s[0] == ',' && d == FLAT) && Commaless(s[1..], Bump(d, s[0])))
  }

  // No character of s ends a field value scanned from state st.
  predicate Quiet(s: string, st: Scan)
    decreases |s|
  {
    s == "" || (!Stops(st, s[0]) && Quiet(s[1..], Step(st, s[0])))
  }

  // The field scanner's state inside the brackets of an array value.
  const IN_ARRAY := Scan(Depths(1, 0, 0), false, false)

  // An item that the item scanner reads as one unit.
  predicate ListedItem(item: string) {
    item != "" && Trimmed(item) && Commaless(item, FLAT) && BumpAll(FLAT, item) == FLAT
  }

  predicate ListedItems(items: seq<string>) {
    forall i :: 0 <= i < |items| ==> ListedItem(items[i])
  }

  // An item that both scanners read as one unit.
  predicate WellFormedItem(item: string) {
    && ListedItem(item)
    && Quiet(item, IN_ARRAY) && Run(IN_ARRAY, item) == IN_ARRAY
  }

  predicate WellFormedItems(items: seq<string>) {
    forall i :: 0 <= i < |items| ==> WellFormedItem(items[i])
  }

  // ----- Scanning a concatenation.

  lemma {:induction false} BumpConcat(a: string, b: string, d: Depths)
    ensures BumpAll(d, a + b) == BumpAll(BumpAll(d, a), b)
    decreases |a|
  {
    if a == "" {
      assert a + b == b;
    } else {
      assert (a + b)[1..] == a[1..] + b;
      BumpConcat(a[1..], b, Bump(d, a[0]));
    }
  }

  lemma {:induction false} CommalessConcat(a: string, b: string, d: Depths)
    ensures Commaless(a + b, d) <==> Commaless(a, d) && Commaless(b, BumpAll(d, a))
    decreases |a|
  {
    if a == "" {
      assert a + b == b;
    } else {
      assert (a + b)[1..] == a[1..] + b;
      CommalessConcat(a[1..], b, Bump(d, a[0]));
    }
  }

  lemma {:induction false} RunConcat(a: string, b: string, st: Scan)
    ensures Run(st, a + b) == Run(Run(st, a), b)
    ensures Quiet(a + b, st) <==> Quiet(a, st) && Quiet(b, Run(st, a))
    decreases |a|
  {
    if a == "" {
      assert a + b == b;
    } else {
      assert (a + b)[1..] == a[1..] + b;
      RunConcat(a[1..], b, Step(st, a[0]));
    }
  }

  lemma {:induction false} BumpWhitespace(s: string, d: Depths)
    requires AllWhitespace(s)
    ensures BumpAll(d, s) == d && Commaless(s, d)
    decreases |s|
  {
    if s != "" {
      BumpWhitespace(s[1..], d);
    }
  }

  lemma {:induction false} RunWhitespace(s: string, st: Scan)
    requires AllWhitespace(s)
    ensures Run(st, s).inString == st.inString && Run(st, s).depths == st.depths
    ensures !st.inString ==> Run(st, s) == st
    ensures Quiet(s, st)
    decreases |s|
  {
    if s != "" {
      RunWhitespace(s[1..], Step(st, s[0]));
    }
  }

  // ----- The round trip.

  lemma {:induction false} ItemsConcat(a: string, b: string, d: Depths, current: string)
    requires Commaless(a, d)
    ensures Items(a + b, d, current) == Items(b, BumpAll(d, a), current + a)
    decreases |a|
  {
    if a == "" {
      assert a + b == b && current + a == current;
    } else {
      assert (a + b)[1..] == a[1..] + b;
      assert current + [a[0]] + a[1..] == current + a;
      ItemsConcat(a[1..], b, Bump(d, a[0]), current + [a[0]]);
    }
  }

  const ITEM_INDENT := "\n        "
  const CLOSE_INDENT := "    "

  // One item followed by its comma.
  lemma ItemsFront(item: string, rest: string)
    requires ListedItem(item)
    ensures Items(ITEM_INDENT + item + "," + rest, FLAT, "") == [item] + Items(rest, FLAT, "")
  {
    hide Items, Trim, Trimmed, Quiet;
    var a := ITEM_INDENT + item;
    BumpWhitespace(ITEM_INDENT, FLAT);
    BumpConcat(ITEM_INDENT, item, FLAT);
    CommalessConcat(ITEM_INDENT, item, FLAT);
    assert ITEM_INDENT + item + "," + rest == a + ("," + rest);
    ItemsConcat(a, "," + rest, FLAT, "");
    assert Items("," + rest, FLAT, "" + a) == [item] + Items(rest, FLAT, "") by {
      ItemsComma(rest, "" + a);
      assert "" + a == ITEM_INDENT + item + "";
      TrimPadded(ITEM_INDENT, item, "");
    }
  }

  lemma ItemsComma(rest: string, current: string)
    ensures Items("," + rest, FLAT, current) == Keep(current) + Items(rest, FLAT, "")
  {
    assert ("," + rest)[1..] == rest;
  }

  lemma {:induction false} ItemsOfLines(items: seq<string>)
    requires ListedItems(items)
    ensures Items("\n" + ItemLines(items) + CLOSE_INDENT, FLAT, "") == items
  {
    if items == [] {
      var pad := "\n" + CLOSE_INDENT;
      assert "\n" + ItemLines(items) + CLOSE_INDENT == pad + "";
      BumpWhitespace(pad, FLAT);
      ItemsConcat(pad, "", FLAT, "");
      assert "" + pad == pad + "" + "";
      TrimPadded(pad, "", "");
    } else {
      var rest := "\n" + ItemLines(items[1..]) + CLOSE_INDENT;
      assert "\n" + ItemLines(items) + CLOSE_INDENT == ITEM_INDENT + items[0] + "," + rest by {
        LineFront(items[0], ItemLines(items[1..]));
      }
      ItemsFront(items[0], rest);
      ItemsOfLines(items[1..]);
    }
  }

  lemma LineFront(item: string, lines: string)
    ensures "\n" + ("        " + item + ",\n" + lines) + CLOSE_INDENT
         == ITEM_INDENT + item + "," + ("\n" + lines + CLOSE_INDENT)
  {
  }

  lemma ArrayShape(lines: string)
    ensures "[\n" + lines + "    ]" == "[" + ("\n" + lines + CLOSE_INDENT) + "]"
  {
  }

  lemma Unbracketed(inner: string)
    ensures Trim("[" + inner + "]") == "[" + inner + "]"
    ensures IsArray("[" + inner + "]") && ("[" + inner + "]")[1..|inner| + 1] == inner
  {
    hide TrimStart, TrimEnd;
    var value := "[" + inner + "]";
    assert value == "" + value + "";
    TrimPadded("", value, "");
  }

  // Parsing a printed array gives back its items.
  lemma ArrayRoundTrip(items: seq<string>)
    requires ListedItems(items)
    ensures ArrayItems(RenderedArray(items)) == Ok(items)
  {
    hide Trim, Items, ItemLines, IsArray;
    ArrayShape(ItemLines(items));
    Unbracketed("\n" + ItemLines(items) + CLOSE_INDENT);
    ItemsOfLines(items);
  }

  // ----- And only of such lists.

  // An item as the scanner can return it; an open bracket may be left in the last one.
  predicate ScannedItem(item: string) {
    item != "" && Trimmed(item) && Commaless(item, FLAT)
  }

  predicate ScannedItems(items: seq<string>) {
    && (forall i :: 0 <= i < |items| ==> ScannedItem(items[i]))
    && (forall i :: 0 <= i < |items| - 1 ==> BumpAll(FLAT, items[i]) == FLAT)
  }

  lemma KeptScanned(current: string)
    requires Commaless(current, FLAT)
    ensures |Keep(current)| <= 1 && ScannedItems(Keep(current))
    ensures forall item :: item in Keep(current) ==> BumpAll(FLAT, item) == BumpAll(FLAT, current)
  {
    hide BumpAll, Commaless, Trim, Trimmed;
    TrimmedScans(current);
  }

  lemma {:induction false} ItemsScanned(inner: string, d: Depths, current: string)
    requires Commaless(current, FLAT) && BumpAll(FLAT, current) == d
    ensures ScannedItems(Items(inner, d, current))
    decreases |inner|
  {
    hide Trim, Trimmed, ScannedItem, Bump, Keep;
    KeptScanned(current);
    if inner != "" {
      if inner[0] == ',' && d == FLAT {
        ItemsScanned(inner[1..], d, "");
      } else {
        var c := [inner[0]];
        assert c[1..] == "";
        BumpConcat(current, c, FLAT);
        CommalessConcat(current, c, FLAT);
        ItemsScanned(inner[1..], Bump(d, inner[0]), current + c);
      }
    }
  }

  // An open last item swallows the comma printed after it.
  lemma {:induction false} OpenItemOfLines(items: seq<string>)
    requires items != [] && ScannedItems(items) && BumpAll(FLAT, items[|items| - 1]) != FLAT
    ensures var n := |items| - 1;
            Items("\n" + ItemLines(items) + CLOSE_INDENT, FLAT, "") == items[..n] + [items[n] + ","]
  {
    hide Items, Trimmed, Commaless, BumpAll;
    var rest := "\n" + ItemLines(items[1..]) + CLOSE_INDENT;
    LineFront(items[0], ItemLines(items[1..]));
    if |items| == 1 {
      assert ItemLines(items[1..]) == "";
      assert rest == "\n" + CLOSE_INDENT;
      OpenItem(items[0]);
    } else {
      ItemsFront(items[0], rest);
      OpenItemOfLines(items[1..]);
      var n := |items| - 1;
      assert [items[0]] + (items[1..][..n - 1] + [items[n] + ","]) == items[..n] + [items[n] + ","];
    }
  }

  lemma OpenItem(item: string)
    requires ScannedItem(item) && BumpAll(FLAT, item) != FLAT
    ensures Items(ITEM_INDENT + item + "," + ("\n" + CLOSE_INDENT), FLAT, "") == [item + ","]
  {
    hide Items, Trim, BumpAll, Commaless;
    var a, tail := ITEM_INDENT + item, "," + ("\n" + CLOSE_INDENT);
    BumpWhitespace(ITEM_INDENT, FLAT);
    BumpConcat(ITEM_INDENT, item, FLAT);
    CommalessConcat(ITEM_INDENT, item, FLAT);
    ItemsConcat(a, tail, FLAT, "");
    assert a + tail == ITEM_INDENT + item + "," + ("\n" + CLOSE_INDENT);
    OpenComma(BumpAll(FLAT, item), a);
    assert "" + a == a;
    assert a + tail == ITEM_INDENT + (item + ",") + ("\n" + CLOSE_INDENT);
    TrimPadded(ITEM_INDENT, item + ",", "\n" + CLOSE_INDENT);
  }

  lemma OpenComma(d: Depths, current: string)
    requires d != FLAT
    ensures Items("," + ("\n" + CLOSE_INDENT), d, current) == Keep(current + ("," + ("\n" + CLOSE_INDENT)))
  {
    var pad := "\n" + CLOSE_INDENT;
    assert ("," + pad)[1..] == pad;
    BumpWhitespace(pad, d);
    ItemsConcat(pad, "", d, current + ",");
    assert pad + "" == pad && current + "," + pad == current + ("," + pad);
  }

  // A printed array is read back as the same items exactly when each item reads as one unit.
  lemma ArrayRoundTripExactly(items: seq<string>)
    ensures ArrayItems(RenderedArray(items)) == Ok(items) <==> ListedItems(items)
  {
    hide Trim, Trimmed, Items, ItemLines, IsArray, BumpAll, Commaless;
    if ListedItems(items) {
      ArrayRoundTrip(items);
    } else {
      var inner := "\n" + ItemLines(items) + CLOSE_INDENT;
      ArrayShape(ItemLines(items));
      Unbracketed(inner);
      NothingScanned();
      ItemsScanned(inner, FLAT, "");
      if ScannedItems(items) {
        var n := |items| - 1;
        OpenItemOfLines(items);
        assert |(items[..n] + [items[n] + ","])[n]| > |items[n]|;
      }
    }
  }

  lemma WellFormedAreListed(items: seq<string>)
    requires WellFormedItems(items)
    ensures ListedItems(items)
  {
  }

  lemma NothingScanned()
    ensures Commaless("", FLAT) && BumpAll(FLAT, "") == FLAT
  {
  }

  // ----- A printed array is one complete field value.

  lemma ArrayIsTrimmed(items: seq<string>)
    ensures Trimmed(RenderedArray(items)) && Trim(RenderedArray(items)) == RenderedArray(items)
  {
    hide Trim, ItemLines;
    ArrayShape(ItemLines(items));
    Unbracketed("\n" + ItemLines(items) + CLOSE_INDENT);
  }

  lemma {:induction false} LinesStayInArray(items: seq<string>)
    requires WellFormedItems(items)
    ensures Quiet(ItemLines(items), IN_ARRAY) && Run(IN_ARRAY, ItemLines(items)) == IN_ARRAY
  {
    if items != [] {
      var line, rest := "        " + items[0] + ",\n", ItemLines(items[1..]);
      LineStaysInArray(items[0]);
      LinesStayInArray(items[1..]);
      RunConcat(line, rest, IN_ARRAY);
    }
  }

  lemma LineStaysInArray(item: string)
    requires Quiet(item, IN_ARRAY) && Run(IN_ARRAY, item) == IN_ARRAY
    ensures Quiet("        " + item + ",\n", IN_ARRAY) && Run(IN_ARRAY, "        " + item + ",\n") == IN_ARRAY
  {
    hide Step;
    RunWhitespace("        ", IN_ARRAY);
    RunConcat("        ", item, IN_ARRAY);
    RunConcat("        " + item, ",\n", IN_ARRAY);
    CommaInArray();
  }

  lemma CommaInArray()
    ensures Quiet(",\n", IN_ARRAY) && Run(IN_ARRAY, ",\n") == IN_ARRAY
    ensures Quiet("[\n", START) && Run(START, "[\n") == IN_ARRAY
    ensures Quiet("    ]", IN_ARRAY) && Run(IN_ARRAY, "    ]") == START
  {
    assert ",\n"[1..] == "\n" && "[\n"[1..] == "\n" && "\n"[1..] == "";
    RunWhitespace("    ", IN_ARRAY);
    RunConcat("    ", "]", IN_ARRAY);
    assert "    ]" == "    " + "]";
  }

  lemma ArrayIsComplete(items: seq<string>)
    requires WellFormedItems(items)
    ensures Quiet(RenderedArray(items), START) && Run(START, RenderedArray(items)) == START
  {
    hide Step, Run, Quiet, ItemLines;
    CommaInArray();
    LinesStayInArray(items);
    RunConcat("[\n", ItemLines(items), START);
    RunConcat("[\n" + ItemLines(items), "    ]", START);
  }

  // ----- When are the items of an array value well formed?

  // Trimming changes nothing the scanners count.
  lemma TrimmedScans(s: string)
    ensures BumpAll(FLAT, Trim(s)) == BumpAll(FLAT, s)
    ensures Commaless(s, FLAT) ==> Commaless(Trim(s), FLAT)
    ensures Matched(s, FLAT) ==> Matched(Trim(s), FLAT)
    ensures Quiet(s, START) ==> Quiet(Trim(s), START)
    ensures Run(START, s) == START <==> Run(START, Trim(s)) == START
    ensures forall c :: c in Trim(s) ==> c in s
    ensures Trimmed(Trim(s))
  {
    hide Step, Run, Quiet, Bump, BumpAll, Commaless, Matched, Trim, Trimmed;
    var left, right := TrimSplits(s);
    var t := Trim(s);
    BumpWhitespace(left, FLAT);
    BumpWhitespace(right, BumpAll(FLAT, t));
    BumpConcat(left, t, FLAT);
    BumpConcat(left + t, right, FLAT);
    CommalessConcat(left, t, FLAT);
    CommalessConcat(left + t, right, FLAT);
    MatchedConcat(left, t, FLAT);
    MatchedConcat(left + t, right, FLAT);
    RunWhitespace(left, START);
    RunWhitespace(right, Run(START, t));
    RunConcat(left, t, START);
    RunConcat(left + t, right, START);
    NoEscapeOutside(t, START);
    NoEscapeOutside(s, START);
  }

  lemma {:induction false} MatchedConcat(a: string, b: string, d: Depths)
    ensures Matched(a + b, d) <==> Matched(a, d) && Matched(b, BumpAll(d, a))
    decreases |a|
  {
    if a == "" {
      assert a + b == b;
    } else {
      assert (a + b)[1..] == a[1..] + b;
      MatchedConcat(a[1..], b, Bump(d, a[0]));
    }
  }

  // Outside a string the scanner remembers no backslash.
  lemma {:induction false} NoEscapeOutside(s: string, st: Scan)
    requires !st.inString ==> !st.prevEscape
    ensures !Run(st, s).inString ==> !Run(st, s).prevEscape
    decreases |s|
  {
    if s != "" {
      NoEscapeOutside(s[1..], Step(st, s[0]));
    }
  }

  predicate Quoteless(s: string) {
    '"' !in s
  }

  function OneDeeper(d: Depths): Scan {
    Scan(d.(bracket := d.bracket + 1), false, false)
  }

  // Without quotes, matched text moves the field scanner exactly as it moves the bracket counters.
  lemma {:induction false} MatchedInArray(s: string, d: Depths)
    requires Matched(s, d) && Quoteless(s)
    ensures Quiet(s, OneDeeper(d)) && Run(OneDeeper(d), s) == OneDeeper(BumpAll(d, s))
    decreases |s|
  {
    if s != "" {
      assert Step(OneDeeper(d), s[0]) == OneDeeper(Bump(d, s[0]));
      MatchedInArray(s[1..], Bump(d, s[0]));
    }
  }

  lemma KeptItem(current: string)
    requires Quoteless(current) && Matched(current, FLAT) && Commaless(current, FLAT)
    requires BumpAll(FLAT, current) == FLAT
    ensures WellFormedItems(Keep(current))
  {
    hide Run, Quiet, BumpAll, Commaless, Matched, Trim, Trimmed;
    TrimmedScans(current);
    MatchedInArray(Trim(current), FLAT);
  }

  // Every bracket of an array value without quotes is matched: all its items are well formed.
  lemma {:induction false} QuotelessItems(inner: string, d: Depths, current: string)
    requires Quoteless(inner) && Matched(inner, d) && BumpAll(d, inner) == FLAT
    requires Quoteless(current) && Matched(current, FLAT) && Commaless(current, FLAT)
    requires BumpAll(FLAT, current) == d
    ensures WellFormedItems(Items(inner, d, current))
    decreases |inner|
  {
    if inner == "" {
      KeptItem(current);
    } else if inner[0] == ',' && d == FLAT {
      KeptItem(current);
      QuotelessItems(inner[1..], d, "");
    } else {
      var c := [inner[0]];
      assert c[1..] == "";
      BumpConcat(current, c, FLAT);
      MatchedConcat(current, c, FLAT);
      CommalessConcat(current, c, FLAT);
      QuotelessItems(inner[1..], Bump(d, inner[0]), current + c);
    }
  }

  predicate Balanced(s: string) {
    Matched(s, FLAT) && BumpAll(FLAT, s) == FLAT
  }

  // A caller can tell from the text alone that an array is safe to rewrite.
  lemma QuotelessArray(value: string)
    requires ArrayItems(value).Ok? && Quoteless(value)
    requires var t := Trim(value); Balanced(t[1..|t| - 1])
    ensures WellFormedItems(ArrayItems(value).value)
  {
    hide Step, Run, Quiet, Commaless, Trim, Trimmed, Items;
    TrimmedScans(value);
    var t := Trim(value);
    QuotelessItems(t[1..|t| - 1], FLAT, "");
  }
}
