/** Rewriting a module attribute: what an upsert keeps, what it changes, and that it changes it once. */
module ModuleUpsert {
  import opened Results
  import opened Text
  import opened ModuleMetadata
  import opened ModuleArrays
  import opened ModuleFields

  // ----- Brace counting depends on the braces only.

  predicate IsBrace(c: char) {
    c == '{' || c == '}'
  }

  function Braces(s: string): string {
    if s == "" then "" else (if IsBrace(s[0]) then [s[0]] else "") + Braces(s[1..])
  }

  // Open braces left after s, or None when s closes the last of them.
  function BracesLeft(s: string, open: nat): Option<nat>
    decreases |s|
  {
    if s == "" then Some(open)
    else if s[0] == '}' && open <= 1 then None
    else BracesLeft(s[1..], if s[0] == '{' then open + 1 else if s[0] == '}' then open - 1 else open)
  }

  lemma {:induction false} BracesConcat(a: string, b: string)
    ensures Braces(a + b) == Braces(a) + Braces(b)
  {
    if a == "" {
      assert a + b == b;
    } else {
      var first := if IsBrace(a[0]) then [a[0]] else "";
      assert (a + b)[1..] == a[1..] + b && (a + b)[0] == a[0];
      BracesConcat(a[1..], b);
      assert first + (Braces(a[1..]) + Braces(b)) == first + Braces(a[1..]) + Braces(b);
    }
  }

  lemma {:induction false} NoBraces(s: string)
    requires forall i :: 0 <= i < |s| ==> !IsBrace(s[i])
    ensures Braces(s) == ""
  {
    if s != "" {
      NoBraces(s[1..]);
    }
  }

  lemma {:induction false} BracesLeftConcat(a: string, b: string, open: nat)
    ensures BracesLeft(a + b, open) ==
            match BracesLeft(a, open) case None => None case Some(n) => BracesLeft(b, n)
    decreases |a|
  {
    if a == "" {
      assert a + b == b;
    } else {
      assert (a + b)[1..] == a[1..] + b;
      BracesLeftConcat(a[1..], b, if a[0] == '{' then open + 1 else if a[0] == '}' && open > 0 then open - 1 else open);
    }
  }

  lemma {:induction false} OnlyBracesCount(s: string, open: nat)
    ensures BracesLeft(Braces(s), open) == BracesLeft(s, open)
    decreases |s|
  {
    if s != "" {
      OnlyBracesCount(s[1..], if s[0] == '{' then open + 1 else if s[0] == '}' && open > 0 then open - 1 else open);
      if IsBrace(s[0]) {
        assert ([s[0]] + Braces(s[1..]))[1..] == Braces(s[1..]);
      } else {
        assert "" + Braces(s[1..]) == Braces(s[1..]);
      }
    }
  }

  // The closing brace is the first one that the counting before it leaves unmatched.
  lemma {:induction false} CloseOffsetSound(s: string, open: nat)
    requires open >= 1 && CloseOffset(s, open).Some?
    ensures var k := CloseOffset(s, open).value; s[k] == '}' && BracesLeft(s[..k], open) == Some(1)
    decreases |s|
  {
    if !(s[0] == '}' && open <= 1) {
      var deeper := if s[0] == '{' then open + 1 else if s[0] == '}' then open - 1 else open;
      CloseOffsetSound(s[1..], deeper);
      var k := CloseOffset(s, open).value;
      assert s[..k][1..] == s[1..][..k - 1];
    }
  }

  lemma {:induction false} CloseOffsetComplete(s: string, rest: string, open: nat)
    requires open >= 1 && BracesLeft(s, open) == Some(1) && rest != "" && rest[0] == '}'
    ensures CloseOffset(s + rest, open) == Some(|s|)
    decreases |s|
  {
    if s == "" {
      assert s + rest == rest;
    } else {
      var deeper := if s[0] == '{' then open + 1 else if s[0] == '}' then open - 1 else open;
      assert (s + rest)[1..] == s[1..] + rest;
      CloseOffsetComplete(s[1..], rest, deeper);
    }
  }

  // ----- Parsing and printing keep the braces, in order.

  function ValueBraces(fields: seq<Field>): string {
    if fields == [] then "" else Braces(fields[0].value) + ValueBraces(fields[1..])
  }

  function AllBraces(items: seq<string>): string {
    if items == [] then "" else Braces(items[0]) + AllBraces(items[1..])
  }

  lemma {:induction false} ValueBracesConcat(a: seq<Field>, b: seq<Field>)
    ensures ValueBraces(a + b) == ValueBraces(a) + ValueBraces(b)
  {
    if a == [] {
      assert a + b == b;
    } else {
      assert (a + b)[1..] == a[1..] + b;
      ValueBracesConcat(a[1..], b);
    }
  }

  lemma {:induction false} AllBracesConcat(a: seq<string>, b: seq<string>)
    ensures AllBraces(a + b) == AllBraces(a) + AllBraces(b)
  {
    if a == [] {
      assert a + b == b;
    } else {
      assert (a + b)[1..] == a[1..] + b;
      AllBracesConcat(a[1..], b);
    }
  }

  lemma TrimBraces(s: string)
    ensures Braces(Trim(s)) == Braces(s)
  {
    hide Trim, TrimStart, TrimEnd, Braces;
    var left, right := TrimSplits(s);
    NoBraces(left);
    NoBraces(right);
    BracesConcat(left, Trim(s));
    BracesConcat(left + Trim(s), right);
  }

  lemma SpanBraces(s: string, k: CharClass)
    requires k != BeforeBrace
    ensures Braces(s) == Braces(s[Span(s, k)..])
  {
    hide Braces;
    SpanOf(s, k);
    var n := Span(s, k);
    NoBraces(s[..n]);
    assert s == s[..n] + s[n..];
    BracesConcat(s[..n], s[n..]);
  }

  lemma NextFieldBraces(s: string)
    requires NextField(s).Ok?
    ensures var cut := NextField(s).value; Braces(s) == Braces(cut.field.value) + Braces(cut.rest)
  {
    hide Braces, Trim, Span, ValueLen, SkipComma;
    SpanBraces(s, NameChar);
    var afterName := s[Span(s, NameChar)..];
    SpanBraces(afterName, Blank);
    var colon := afterName[Span(afterName, Blank)..];
    var text := colon[1..];
    assert colon == ":" + text;
    NoBraces(":");
    BracesConcat(":", text);
    var len := ValueLen(text, START);
    assert text == text[..len] + text[len..];
    BracesConcat(text[..len], text[len..]);
    TrimBraces(text[..len]);
    SkipCommaBraces(text[len..]);
  }

  lemma SkipCommaBraces(s: string)
    ensures Braces(SkipComma(s)) == Braces(s)
  {
    hide Braces;
    if s != "" && s[0] == ',' {
      assert s == "," + s[1..];
      NoBraces(",");
      BracesConcat(",", s[1..]);
    }
  }

  lemma {:induction false} FieldsBraces(s: string)
    requires Fields(s).Ok?
    ensures Braces(s) == ValueBraces(Fields(s).value)
    decreases |s|
  {
    hide NextField, Span, Braces;
    SpanBraces(s, Separator);
    var front := s[Span(s, Separator)..];
    if front == "" {
      NoBraces("");
    } else {
      NextFieldBraces(front);
      FieldsBraces(NextField(front).value.rest);
    }
  }

  lemma LineBraces(f: Field)
    requires IsName(f.name)
    ensures Braces(FieldLine(f)) == Braces(f.value)
  {
    hide Braces, Trim;
    var shown := if '\n' in f.value then f.value else Trim(f.value);
    TrimBraces(f.value);
    NoBraces(f.name);
    NoBraces("    ");
    NoBraces(": ");
    NoBraces(",\n");
    BracesConcat("    ", f.name);
    BracesConcat("    " + f.name, ": ");
    BracesConcat("    " + f.name + ": ", shown);
    BracesConcat("    " + f.name + ": " + shown, ",\n");
  }

  predicate NamedFields(fields: seq<Field>) {
    forall i :: 0 <= i < |fields| ==> IsName(fields[i].name)
  }

  lemma {:induction false} LinesBraces(fields: seq<Field>)
    requires NamedFields(fields)
    ensures Braces(FieldLines(fields)) == ValueBraces(fields)
  {
    hide FieldLine, Braces, IsName;
    if fields == [] {
      NoBraces("");
    } else {
      LineBraces(fields[0]);
      LinesBraces(fields[1..]);
      BracesConcat(FieldLine(fields[0]), FieldLines(fields[1..]));
    }
  }

  lemma RenderedBraces(fields: seq<Field>)
    requires NamedFields(fields)
    ensures Braces(RenderedFields(fields)) == ValueBraces(fields)
  {
    hide FieldLines, Braces;
    NoBraces("");
    NoBraces("\n");
    LinesBraces(fields);
    BracesConcat("\n", FieldLines(fields));
  }

  lemma KeepBraces(current: string)
    ensures AllBraces(Keep(current)) == Braces(current)
  {
    hide Trim, Braces;
    TrimBraces(current);
    NoBraces("");
    assert [Trim(current)][1..] == [];
    assert AllBraces([]) == "";
  }

  lemma {:induction false} ItemsBraces(inner: string, d: Depths, current: string)
    ensures AllBraces(Items(inner, d, current)) == Braces(current) + Braces(inner)
    decreases |inner|
  {
    hide Keep, Bump;
    if inner == "" {
      KeepBraces(current);
    } else if inner[0] == ',' && d == FLAT {
      KeepBraces(current);
      ItemsBraces(inner[1..], d, "");
      AllBracesConcat(Keep(current), Items(inner[1..], d, ""));
    } else {
      ItemsBraces(inner[1..], Bump(d, inner[0]), current + [inner[0]]);
      BracesConcat(current, [inner[0]]);
      BracesConcat([inner[0]], inner[1..]);
      assert [inner[0]] + inner[1..] == inner;
    }
  }

  lemma ArrayItemsBraces(value: string)
    requires ArrayItems(value).Ok?
    ensures AllBraces(ArrayItems(value).value) == Braces(value)
  {
    hide Trim, Items, Braces;
    var t := Trim(value);
    TrimBraces(value);
    BracketedBraces(t[1..|t| - 1]);
    assert t == "[" + t[1..|t| - 1] + "]";
    ItemsBraces(t[1..|t| - 1], FLAT, "");
    NoBraces("");
  }

  lemma BracketedBraces(inner: string)
    ensures Braces("[" + inner + "]") == Braces(inner)
  {
    hide Braces;
    NoBraces("[");
    NoBraces("]");
    BracesConcat("[", inner);
    BracesConcat("[" + inner, "]");
  }

  lemma {:induction false} ItemLinesBraces(items: seq<string>)
    ensures Braces(ItemLines(items)) == AllBraces(items)
  {
    hide Braces;
    if items == [] {
      NoBraces("");
    } else {
      NoBraces("        ");
      NoBraces(",\n");
      BracesConcat("        ", items[0]);
      BracesConcat("        " + items[0], ",\n");
      BracesConcat("        " + items[0] + ",\n", ItemLines(items[1..]));
      ItemLinesBraces(items[1..]);
    }
  }

  lemma RenderedArrayBraces(items: seq<string>)
    ensures Braces(RenderedArray(items)) == AllBraces(items)
  {
    hide Braces, ItemLines;
    NoBraces("[\n");
    NoBraces("    ]");
    BracesConcat("[\n", ItemLines(items));
    BracesConcat("[\n" + ItemLines(items), "    ]");
    ItemLinesBraces(items);
  }

  // ----- An upsert does not move the end of the body.

  // Text that brace counting passes over unchanged.
  ghost predicate BraceNeutral(item: string) {
    forall open: nat :: open >= 1 ==> BracesLeft(item, open) == Some(open)
  }

  lemma NeutralBetween(a: string, item: string, b: string)
    requires BraceNeutral(item)
    ensures BracesLeft(a + Braces(item) + b, 1) == BracesLeft(a + b, 1)
  {
    hide Braces;
    BracesLeftConcat(a, b, 1);
    BracesLeftConcat(a, Braces(item), 1);
    BracesLeftConcat(a + Braces(item), b, 1);
    if BracesLeft(a, 1).Some? {
      LeavesSome(a, 1);
      OnlyBracesCount(item, BracesLeft(a, 1).value);
    }
  }

  lemma {:induction false} LeavesSome(s: string, open: nat)
    requires open >= 1 && BracesLeft(s, open).Some?
    ensures BracesLeft(s, open).value >= 1
    decreases |s|
  {
    if s != "" {
      LeavesSome(s[1..], if s[0] == '{' then open + 1 else if s[0] == '}' then open - 1 else open);
    }
  }

  // The braces of the updated fields: the old ones, with at most the item's put in somewhere.
  lemma {:induction false} UpdatedBraces(fields: seq<Field>, name: string, item: string) returns (a: string, b: string)
    requires WithFieldItem(fields, name, item).Ok?
    ensures ValueBraces(fields) == a + b
    ensures var us := WithFieldItem(fields, name, item).value;
            ValueBraces(us) == a + b || ValueBraces(us) == a + Braces(item) + b
  {
    hide Braces, ArrayItems, RenderedArray;
    if fields == [] {
      a, b := "", "";
      RenderedArrayBraces([item]);
      assert [item][1..] == [] && AllBraces([]) == "";
      assert [Field(name, RenderedArray([item]))][1..] == [];
    } else if fields[0].name == name {
      var items := ArrayItems(fields[0].value).value;
      a, b := Braces(fields[0].value), ValueBraces(fields[1..]);
      ArrayItemsBraces(fields[0].value);
      RenderedArrayBraces(WithItem(items, item));
      AllBracesConcat(items, [item]);
      assert [item][1..] == [] && AllBraces([]) == "";
      var f := Field(name, RenderedArray(WithItem(items, item)));
      assert ([f] + fields[1..])[1..] == fields[1..];
    } else {
      var a', b' := UpdatedBraces(fields[1..], name, item);
      a, b := Braces(fields[0].value) + a', b';
      var us := WithFieldItem(fields[1..], name, item).value;
      assert ([fields[0]] + us)[1..] == us;
      assert a + b == Braces(fields[0].value) + (a' + b');
      assert a + Braces(item) + b == Braces(fields[0].value) + (a' + Braces(item) + b');
    }
  }

  lemma {:induction false} UpdatedNames(fields: seq<Field>, name: string, item: string)
    requires NamedFields(fields) && IsName(name) && WithFieldItem(fields, name, item).Ok?
    ensures NamedFields(WithFieldItem(fields, name, item).value)
  {
    if fields != [] && fields[0].name != name {
      UpdatedNames(fields[1..], name, item);
    }
  }

  lemma ScannedNames(s: string)
    requires Fields(s).Ok?
    ensures NamedFields(Fields(s).value)
  {
    FieldsScanned(s);
  }

  // Counting braces over the new body text leaves the attribute's brace open, as over the old text.
  lemma UpdatedBodyBraces(text: string, name: string, item: string)
    requires Fields(text).Ok? && WithFieldItem(Fields(text).value, name, item).Ok?
    requires IsName(name) && BraceNeutral(item)
    ensures var rendered := RenderedFields(WithFieldItem(Fields(text).value, name, item).value);
            BracesLeft(rendered, 1) == BracesLeft(text, 1)
  {
    hide Braces, Fields, RenderedFields, IsName, BraceNeutral;
    var fields := Fields(text).value;
    var us := WithFieldItem(fields, name, item).value;
    ScannedNames(text);
    UpdatedNames(fields, name, item);
    FieldsBraces(text);
    RenderedBraces(us);
    var a, b := UpdatedBraces(fields, name, item);
    NeutralBetween(a, item, b);
    OnlyBracesCount(text, 1);
    OnlyBracesCount(RenderedFields(us), 1);
  }

  // ----- The attribute is found in the same place.

  lemma SameOccurrence(a: string, b: string, needle: string, k: nat, n: nat)
    requires k + |needle| <= n <= |a| && n <= |b| && a[..n] == b[..n]
    ensures OccursAt(b, needle, k) <==> OccursAt(a, needle, k)
  {
    assert a[k..k + |needle|] == a[..n][k..k + |needle|] == b[k..k + |needle|];
  }

  lemma SamePrefix(source: string, other: string, start: nat)
    requires BodyStart(source) == Ok(start) && start <= |other| && other[..start] == source[..start]
    ensures BodyStart(other) == Ok(start)
  {
    hide FindFrom, Span;
    var attribute := Find(source, ATTRIBUTE).value;
    var offset := Span(source[attribute..], BeforeBrace);
    SpanOf(source[attribute..], BeforeBrace);
    assert forall i :: 0 <= i < start ==> other[i] == other[..start][i] && source[i] == source[..start][i];
    assert forall i :: 0 <= i < |ATTRIBUTE| ==> source[attribute..][i] == source[attribute..attribute + |ATTRIBUTE|][i];
    assert offset >= |ATTRIBUTE|;
    forall k | 0 <= k <= attribute
      ensures OccursAt(other, ATTRIBUTE, k) <==> OccursAt(source, ATTRIBUTE, k)
    {
      SameOccurrence(source, other, ATTRIBUTE, k, start);
    }
    FindIs(other, ATTRIBUTE, attribute);
    assert forall i :: 0 <= i <= offset ==> other[attribute..][i] == source[attribute..][i];
    SpanIs(other[attribute..], BeforeBrace, offset);
  }

  // ----- Frame: only the text between the braces changes, and they stay matched.

  lemma UpsertFrame(source: string, name: string, item: string)
    requires Upserted(source, name, item).Ok? && IsName(name) && BraceNeutral(item)
    ensures var out := Upserted(source, name, item).value;
            var (start, end) := ModuleBody(source).value;
            var end' := |out| - (|source| - end);
            && ModuleBody(out) == Ok((start, end'))
            && out[..start] == source[..start]
            && out[end'..] == source[end..]
            && Ok(out[start..end']) == match WithFieldItem(Fields(source[start..end]).value, name, item)
                                       case Ok(fields) => Ok(RenderedFields(fields))
                                       case Err(e) => Err(e)
  {
    hide Braces, Fields, WithFieldItem, RenderedFields, BraceNeutral, IsName, CloseOffset, BodyStart, BracesLeft;
    var (start, end) := ModuleBody(source).value;
    var text := source[start..end];
    var rendered := RenderedFields(WithFieldItem(Fields(text).value, name, item).value);
    var out := source[..start] + rendered + source[end..];
    UpdatedBodyBraces(text, name, item);
    CloseOffsetSound(source[start..], 1);
    assert source[start..][..end - start] == text;
    assert out[..start] == source[..start];
    SamePrefix(source, out, start);
    assert out[start..] == rendered + source[end..];
    assert source[end..][0] == source[start..][end - start];
    CloseOffsetComplete(rendered, source[end..], 1);
  }

  // ----- Meaning: one array gains one item, once; every other field stays as it was.

  // Position of the first field called `name`, or the number of fields.
  function FirstNamed(fields: seq<Field>, name: string): nat {
    if fields == [] || fields[0].name == name then 0 else 1 + FirstNamed(fields[1..], name)
  }

  lemma {:induction false} UpdateShape(fields: seq<Field>, name: string, item: string)
    ensures var i := FirstNamed(fields, name);
            && i <= |fields|
            && (forall j :: 0 <= j < i ==> fields[j].name != name)
            && (i < |fields| ==> fields[i].name == name)
            && WithFieldItem(fields, name, item) ==
               if i == |fields| then Ok(fields + [Field(name, RenderedArray([item]))])
               else match ArrayItems(fields[i].value)
                    case Ok(items) => Ok(fields[i := Field(name, RenderedArray(WithItem(items, item)))])
                    case Err(e) => Err(e)
  {
    hide ArrayItems, RenderedArray;
    if fields != [] && fields[0].name != name {
      UpdateShape(fields[1..], name, item);
      var i := FirstNamed(fields, name);
      assert forall j :: 0 < j < i ==> fields[j] == fields[1..][j - 1];
      if i == |fields| {
        var f := Field(name, RenderedArray([item]));
        assert [fields[0]] + (fields[1..] + [f]) == fields + [f];
      } else {
        match ArrayItems(fields[i].value) {
          case Ok(items) =>
            var f := Field(name, RenderedArray(WithItem(items, item)));
            assert [fields[0]] + fields[1..][i - 1 := f] == fields[i := f];
          case Err(_) =>
        }
      }
    } else if fields != [] {
      match ArrayItems(fields[0].value) {
        case Ok(items) =>
          var f := Field(name, RenderedArray(WithItem(items, item)));
          assert [f] + fields[1..] == fields[0 := f];
        case Err(_) =>
      }
    } else {
      assert [Field(name, RenderedArray([item]))] == fields + [Field(name, RenderedArray([item]))];
    }
  }

  // The target array, when there is one, has items both scanners agree on, and the body's last value is closed.
  predicate SafeFields(fields: seq<Field>, name: string) {
    && LastClosed(fields)
    && var i := FirstNamed(fields, name);
       i < |fields| && ArrayItems(fields[i].value).Ok? ==> WellFormedItems(ArrayItems(fields[i].value).value)
  }

  predicate SafeModule(source: string, name: string) {
    ModuleBody(source).Ok? ==>
      var (start, end) := ModuleBody(source).value;
      Fields(source[start..end]).Ok? ==> SafeFields(Fields(source[start..end]).value, name)
  }

  lemma WithItemWellFormed(items: seq<string>, item: string)
    requires WellFormedItems(items) && WellFormedItem(item)
    ensures WellFormedItems(WithItem(items, item))
  {
  }

  lemma UpdatedWellFormed(text: string, name: string, item: string)
    requires Fields(text).Ok? && SafeFields(Fields(text).value, name)
    requires IsName(name) && WellFormedItem(item)
    requires WithFieldItem(Fields(text).value, name, item).Ok?
    ensures WellFormedFields(WithFieldItem(Fields(text).value, name, item).value)
  {
    hide Fields, ArrayItems, RenderedArray, WithFieldItem, WellFormedItem, ScannedField, Closed, FirstNamed;
    var fields := Fields(text).value;
    var us := WithFieldItem(fields, name, item).value;
    ParsedWellFormed(text);
    UpdateShape(fields, name, item);
    var i := FirstNamed(fields, name);
    var items := [item];
    if i < |fields| {
      items := WithItem(ArrayItems(fields[i].value).value, item);
      WithItemWellFormed(ArrayItems(fields[i].value).value, item);
    }
    ArrayFieldWellFormed(name, items);
  }

  lemma ArrayFieldWellFormed(name: string, items: seq<string>)
    requires IsName(name) && WellFormedItems(items)
    ensures ScannedField(Field(name, RenderedArray(items))) && Closed(Field(name, RenderedArray(items)))
  {
    hide RenderedArray, Run, Quiet;
    ArrayIsTrimmed(items);
    ArrayIsComplete(items);
  }

  lemma ItemIsNeutral(item: string)
    requires WellFormedItem(item) && Matched(item, FLAT)
    ensures BraceNeutral(item)
  {
    hide BumpAll, Quiet, Run, Commaless, BracesLeft;
    forall open: nat | open >= 1 ensures BracesLeft(item, open) == Some(open) {
      MatchedBraces(item, FLAT, open);
    }
  }

  lemma {:induction false} MatchedBraces(s: string, d: Depths, open: nat)
    requires Matched(s, d) && open >= 1
    ensures BracesLeft(s, open + d.brace) == Some(open + BumpAll(d, s).brace)
    decreases |s|
  {
    if s != "" {
      MatchedBraces(s[1..], Bump(d, s[0]), open);
    }
  }

  // Reading the rewritten module gives the updated fields exactly when these are well formed.
  lemma UpsertReadsExactly(source: string, name: string, item: string)
    requires Upserted(source, name, item).Ok? && IsName(name) && BraceNeutral(item)
    ensures var out := Upserted(source, name, item).value;
            var (start, end) := ModuleBody(source).value;
            var updated := WithFieldItem(Fields(source[start..end]).value, name, item).value;
            && ModuleBody(out).Ok?
            && var (start', end') := ModuleBody(out).value;
               Fields(out[start'..end']) == Ok(updated) <==> WellFormedFields(updated)
  {
    hide Fields, WithFieldItem, RenderedFields, IsName, ModuleBody, BraceNeutral, WellFormedFields;
    var (start, end) := ModuleBody(source).value;
    UpsertFrame(source, name, item);
    FieldsRoundTripExactly(WithFieldItem(Fields(source[start..end]).value, name, item).value);
  }

  // So it does for every module whose target array and last value are in order.
  lemma UpsertReads(source: string, name: string, item: string)
    requires Upserted(source, name, item).Ok? && SafeModule(source, name)
    requires IsName(name) && WellFormedItem(item) && BraceNeutral(item)
    ensures var out := Upserted(source, name, item).value;
            var (start, end) := ModuleBody(source).value;
            && ModuleBody(out).Ok?
            && var (start', end') := ModuleBody(out).value;
               Fields(out[start'..end']) == WithFieldItem(Fields(source[start..end]).value, name, item)
  {
    hide Fields, WithFieldItem, RenderedFields, WellFormedItem, IsName, ModuleBody, BraceNeutral, SafeFields,
        WellFormedFields;
    var (start, end) := ModuleBody(source).value;
    UpsertReadsExactly(source, name, item);
    UpdatedWellFormed(source[start..end], name, item);
  }

  // The target array has gained the item, or is new; every other field is the same, in the same place.
  predicate GainsItem(fields: seq<Field>, fields': seq<Field>, name: string, item: string) {
    var i := FirstNamed(fields, name);
    && |fields'| == (if i >= |fields| then |fields| + 1 else |fields|)
    && i < |fields'|
    && (forall j :: 0 <= j < |fields| && j != i ==> fields'[j] == fields[j])
    && fields'[i].name == name
    && (if i >= |fields| then ArrayItems(fields'[i].value) == Ok([item])
        else match ArrayItems(fields[i].value)
             case Ok(items) => ArrayItems(fields'[i].value) == Ok(if item in items then items else items + [item])
             case Err(_) => false)
  }

  lemma UpdateGainsItem(fields: seq<Field>, name: string, item: string)
    requires SafeFields(fields, name) && WellFormedItem(item) && WithFieldItem(fields, name, item).Ok?
    ensures GainsItem(fields, WithFieldItem(fields, name, item).value, name, item)
  {
    hide WithFieldItem, WellFormedItem, FirstNamed, ArrayItems, RenderedArray;
    UpdateShape(fields, name, item);
    var i := FirstNamed(fields, name);
    if i == |fields| {
      WellFormedAreListed([item]);
      ArrayRoundTrip([item]);
    } else {
      var items := ArrayItems(fields[i].value).value;
      WithItemWellFormed(items, item);
      WellFormedAreListed(WithItem(items, item));
      ArrayRoundTrip(WithItem(items, item));
    }
  }

  lemma UpsertAddsItem(source: string, name: string, item: string)
    requires Upserted(source, name, item).Ok? && SafeModule(source, name)
    requires IsName(name) && WellFormedItem(item) && BraceNeutral(item)
    ensures var out := Upserted(source, name, item).value;
            var (start, end) := ModuleBody(source).value;
            && ModuleBody(out).Ok?
            && var (start', end') := ModuleBody(out).value;
            && Fields(out[start'..end']).Ok?
            && GainsItem(Fields(source[start..end]).value, Fields(out[start'..end']).value, name, item)
  {
    hide Fields, WithFieldItem, RenderedFields, WellFormedItem, IsName, ModuleBody, BraceNeutral, SafeFields, GainsItem;
    var (start, end) := ModuleBody(source).value;
    UpsertReads(source, name, item);
    UpdateGainsItem(Fields(source[start..end]).value, name, item);
  }

  // Upserting the same item again leaves the text as it is.
  lemma UpsertTwice(source: string, name: string, item: string)
    requires Upserted(source, name, item).Ok? && SafeModule(source, name)
    requires IsName(name) && WellFormedItem(item) && BraceNeutral(item)
    ensures Upserted(Upserted(source, name, item).value, name, item) == Upserted(source, name, item)
  {
    hide Fields, WithFieldItem, RenderedFields, WellFormedItem, IsName, ModuleBody, BraceNeutral, FirstNamed,
      ArrayItems, RenderedArray;
    var (start, end) := ModuleBody(source).value;
    var fields := Fields(source[start..end]).value;
    var us := WithFieldItem(fields, name, item).value;
    var out := Upserted(source, name, item).value;
    UpsertReads(source, name, item);
    UpsertFrame(source, name, item);
    SecondUpdate(fields, us, name, item);
    var (start', end') := ModuleBody(out).value;
    assert out == out[..start'] + out[start'..end'] + out[end'..];
  }

  lemma SecondUpdate(fields: seq<Field>, us: seq<Field>, name: string, item: string)
    requires WithFieldItem(fields, name, item) == Ok(us) && SafeFields(fields, name) && WellFormedItem(item)
    ensures WithFieldItem(us, name, item) == Ok(us)
  {
    hide WithFieldItem, WellFormedItem, ArrayItems, RenderedArray, FirstNamed;
    UpdateShape(fields, name, item);
    UpdateShape(us, name, item);
    var i := FirstNamed(fields, name);
    var k := FirstNamed(us, name);
    assert us[i].name == name;
    assert forall j :: 0 <= j < i ==> us[j] == fields[j];
    assert k == i;
    var items := [item];
    if i < |fields| {
      items := WithItem(ArrayItems(fields[i].value).value, item);
      WithItemWellFormed(ArrayItems(fields[i].value).value, item);
    }
    WellFormedAreListed(items);
    ArrayRoundTrip(items);
    assert WithItem(items, item) == items;
    assert us[i := us[i]] == us;
  }
}
