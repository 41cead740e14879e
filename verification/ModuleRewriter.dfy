/** The rewriter's loops, each proved to compute the format function of ModuleMetadata. */
module ModuleRewriter {
  import opened Results
  import opened Text
  import opened ModuleMetadata

  method FindModuleBody(source: string) returns (r: Result<(nat, nat), RewriteError>)
    ensures r == ModuleBody(source)
  {
    hide CloseOffset, BodyStart;
    var start := BodyStart(source);
    if start.Err? {
      return Err(start.error);
    }
    var braceStart := start.value;
    var depth := 1;
    var i := braceStart;
    while i < |source|
      invariant braceStart <= i <= |source| && depth >= 1
      invariant CloseOffset(source[braceStart..], 1) ==
                match CloseOffset(source[i..], depth) case None => None case Some(k) => Some(i - braceStart + k)
    {
      CloseStep(source, i, depth);
      if source[i] == '{' {
        depth := depth + 1;
      } else if source[i] == '}' {
        depth := depth - 1;
        if depth == 0 {
          return Ok((braceStart, i));
        }
      }
      i := i + 1;
    }
    NoClose(depth);
    return Err(MissingClose);
  }

  lemma CloseStep(source: string, i: nat, depth: nat)
    requires i < |source|
    ensures CloseOffset(source[i..], depth) ==
            if source[i] == '}' && depth <= 1 then Some(0)
            else
              match CloseOffset(source[i + 1..], if source[i] == '{' then depth + 1
                  else if source[i] == '}' then depth - 1 else depth)
              case None => None
              case Some(k) => Some(k + 1)
  {
    assert source[i..][1..] == source[i + 1..];
  }

  lemma NoClose(depth: nat)
    ensures CloseOffset("", depth) == None
  {
  }

  method SkipWhile(body: string, from: nat, k: CharClass) returns (index: nat)
    requires from <= |body|
    ensures index == from + Span(body[from..], k) <= |body|
  {
    index := from;
    while index < |body| && In(k, body[index])
      invariant from <= index <= |body|
      invariant forall i :: from <= i < index ==> In(k, body[i])
    {
      index := index + 1;
    }
    SpanIs(body[from..], k, index - from);
  }

  // The value scan of one field, up to its top-level comma.
  method SkipValue(body: string, from: nat) returns (index: nat)
    requires from <= |body|
    ensures index == from + ValueLen(body[from..], START) <= |body|
  {
    index := from;
    var depths, inString, prevEscape := FLAT, false, false;
    while index < |body|
      invariant from <= index <= |body|
      invariant ValueLen(body[from..], START) ==
                index - from + ValueLen(body[index..], Scan(depths, inString, prevEscape))
      decreases |body| - index
    {
      var ch := body[index];
      assert body[index..][1..] == body[index + 1..];
      if inString {
        if ch == '"' && !prevEscape {
          inString := false;
        }
        prevEscape := ch == '\\' && !prevEscape;
        index := index + 1;
        continue;
      }
      match ch {
        case '"' => inString, prevEscape := true, false;
        case '[' => depths := depths.(bracket := depths.bracket + 1);
        case ']' => depths := depths.(bracket := Pred(depths.bracket));
        case '{' => depths := depths.(brace := depths.brace + 1);
        case '}' => depths := depths.(brace := Pred(depths.brace));
        case '(' => depths := depths.(paren := depths.paren + 1);
        case ')' => depths := depths.(paren := Pred(depths.paren));
        case _ =>
          if ch == ',' && depths.bracket == 0 && depths.brace == 0 && depths.paren == 0 {
            break;
          }
      }
      index := index + 1;
    }
  }

  // The positions a round of the field loop stops at, against the fields's definition.
  lemma FieldCut(body: string, from: nat, nameEnd: nat, colon: nat, end: nat)
    requires from < nameEnd <= colon < |body| && colon + 1 <= end <= |body|
    requires nameEnd == from + Span(body[from..], NameChar)
    requires colon == nameEnd + Span(body[nameEnd..], Blank) && body[colon] == ':'
    requires end == colon + 1 + ValueLen(body[colon + 1..], START)
    ensures NextField(body[from..]) ==
            Ok(Cut(Field(body[from..nameEnd], Trim(body[colon + 1..end])), SkipComma(body[end..])))
  {
    hide Trim, ValueLen, Span, In, SkipComma;
    Slices(body, from, nameEnd);
    Slices(body, nameEnd, colon);
    Slices(body, colon, colon + 1);
    Slices(body, colon + 1, end);
  }

  lemma FieldMissing(body: string, from: nat, nameEnd: nat, colon: nat)
    requires from <= |body| && nameEnd == from + Span(body[from..], NameChar) <= |body|
    requires colon == nameEnd + Span(body[nameEnd..], Blank) <= |body|
    ensures from == nameEnd ==> NextField(body[from..]) == Err(BadFieldName)
    ensures from < nameEnd && (colon == |body| || body[colon] != ':') ==>
              NextField(body[from..]) == Err(MissingColon(body[from..nameEnd]))
  {
    hide Trim, ValueLen, Span, In, SkipComma;
    Slices(body, from, nameEnd);
    Slices(body, nameEnd, colon);
  }

  lemma CommaSkipped(body: string, index: nat)
    requires index <= |body|
    ensures SkipComma(body[index..]) == if index < |body| && body[index] == ',' then body[index + 1..]
        else body[index..]
  {
    if index < |body| {
      Slices(body, index, index + 1);
    }
  }

  // One round of the field loop, from the first character of a name.
  method ParseField(body: string, from: nat) returns (r: Result<Field, RewriteError>, index: nat)
    requires from < |body|
    ensures r.Ok? ==> from < index <= |body| && NextField(body[from..]) == Ok(Cut(r.value, body[index..]))
    ensures r.Err? ==> NextField(body[from..]) == Err(r.error)
  {
    hide Trim, ValueLen, Span, In, NextField, SkipComma;
    index := SkipWhile(body, from, NameChar);
    FieldMissing(body, from, index, index + Span(body[index..], Blank));
    if from == index {
      return Err(BadFieldName), index;
    }
    var fieldName := body[from..index];
    ghost var nameEnd := index;
    index := SkipWhile(body, index, Blank);
    if index >= |body| || body[index] != ':' {
      return Err(MissingColon(fieldName)), index;
    }
    ghost var colon := index;
    index := index + 1;
    var valueStart := index;
    index := SkipValue(body, index);
    r := Ok(Field(fieldName, Trim(body[valueStart..index])));
    FieldCut(body, from, nameEnd, colon, index);
    CommaSkipped(body, index);
    if index < |body| && body[index] == ',' {
      index := index + 1;
    }
  }

  method ParseModuleFields(body: string) returns (r: Result<seq<Field>, RewriteError>)
    ensures r == Fields(body)
  {
    var fields: seq<Field> := [];
    var index := 0;
    assert body[0..] == body && body[|body|..] == "";
    JoinedAgain([], [], Fields(body));
    while index < |body|
      invariant index <= |body|
      invariant Fields(body) == Joined(fields, Fields(body[index..]))
    {
      ghost var entry := index;
      index := SkipWhile(body, index, Separator);
      Slices(body, entry, index);
      if index >= |body| {
        JoinedAgain(fields, [], Ok([]));
        return Ok(fields);
      }
      var next;
      next, index := ParseField(body, index);
      if next.Err? {
        return Err(next.error);
      }
      JoinedAgain(fields, [next.value], Fields(body[index..]));
      fields := fields + [next.value];
    }
    JoinedAgain(fields, [], Ok([]));
    return Ok(fields);
  }

  method ParseArrayItems(value: string) returns (r: Result<seq<string>, RewriteError>)
    ensures r == ArrayItems(value)
  {
    var trimmed := Trim(value);
    if !IsArray(trimmed) {
      return Err(NotAnArray(trimmed));
    }
    var inner := trimmed[1..|trimmed| - 1];
    var items, current, depths := [], "", FLAT;
    assert inner[0..] == inner;
    for i := 0 to |inner|
      invariant Items(inner, FLAT, "") == items + Items(inner[i..], depths, current)
    {
      var ch := inner[i];
      assert inner[i..][1..] == inner[i + 1..];
      match ch {
        case '[' => depths := depths.(bracket := depths.bracket + 1); current := current + [ch];
        case ']' => depths := depths.(bracket := Pred(depths.bracket)); current := current + [ch];
        case '{' => depths := depths.(brace := depths.brace + 1); current := current + [ch];
        case '}' => depths := depths.(brace := Pred(depths.brace)); current := current + [ch];
        case '(' => depths := depths.(paren := depths.paren + 1); current := current + [ch];
        case ')' => depths := depths.(paren := Pred(depths.paren)); current := current + [ch];
        case _ =>
          if ch == ',' && depths == FLAT {
            ghost var before := items;
            var item := Trim(current);
            if item != "" {
              items := items + [item];
            }
            assert items == before + Keep(current);
            current := "";
          } else {
            current := current + [ch];
          }
      }
    }
    assert inner[|inner|..] == "";
    ghost var before := items;
    var tail := Trim(current);
    if tail != "" {
      items := items + [tail];
    }
    assert items == before + Keep(current);
    return Ok(items);
  }

  method RenderArrayItems(items: seq<string>) returns (rendered: string)
    ensures rendered == RenderedArray(items)
  {
    rendered := "[\n";
    for i := 0 to |items|
      invariant "[\n" + ItemLines(items) == rendered + ItemLines(items[i..])
    {
      rendered := rendered + "        " + items[i] + ",\n";
      assert items[i..][1..] == items[i + 1..];
    }
    rendered := rendered + "    ]";
  }

  lemma Regroup(a: string, b: string, c: string, d: string, e: string, f: string)
    ensures a + (b + c + d + e + f) == a + b + c + d + e + f
  {
  }

  lemma LinesStep(all: string, before: string, fields: seq<Field>, i: nat)
    requires i < |fields| && all == before + FieldLines(fields[i..])
    ensures all == before + FieldLine(fields[i]) + FieldLines(fields[i + 1..])
  {
    hide FieldLine;
    assert fields[i..][1..] == fields[i + 1..];
    assert before + (FieldLine(fields[i]) + FieldLines(fields[i + 1..])) ==
        before + FieldLine(fields[i]) + FieldLines(fields[i + 1..]);
  }

  lemma NoLines()
    ensures FieldLines([]) == ""
  {
  }

  method RenderModuleFields(fields: seq<Field>) returns (rendered: string)
    ensures rendered == RenderedFields(fields)
  {
    hide FieldLines, Trim;
    if |fields| == 0 {
      return "";
    }
    rendered := "\n";
    NoLines();
    assert fields[0..] == fields;
    for i := 0 to |fields|
      invariant "\n" + FieldLines(fields) == rendered + FieldLines(fields[i..])
    {
      ghost var before := rendered;
      var Field(name, value) := fields[i];
      if '\n' in value {
        rendered := rendered + "    " + name + ": " + value + ",\n";
      } else {
        rendered := rendered + "    " + name + ": " + Trim(value) + ",\n";
      }
      Regroup(before, "    ", name, ": ", if '\n' in value then value else Trim(value), ",\n");
      LinesStep("\n" + FieldLines(fields), before, fields, i);
    }
    assert fields[|fields|..] == [];
    assert rendered + "" == rendered;
  }

  lemma WithFieldItemAt(fields: seq<Field>, i: nat, name: string, item: string)
    requires i < |fields|
    ensures Joined(fields[..i], WithFieldItem(fields[i..], name, item)) ==
            if fields[i].name != name then Joined(fields[..i + 1], WithFieldItem(fields[i + 1..], name, item))
            else if ArrayItems(fields[i].value).Err? then Err(ArrayItems(fields[i].value).error)
            else Ok(fields[..i] + ([Field(name, RenderedArray(WithItem(ArrayItems(fields[i].value).value, item)))]
                + fields[i + 1..]))
  {
    hide ArrayItems, RenderedArray, WithItem;
    assert fields[i..][1..] == fields[i + 1..];
    if fields[i].name != name {
      JoinedAgain(fields[..i], [fields[i]], WithFieldItem(fields[i + 1..], name, item));
      assert fields[..i + 1] == fields[..i] + [fields[i]];
    }
  }

  lemma WithFieldItemEnd(fields: seq<Field>, name: string, item: string)
    ensures Joined(fields, WithFieldItem(fields[|fields|..], name, item)) ==
        Ok(fields + [Field(name, RenderedArray([item]))])
  {
    hide RenderedArray;
  }

  // The field loop of the upsert: update the first field with this name, or add one.
  method UpdateFields(parsed: seq<Field>, name: string, item: string) returns (r: Result<seq<Field>, RewriteError>)
    ensures r == WithFieldItem(parsed, name, item)
  {
    hide Joined, ArrayItems, RenderedArray, WithFieldItem;
    var fields := parsed;
    var updatedExisting := false;
    var i := 0;
    assert parsed[0..] == parsed;
    JoinedAgain([], [], WithFieldItem(parsed, name, item));
    while i < |fields|
      invariant fields == parsed && i <= |fields| && !updatedExisting
      invariant WithFieldItem(parsed, name, item) == Joined(parsed[..i], WithFieldItem(parsed[i..], name, item))
    {
      WithFieldItemAt(parsed, i, name, item);
      if fields[i].name == name {
        var items := ParseArrayItems(fields[i].value);
        if items.Err? {
          return Err(items.error);
        }
        var updated := items.value;
        if item !in updated {
          updated := updated + [item];
        }
        var value := RenderArrayItems(updated);
        fields := fields[i := Field(name, value)];
        updatedExisting := true;
        assert fields == parsed[..i] + ([Field(name, value)] + parsed[i + 1..]);
        break;
      }
      i := i + 1;
    }
    if !updatedExisting {
      assert parsed[..i] == parsed;
      WithFieldItemEnd(parsed, name, item);
      var value := RenderArrayItems([item]);
      fields := fields + [Field(name, value)];
    }
    return Ok(fields);
  }

  method UpsertModuleMetadata(source: string, fieldName: string, itemName: string)
      returns (r: Result<string, RewriteError>)
    ensures r == Upserted(source, fieldName, itemName)
  {
    var body := FindModuleBody(source);
    if body.Err? {
      return Err(body.error);
    }
    var (bodyStart, bodyEnd) := body.value;
    var fields := ParseModuleFields(source[bodyStart..bodyEnd]);
    if fields.Err? {
      return Err(fields.error);
    }
    var updated := UpdateFields(fields.value, fieldName, itemName);
    if updated.Err? {
      return Err(updated.error);
    }
    var rendered := RenderModuleFields(updated.value);
    return Ok(source[..bodyStart] + rendered + source[bodyEnd..]);
  }
}
