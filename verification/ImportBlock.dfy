/** Registering a generated item in a module file: its import block and its metadata entry. */
module ImportBlock {
  import opened Results
  import opened Text
  import opened ModuleMetadata
  import opened ModuleArrays
  import opened ModuleFields
  import opened ModuleUpsert
  import opened ModuleTwice
  import ModuleRewriter

  datatype Import = Import(relativePath: string, moduleIdent: string, typeName: string)

  function ModLine(im: Import): string {
    "#[path = \"" + im.relativePath + "\"]\nmod " + im.moduleIdent + ";\n"
  }

  function UseLine(im: Import): string {
    "use " + im.moduleIdent + "::" + im.typeName + ";\n"
  }

  function MissingLines(source: string, im: Import): string {
    (if Contains(source, ModLine(im)) then "" else ModLine(im)) +
    (if Contains(source, UseLine(im)) then "" else UseLine(im))
  }

  function WithImport(source: string, im: Import): string {
    var missing := MissingLines(source, im);
    (if missing == "" then "" else missing + "\n") + source
  }

  method EnsureImportBlock(source: string, im: Import) returns (updated: string)
    ensures updated == WithImport(source, im)
  {
    updated := "";
    if !Contains(source, ModLine(im)) {
      updated := updated + ModLine(im);
    }
    if !Contains(source, UseLine(im)) {
      updated := updated + UseLine(im);
    }
    if updated != "" {
      updated := updated + "\n";
    }
    updated := updated + source;
  }

  // The lines as text: what is missing goes in front of the file, the path attribute and the module first,
  // with an empty line behind.
  lemma ImportText(source: string, im: Import)
    ensures var m := "#[path = \"" + im.relativePath + "\"]\nmod " + im.moduleIdent + ";\n";
            var u := "use " + im.moduleIdent + "::" + im.typeName + ";\n";
            && (!Contains(source, m) && !Contains(source, u) ==> WithImport(source, im) == m + u + "\n" + source)
            && (!Contains(source, m) && Contains(source, u) ==> WithImport(source, im) == m + "\n" + source)
            && (Contains(source, m) && !Contains(source, u) ==> WithImport(source, im) == u + "\n" + source)
            && (Contains(source, m) && Contains(source, u) ==> WithImport(source, im) == source)
  {
    hide Contains;
    var m := ModLine(im);
    var u := UseLine(im);
    Texts(m, u, source);
    assert |m| > 0 && |u| > 0;
  }

  lemma Texts(m: string, u: string, source: string)
    ensures m + "" == m && "" + u == u && "" + "" == "" && "" + source == source
  {
  }

  lemma ContainsWithin(before: string, hay: string, after: string, needle: string)
    requires Contains(hay, needle)
    ensures Contains(before + hay + after, needle)
  {
    var k :| 0 <= k <= |hay| && OccursAt(hay, needle, k);
    var whole := before + hay + after;
    assert whole[|before| + k..|before| + k + |needle|] == hay[k..k + |needle|];
    assert OccursAt(whole, needle, |before| + k);
  }

  lemma ContainsItself(needle: string)
    ensures Contains(needle, needle)
  {
    assert needle[0..|needle|] == needle;
    assert OccursAt(needle, needle, 0);
  }

  // The old text stays at the end, both lines are present, and nothing is added a second time.
  lemma ImportOnce(source: string, im: Import)
    ensures var out := WithImport(source, im);
            && |source| <= |out| && out[|out| - |source|..] == source
            && Contains(out, ModLine(im)) && Contains(out, UseLine(im))
            && WithImport(out, im) == out
  {
    hide ModLine, UseLine, Contains;
    var out := WithImport(source, im);
    var m, u := ModLine(im), UseLine(im);
    var m' := if Contains(source, m) then "" else m;
    var u' := if Contains(source, u) then "" else u;
    var gap := if m' + u' == "" then "" else "\n";
    assert out == m' + u' + gap + source;
    if Contains(source, m) {
      ContainsWithin(m' + u' + gap, source, "", m);
      assert m' + u' + gap + source + "" == out;
    } else {
      ContainsItself(m);
      ContainsWithin("", m, u' + gap + source, m);
      assert "" + m + (u' + gap + source) == out;
    }
    if Contains(source, u) {
      ContainsWithin(m' + u' + gap, source, "", u);
      assert m' + u' + gap + source + "" == out;
    } else {
      ContainsItself(u);
      ContainsWithin(m', u, gap + source, u);
      assert m' + u + (gap + source) == out;
    }
    assert "" + "" == "" && "" + out == out;
  }

  // ----- register_generated_item, on the file's text.

  function Registered(source: string, im: Import, name: string): Result<string, RewriteError> {
    Upserted(WithImport(source, im), name, im.typeName)
  }

  method RegisterGeneratedItem(source: string, im: Import, moduleField: string)
      returns (r: Result<string, RewriteError>)
    ensures r == Registered(source, im, moduleField)
  {
    var updated := EnsureImportBlock(source, im);
    r := ModuleRewriter.UpsertModuleMetadata(updated, moduleField, im.typeName);
  }

  // The line stands before the attribute body or after it, where the rewriter never touches it.
  predicate OutsideBody(source: string, line: string) {
    ModuleBody(source).Ok? ==>
      var (start, end) := ModuleBody(source).value;
      Contains(source[..start], line) || Contains(source[end..], line)
  }

  // Lines that had to be added always do: they stand in front of the whole file.
  lemma AddedOutside(source: string, im: Import, line: string)
    requires (line == ModLine(im) || line == UseLine(im)) && !Contains(source, line)
    requires !Contains(MissingLines(source, im), ATTRIBUTE)
    ensures OutsideBody(WithImport(source, im), line)
  {
    hide ModLine, UseLine, Contains, CloseOffset, BodyStart;
    var missing := MissingLines(source, im);
    var m := if Contains(source, ModLine(im)) then "" else ModLine(im);
    var u := if Contains(source, UseLine(im)) then "" else UseLine(im);
    LinesNotEmpty(im);
    var out := WithImport(source, im);
    assert out == missing + "\n" + source;
    AttributeBehind(missing, source);
    if BodyStart(out).Ok? {
      var start := BodyStart(out).value;
      assert out[..start] == missing + out[|missing|..start];
      InFront(m, u, out[|missing|..start], if line == ModLine(im) then m else u);
    }
  }

  lemma InFront(m: string, u: string, rest: string, line: string)
    requires line == m || line == u
    ensures Contains(m + u + rest, line)
  {
    hide Contains;
    ContainsItself(line);
    if line == m {
      ContainsWithin("", line, u + rest, line);
      assert "" + line + (u + rest) == m + u + rest;
    } else {
      ContainsWithin(m, line, rest, line);
    }
  }

  lemma LinesNotEmpty(im: Import)
    ensures ModLine(im) != "" && UseLine(im) != ""
  {
  }

  lemma AttributeBehind(missing: string, source: string)
    requires !Contains(missing, ATTRIBUTE)
    ensures BodyStart(missing + "\n" + source).Ok? ==> BodyStart(missing + "\n" + source).value > |missing|
  {
    hide Span;
    var out := missing + "\n" + source;
    var k := Find(out, ATTRIBUTE);
    if k.Some? && k.value <= |missing| {
      var n := k.value + |ATTRIBUTE|;
      if n <= |missing| {
        assert missing[k.value..n] == out[k.value..n];
        assert OccursAt(missing, ATTRIBUTE, k.value);
      } else {
        assert out[|missing|] == '\n';
        assert ATTRIBUTE[|missing| - k.value] == out[k.value..n][|missing| - k.value];
      }
    }
  }

  lemma OutsideStays(source: string, out: string, start: nat, end: nat, end': nat, line: string)
    requires start <= end <= |source| && start <= end' <= |out|
    requires out[..start] == source[..start] && out[end'..] == source[end..]
    requires Contains(source[..start], line) || Contains(source[end..], line)
    ensures Contains(out, line)
  {
    hide Contains;
    assert out == "" + source[..start] + out[start..] && out == out[..end'] + source[end..] + "";
    if Contains(source[..start], line) {
      ContainsWithin("", source[..start], out[start..], line);
    } else {
      ContainsWithin(out[..end'], source[end..], "", line);
    }
  }

  // Generating and registering the same item twice writes the same file twice, exactly when the module is
  // stable.
  lemma RegisterTwiceExactly(source: string, im: Import, name: string)
    requires Registered(source, im, name).Ok? && IsName(name) && IsName(im.typeName)
    requires OutsideBody(WithImport(source, im), ModLine(im)) && OutsideBody(WithImport(source, im), UseLine(im))
    ensures var imported := WithImport(source, im);
            var (start, end) := ModuleBody(imported).value;
            Registered(Registered(source, im, name).value, im, name) == Registered(source, im, name)
            <==> Stable(Fields(imported[start..end]).value, name)
  {
    hide ModLine, UseLine, Contains, WithImport, BraceNeutral, IsName, Fields, WithFieldItem, RenderedFields, Stable,
      ModuleBody, WellFormedFields, ListedItems, NewItems;
    var imported := WithImport(source, im);
    var out := Registered(source, im, name).value;
    TypeNameIsItem(im.typeName);
    UpsertFrame(imported, name, im.typeName);
    UpsertTwiceExactly(imported, name, im.typeName);
    var (start, end) := ModuleBody(imported).value;
    var end' := |out| - (|imported| - end);
    OutsideStays(imported, out, start, end, end', ModLine(im));
    OutsideStays(imported, out, start, end, end', UseLine(im));
    NothingMissing(out, im);
  }

  lemma NothingMissing(source: string, im: Import)
    requires Contains(source, ModLine(im)) && Contains(source, UseLine(im))
    ensures WithImport(source, im) == source
  {
    assert "" + "" == "" && "" + source == source;
  }
}
