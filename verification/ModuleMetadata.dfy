/** The text format of a `#[module({ ... })]` attribute: what the scanners of
    nivasa-cli/src/main.rs accept and what its printers produce. */
module ModuleMetadata {
  import opened Results
  import opened Text

  datatype RewriteError =
    | MissingAttribute
    | MissingBody
    | MissingClose
    | BadFieldName
    | MissingColon(name: string)
    | NotAnArray(value: string)

  datatype Field = Field(name: string, value: string)

  // ----- Bracket counting, shared by the two scanners. Closers saturate at zero.

  datatype Depths = Depths(bracket: nat, brace: nat, paren: nat)

  const FLAT := Depths(0, 0, 0)

  function Pred(n: nat): nat {
    if n == 0 then 0 else n - 1
  }

  function Bump(d: Depths, c: char): Depths {
    match c
    case '[' => d.(bracket := d.bracket + 1)
    case ']' => d.(bracket := Pred(d.bracket))
    case '{' => d.(brace := d.brace + 1)
    case '}' => d.(brace := Pred(d.brace))
    case '(' => d.(paren := d.paren + 1)
    case ')' => d.(paren := Pred(d.paren))
    case _ => d
  }

  function BumpAll(d: Depths, s: string): Depths
    decreases |s|
  {
    if s == "" then d else BumpAll(Bump(d, s[0]), s[1..])
  }

  // ----- Character classes the scanners skip over.

  datatype CharClass = BeforeBrace | Separator | NameChar | Blank

  predicate In(k: CharClass, c: char) {
    match k
    case BeforeBrace => c != '{'
    case Separator => c == ' ' || c == '\n' || c == '\t' || c == ','
    case NameChar => 'a' <= c <= 'z' || 'A' <= c <= 'Z' || c == '_' || '0' <= c <= '9'
    case Blank => c == ' ' || c == '\n' || c == '\t'
  }

  // Length of the longest prefix made of characters that of class k.
  function Span(s: string, k: CharClass): (n: nat)
    ensures n <= |s|
  {
    if s != "" && In(k, s[0]) then 1 + Span(s[1..], k) else 0
  }

  lemma {:induction false} SpanIs(s: string, k: CharClass, n: nat)
    requires n <= |s|
    requires forall i :: 0 <= i < n ==> In(k, s[i])
    requires n < |s| ==> !In(k, s[n])
    ensures Span(s, k) == n
  {
    if n > 0 {
      SpanIs(s[1..], k, n - 1);
    }
  }

  lemma {:induction false} SpanOf(s: string, k: CharClass)
    ensures forall i :: 0 <= i < Span(s, k) ==> In(k, s[i])
    ensures Span(s, k) < |s| ==> !In(k, s[Span(s, k)])
  {
    if s != "" && In(k, s[0]) {
      SpanOf(s[1..], k);
      forall i | 0 <= i < Span(s, k) ensures In(k, s[i]) {
        if i > 0 {
          assert s[i] == s[1..][i - 1];
        }
      }
    }
  }

  // ----- Locating the body.

  const ATTRIBUTE := "#[module("

  // Offset of the `}` that closes `depth` open braces. Every brace counts, quoted or not.
  function CloseOffset(s: string, depth: nat): (r: Option<nat>)
    ensures r.Some? ==> r.value < |s|
  {
    if s == "" then None
    else if s[0] == '}' && depth <= 1 then Some(0)
    else
      var deeper := if s[0] == '{' then depth + 1 else if s[0] == '}' then depth - 1 else depth;
      match CloseOffset(s[1..], deeper)
      case None => None
      case Some(k) => Some(k + 1)
  }

  // Start of the attribute body, just after its `{`.
  function BodyStart(source: string): (r: Result<nat, RewriteError>)
    ensures r.Ok? ==> 0 < r.value <= |source|
  {
    match Find(source, ATTRIBUTE)
    case None => Err(MissingAttribute)
    case Some(attribute) =>
      var offset := Span(source[attribute..], BeforeBrace);
      if attribute + offset == |source| then Err(MissingBody) else Ok(attribute + offset + 1)
  }

  function ModuleBody(source: string): (r: Result<(nat, nat), RewriteError>)
    ensures r.Ok? ==> 0 < r.value.0 <= r.value.1 < |source|
  {
    var start :- BodyStart(source);
    match CloseOffset(source[start..], 1)
    case None => Err(MissingClose)
    case Some(k) => Ok((start, start + k))
  }

  // ----- Splitting the body into fields; this scanner knows strings.

  datatype Scan = Scan(depths: Depths, inString: bool, prevEscape: bool)

  const START := Scan(FLAT, false, false)

  function Step(st: Scan, c: char): Scan {
    if st.inString then
      Scan(st.depths, c != '"' || st.prevEscape, c == '\\' && !st.prevEscape)
    else if c == '"' then
      Scan(st.depths, true, false)
    else
      st.(depths := Bump(st.depths, c))
  }

  function Run(st: Scan, s: string): Scan
    decreases |s|
  {
    if s == "" then st else Run(Step(st, s[0]), s[1..])
  }

  predicate Stops(st: Scan, c: char) {
    c == ',' && !st.inString && st.depths == FLAT
  }

  // Length of the field value at the front of s: up to a top-level comma or the end.
  function ValueLen(s: string, st: Scan): (n: nat)
    ensures n <= |s|
  {
    if s == "" || Stops(st, s[0]) then 0 else 1 + ValueLen(s[1..], Step(st, s[0]))
  }

  function SkipComma(s: string): string {
    if s != "" && s[0] == ',' then s[1..] else s
  }

  datatype Cut = Cut(field: Field, rest: string)

  // The field at the front of s, and the text after it.
  function NextField(s: string): (r: Result<Cut, RewriteError>)
    ensures r.Ok? ==> |r.value.rest| < |s|
  {
    var n := Span(s, NameChar);
    if n == 0 then Err(BadFieldName)
    else
      var afterName := s[n..];
      var colon := afterName[Span(afterName, Blank)..];
      if colon == "" || colon[0] != ':' then Err(MissingColon(s[..n]))
      else
        var len := ValueLen(colon[1..], START);
        Ok(Cut(Field(s[..n], Trim(colon[1..][..len])), SkipComma(colon[1..][len..])))
  }

  function Fields(s: string): Result<seq<Field>, RewriteError>
    decreases |s|
  {
    var front := s[Span(s, Separator)..];
    if front == "" then Ok([])
    else
      var next :- NextField(front);
      var rest :- Fields(next.rest);
      Ok([next.field] + rest)
  }

  // What the fields read so far and the fields still to come make together.
  function Joined(fields: seq<Field>, rest: Result<seq<Field>, RewriteError>): Result<seq<Field>, RewriteError> {
    match rest
    case Ok(more) => Ok(fields + more)
    case Err(e) => Err(e)
  }

  lemma JoinedAgain(a: seq<Field>, b: seq<Field>, rest: Result<seq<Field>, RewriteError>)
    ensures Joined([], rest) == rest
    ensures Joined(a, Ok([])) == Ok(a)
    ensures Joined(a, Joined(b, rest)) == Joined(a + b, rest)
  {
    assert a + [] == a;
    match rest
    case Ok(more) =>
      assert [] + more == more;
      assert a + (b + more) == a + b + more;
    case Err(_) =>
  }

  // ----- Splitting an array value into items; this scanner ignores strings.

  function Keep(current: string): seq<string> {
    if Trim(current) == "" then [] else [Trim(current)]
  }

  function Items(inner: string, d: Depths, current: string): seq<string> {
    if inner == "" then Keep(current)
    else if inner[0] == ',' && d == FLAT then Keep(current) + Items(inner[1..], d, "")
    else Items(inner[1..], Bump(d, inner[0]), current + [inner[0]])
  }

  predicate IsArray(trimmed: string) {
    |trimmed| >= 2 && trimmed[0] == '[' && trimmed[|trimmed| - 1] == ']'
  }

  function ArrayItems(value: string): Result<seq<string>, RewriteError> {
    var trimmed := Trim(value);
    if IsArray(trimmed) then Ok(Items(trimmed[1..|trimmed| - 1], FLAT, ""))
    else Err(NotAnArray(trimmed))
  }

  // ----- Printing.

  function ItemLines(items: seq<string>): string {
    if items == [] then "" else "        " + items[0] + ",\n" + ItemLines(items[1..])
  }

  function RenderedArray(items: seq<string>): string {
    "[\n" + ItemLines(items) + "    ]"
  }

  function FieldLine(f: Field): string {
    "    " + f.name + ": " + (if '\n' in f.value then f.value else Trim(f.value)) + ",\n"
  }

  function FieldLines(fields: seq<Field>): string {
    if fields == [] then "" else FieldLine(fields[0]) + FieldLines(fields[1..])
  }

  function RenderedFields(fields: seq<Field>): string {
    if fields == [] then "" else "\n" + FieldLines(fields)
  }

  // ----- Inserting one item.

  function WithItem(items: seq<string>, item: string): seq<string> {
    if item in items then items else items + [item]
  }

  // Only the first field called `name` is touched; without one, a field is added at the end.
  function WithFieldItem(fields: seq<Field>, name: string, item: string): Result<seq<Field>, RewriteError> {
    if fields == [] then Ok([Field(name, RenderedArray([item]))])
    else if fields[0].name == name then
      var items :- ArrayItems(fields[0].value);
      Ok([Field(name, RenderedArray(WithItem(items, item)))] + fields[1..])
    else
      var rest :- WithFieldItem(fields[1..], name, item);
      Ok([fields[0]] + rest)
  }

  function Upserted(source: string, name: string, item: string): Result<string, RewriteError> {
    var body :- ModuleBody(source);
    var fields :- Fields(source[body.0..body.1]);
    var updated :- WithFieldItem(fields, name, item);
    Ok(source[..body.0] + RenderedFields(updated) + source[body.1..])
  }
}
