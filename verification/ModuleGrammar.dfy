/** The texts of module metadata, written down as a grammar over literal characters: what a value, a field
    list, an array and a whole module look like, and that the rewriter reads them as such. */
module ModuleGrammar {
  import opened Results
  import opened Text
  import opened ModuleMetadata
  import opened ModuleArrays
  import opened ModuleFields
  import opened ModuleUpsert
  import opened ModuleTwice

  // ----- Values: plain text, strings with escapes, and groups in one of three kinds of brackets.

  datatype Piece = One(c: char) | Escaped(c: char)

  datatype Bracket = Square | Curly | Round

  datatype Node = Chars(text: string) | Quoted(pieces: seq<Piece>) | Group(bracket: Bracket, nodes: seq<Node>)

  function PiecesText(pieces: seq<Piece>): string {
    if pieces == [] then ""
    else
      (match pieces[0]
       case One(c) => [c]
       case Escaped(c) => ['\\', c])
      + PiecesText(pieces[1..])
  }

  function Opener(b: Bracket): char {
    match b
    case Square => '['
    case Curly => '{'
    case Round => '('
  }

  function Closer(b: Bracket): char {
    match b
    case Square => ']'
    case Curly => '}'
    case Round => ')'
  }

  function NodeText(n: Node): string {
    match n
    case Chars(text) => text
    case Quoted(pieces) => "\"" + PiecesText(pieces) + "\""
    case Group(b, nodes) => [Opener(b)] + NodesText(nodes) + [Closer(b)]
  }

  function NodesText(nodes: seq<Node>): string {
    if nodes == [] then "" else NodeText(nodes[0]) + NodesText(nodes[1..])
  }

  predicate Plain(c: char) {
    c != '[' && c != ']' && c != '{' && c != '}' && c != '(' && c != ')' && c != '"'
  }

  // Plain text holds no bracket and no quote; a string holds no quote and no backslash, unless escaped.
  predicate ValidNode(n: Node) {
    match n
    case Chars(text) => forall i :: 0 <= i < |text| ==> Plain(text[i])
    case Quoted(pieces) => forall i :: 0 <= i < |pieces| && pieces[i].One? ==> pieces[i].c != '"' && pieces[i].c != '\\'
    case Group(_, nodes) => ValidNodes(nodes)
  }

  predicate ValidNodes(nodes: seq<Node>) {
    nodes == [] || (ValidNode(nodes[0]) && ValidNodes(nodes[1..]))
  }

  predicate CommaFree(n: Node) {
    n.Chars? ==> ',' !in n.text
  }

  // No comma stands outside strings and groups.
  predicate OneValue(nodes: seq<Node>) {
    forall i :: 0 <= i < |nodes| ==> CommaFree(nodes[i])
  }

  // ----- The field scanner reads a value as one unit.

  lemma {:induction false} PiecesRun(pieces: seq<Piece>, st: Scan)
    requires forall i :: 0 <= i < |pieces| && pieces[i].One? ==> pieces[i].c != '"' && pieces[i].c != '\\'
    requires st.inString && !st.prevEscape
    ensures Run(st, PiecesText(pieces)) == st && Quiet(PiecesText(pieces), st)
    decreases |pieces|
  {
    if pieces != [] {
      var rest := PiecesText(pieces[1..]);
      PiecesRun(pieces[1..], st);
      match pieces[0] {
        case One(c) =>
          assert ([c] + rest)[1..] == rest;
        case Escaped(c) =>
          var text := ['\\', c] + rest;
          assert text[1..] == [c] + rest && text[1..][1..] == rest;
      }
    }
  }

  lemma {:induction false} PlainRunAt(text: string, st: Scan)
    requires (forall i :: 0 <= i < |text| ==> Plain(text[i])) && !st.inString
    ensures Run(st, text) == st && (st.depths != FLAT || ',' !in text ==> Quiet(text, st))
    decreases |text|
  {
    if text != "" {
      PlainRunAt(text[1..], st);
    }
  }

  function Inside(b: Bracket, st: Scan): Scan {
    match b
    case Square => st.(depths := st.depths.(bracket := st.depths.bracket + 1))
    case Curly => st.(depths := st.depths.(brace := st.depths.brace + 1))
    case Round => st.(depths := st.depths.(paren := st.depths.paren + 1))
  }

  lemma BracketRun(b: Bracket, st: Scan)
    requires !st.inString
    ensures Run(st, [Opener(b)]) == Inside(b, st) && Quiet([Opener(b)], st)
    ensures Run(Inside(b, st), [Closer(b)]) == st && Quiet([Closer(b)], Inside(b, st))
    ensures Inside(b, st).depths != FLAT
  {
    assert [Opener(b)][1..] == "" && [Closer(b)][1..] == "";
  }

  lemma QuoteRun(st: Scan)
    requires !st.inString && !st.prevEscape
    ensures Run(st, "\"") == st.(inString := true) && Quiet("\"", st)
    ensures Run(st.(inString := true), "\"") == st && Quiet("\"", st.(inString := true))
  {
    assert "\""[1..] == "";
  }

  lemma {:induction false} NodeRun(n: Node, st: Scan)
    requires ValidNode(n) && !st.inString && !st.prevEscape
    ensures Run(st, NodeText(n)) == st && (st.depths != FLAT || CommaFree(n) ==> Quiet(NodeText(n), st))
    decreases n, 1
  {
    hide Run, Quiet, Step, Inside;
    match n {
      case Chars(text) => PlainRunAt(text, st);
      case Quoted(pieces) =>
        QuoteRun(st);
        var within := st.(inString := true);
        PiecesRun(pieces, within);
        RunConcat("\"", PiecesText(pieces), st);
        RunConcat("\"" + PiecesText(pieces), "\"", st);
      case Group(b, nodes) =>
        BracketRun(b, st);
        InsideScan(b, st);
        NodesRun(nodes, Inside(b, st));
        RunConcat([Opener(b)], NodesText(nodes), st);
        RunConcat([Opener(b)] + NodesText(nodes), [Closer(b)], st);
    }
  }

  lemma InsideScan(b: Bracket, st: Scan)
    ensures Inside(b, st).inString == st.inString && Inside(b, st).prevEscape == st.prevEscape
  {
  }

  lemma {:induction false} NodesRun(nodes: seq<Node>, st: Scan)
    requires ValidNodes(nodes) && !st.inString && !st.prevEscape
    ensures Run(st, NodesText(nodes)) == st && (st.depths != FLAT || OneValue(nodes) ==> Quiet(NodesText(nodes), st))
    decreases nodes, 0
  {
    hide Step, CommaFree;
    if nodes != [] {
      NodeRun(nodes[0], st);
      NodesRun(nodes[1..], st);
      RunConcat(NodeText(nodes[0]), NodesText(nodes[1..]), st);
    }
  }

  // ----- Field lists, in any layout.

  // What may stand between two fields, and before the first and after the last.
  predicate Gap(s: string) {
    forall i :: 0 <= i < |s| ==> s[i] == ' ' || s[i] == '\n' || s[i] == '\t' || s[i] == ','
  }

  // What may stand between a name and its colon.
  predicate Blanks(s: string) {
    forall i :: 0 <= i < |s| ==> s[i] == ' ' || s[i] == '\n' || s[i] == '\t'
  }

  predicate NameLetter(c: char) {
    'a' <= c <= 'z' || 'A' <= c <= 'Z' || c == '_' || '0' <= c <= '9'
  }

  predicate NameText(s: string) {
    s != "" && forall i :: 0 <= i < |s| ==> NameLetter(s[i])
  }

  datatype FieldLayout = FieldLayout(
    before: string,
    name: string,
    blanks: string,
    left: string,
    nodes: seq<Node>,
    right: string)

  predicate ValidLayout(l: FieldLayout) {
    && Gap(l.before) && NameText(l.name) && Blanks(l.blanks)
    && AllWhitespace(l.left) && AllWhitespace(l.right)
    && ValidNodes(l.nodes) && OneValue(l.nodes) && Trimmed(NodesText(l.nodes))
  }

  predicate ValidLayouts(ls: seq<FieldLayout>) {
    forall i :: 0 <= i < |ls| ==> ValidLayout(ls[i])
  }

  function LaidText(l: FieldLayout): string {
    l.before + (l.name + (l.blanks + (":" + (l.left + NodesText(l.nodes) + l.right))))
  }

  // The fields, each followed by a comma, and then the tail.
  function Written(ls: seq<FieldLayout>, tail: string): string {
    if ls == [] then tail else LaidText(ls[0]) + ("," + Written(ls[1..], tail))
  }

  function FieldsOf(ls: seq<FieldLayout>): seq<Field> {
    if ls == [] then [] else [Field(ls[0].name, NodesText(ls[0].nodes))] + FieldsOf(ls[1..])
  }

  lemma Classes(c: char)
    ensures In(Separator, c) <==> c == ' ' || c == '\n' || c == '\t' || c == ','
    ensures In(Blank, c) <==> c == ' ' || c == '\n' || c == '\t'
    ensures In(NameChar, c) <==> NameLetter(c)
  {
  }

  lemma NameIsName(name: string)
    ensures NameText(name) <==> IsName(name)
  {
  }

  // The value of a field: everything up to the comma, without the whitespace around it.
  lemma ValueRead(l: FieldLayout, rest: string)
    requires ValidLayout(l) && (rest == "" || rest[0] == ',')
    ensures var text := l.left + NodesText(l.nodes) + l.right;
            && ValueLen(text + rest, START) == |text| && Trim(text) == NodesText(l.nodes)
  {
    hide Run, Quiet, Step, Trim, Trimmed, ValidNodes, OneValue, NodesText, ValueLen;
    var value := NodesText(l.nodes);
    NodesRun(l.nodes, START);
    BlankRun(l.left, START);
    BlankRun(l.right, START);
    RunConcat(l.left, value, START);
    RunConcat(l.left + value, l.right, START);
    ValueLenConcat(l.left + value + l.right, rest, START);
    TrimPadded(l.left, value, l.right);
    ValueEnds(rest);
  }

  lemma ValueEnds(rest: string)
    requires rest == "" || rest[0] == ','
    ensures ValueLen(rest, START) == 0
  {
  }

  lemma SpanOnly(s: string, rest: string, k: CharClass)
    requires (forall i :: 0 <= i < |s| ==> In(k, s[i])) && (rest != "" ==> !In(k, rest[0]))
    ensures Span(s + rest, k) == |s| && (s + rest)[..|s|] == s && (s + rest)[|s|..] == rest
  {
    hide In;
    assert forall i :: 0 <= i < |s| ==> (s + rest)[i] == s[i];
    SpanIs(s + rest, k, |s|);
  }

  lemma NotPartOfName(blanks: string, colon: string)
    requires (forall i :: 0 <= i < |blanks| ==> In(Blank, blanks[i])) && colon != "" && colon[0] == ':'
    ensures blanks + colon != "" && !In(NameChar, (blanks + colon)[0]) && !In(Blank, colon[0])
  {
    assert (blanks + colon)[0] == if blanks == "" then ':' else blanks[0];
  }

  lemma Parted(a: string, b: string)
    ensures (a + b)[..|a|] == a && (a + b)[|a|..] == b
  {
  }

  lemma NextFieldIs(name: string, blanks: string, text: string, rest: string)
    requires name != "" && forall i :: 0 <= i < |name| ==> In(NameChar, name[i])
    requires forall i :: 0 <= i < |blanks| ==> In(Blank, blanks[i])
    requires ValueLen(text + rest, START) == |text|
    ensures NextField(name + (blanks + (":" + (text + rest)))) == Ok(Cut(Field(name, Trim(text)), SkipComma(rest)))
  {
    hide Span, In, ValueLen, Trim, SkipComma;
    var colon := ":" + (text + rest);
    NotPartOfName(blanks, colon);
    SpanOnly(name, blanks + colon, NameChar);
    SpanOnly(blanks, colon, Blank);
    Parted(":", text + rest);
    Parted(text, rest);
  }

  lemma LaidRead(l: FieldLayout, rest: string)
    requires ValidLayout(l) && (rest == "" || rest[0] == ',')
    ensures var front := l.name + (l.blanks + (":" + (l.left + NodesText(l.nodes) + l.right + rest)));
            && front != "" && !In(Separator, front[0])
            && NextField(front) == Ok(Cut(Field(l.name, NodesText(l.nodes)), SkipComma(rest)))
  {
    hide Span, ValueLen, Trim, Trimmed, ValidNodes, OneValue, NodesText, SkipComma, NextField;
    ValueRead(l, rest);
    NextFieldIs(l.name, l.blanks, l.left + NodesText(l.nodes) + l.right, rest);
  }

  // A field in any layout, followed by its comma or by the end, is read, and reading goes on behind it.
  lemma FirstLaid(l: FieldLayout, rest: string)
    requires ValidLayout(l) && (rest == "" || rest[0] == ',')
    ensures Fields(LaidText(l) + rest) == Joined([Field(l.name, NodesText(l.nodes))], Fields(SkipComma(rest)))
  {
    hide Fields, NextField, Span, Trimmed, ValidNodes, OneValue, NodesText, SkipComma, Joined;
    var front := l.name + (l.blanks + (":" + (l.left + NodesText(l.nodes) + l.right + rest)));
    LaidRead(l, rest);
    LaidShape(l, rest);
    var all := l.before + front;
    assert forall i :: 0 <= i < |l.before| ==> all[i] == l.before[i];
    SpanIs(all, Separator, |l.before|);
    assert all[|l.before|..] == front;
    FirstField(l.before, front);
  }

  lemma LaidShape(l: FieldLayout, rest: string)
    ensures LaidText(l) + rest ==
            l.before + (l.name + (l.blanks + (":" + (l.left + NodesText(l.nodes) + l.right + rest))))
  {
    hide NodesText;
  }

  // Fields in any layout are read in order, whatever follows the last comma.
  lemma {:induction false} WrittenRead(ls: seq<FieldLayout>, tail: string)
    requires ValidLayouts(ls)
    ensures Fields(Written(ls, tail)) == Joined(FieldsOf(ls), Fields(tail))
  {
    hide Fields, LaidText, ValidLayout, NodesText, Joined;
    if ls == [] {
      JoinedAgain([], [], Fields(tail));
    } else {
      var rest := Written(ls[1..], tail);
      FirstLaid(ls[0], "," + rest);
      AfterTheComma(rest);
      WrittenRead(ls[1..], tail);
      JoinedAgain([Field(ls[0].name, NodesText(ls[0].nodes))], FieldsOf(ls[1..]), Fields(tail));
    }
  }

  lemma AfterTheComma(rest: string)
    ensures SkipComma("," + rest) == rest
  {
    assert ("," + rest)[1..] == rest;
  }

  lemma GapRead(s: string)
    requires Gap(s)
    ensures Fields(s) == Ok([])
  {
    SpanIs(s, Separator, |s|);
  }

  // Every list of fields in any layout, with or without a comma after the last, is accepted and read as
  // that list.
  lemma LayoutsRead(ls: seq<FieldLayout>, last: Option<FieldLayout>, tail: string)
    requires ValidLayouts(ls) && (last.Some? ==> ValidLayout(last.value)) && (last.None? ==> Gap(tail))
    ensures last.None? ==> Fields(Written(ls, tail)) == Ok(FieldsOf(ls))
    ensures last.Some? ==> Fields(Written(ls, LaidText(last.value))) == Ok(FieldsOf(ls) + FieldsOf([last.value]))
  {
    hide Fields, LaidText, ValidLayout, NodesText;
    if last.None? {
      WrittenRead(ls, tail);
      GapRead(tail);
      JoinedAgain(FieldsOf(ls), [], Ok([]));
    } else {
      var l := last.value;
      WrittenRead(ls, LaidText(l));
      FirstLaid(l, "");
      assert LaidText(l) + "" == LaidText(l);
      GapRead("");
      assert [l][1..] == [] && FieldsOf([]) == [];
      assert FieldsOf([l]) == [Field(l.name, NodesText(l.nodes))] + [];
      NothingToSkip();
    }
  }

  lemma NothingToSkip()
    ensures SkipComma("") == ""
  {
  }

  // ----- What is refused, and how.

  // A character that begins no name.
  lemma NameRefused(ls: seq<FieldLayout>, gap: string, c: char, rest: string)
    requires ValidLayouts(ls) && Gap(gap) && !NameLetter(c) && !Gap([c])
    ensures Fields(Written(ls, gap + ([c] + rest))) == Err(BadFieldName)
  {
    hide Fields, LaidText, ValidLayout, NextField;
    var front := [c] + rest;
    assert [c][0] == c;
    assert forall i :: 0 <= i < |gap| ==> (gap + front)[i] == gap[i];
    SpanIs(gap + front, Separator, |gap|);
    assert (gap + front)[|gap|..] == front;
    RefusedName(front);
    RefusedFirst(gap, front, BadFieldName);
    WrittenRead(ls, gap + front);
  }

  lemma RefusedName(front: string)
    requires front != "" && !NameLetter(front[0])
    ensures NextField(front) == Err(BadFieldName)
  {
    hide ValueLen, Trim;
    SpanIs(front, NameChar, 0);
  }

  lemma RefusedFirst(pad: string, front: string, e: RewriteError)
    requires NextField(front) == Err(e) && front != ""
    requires Span(pad + front, Separator) == |pad| && (pad + front)[|pad|..] == front
    ensures Fields(pad + front) == Err(e)
  {
    hide NextField, Span;
  }

  // A name that no colon follows.
  lemma ColonRefused(ls: seq<FieldLayout>, gap: string, name: string, blanks: string, rest: string)
    requires ValidLayouts(ls) && Gap(gap) && NameText(name) && Blanks(blanks)
    requires rest == "" || (rest[0] != ':' && !Blanks([rest[0]]) && (blanks == "" ==> !NameLetter(rest[0])))
    ensures Fields(Written(ls, gap + (name + (blanks + rest)))) == Err(MissingColon(name))
  {
    hide Fields, LaidText, ValidLayout, NextField;
    var after := blanks + rest;
    var front := name + after;
    assert rest != "" ==> [rest[0]][0] == rest[0];
    assert forall i :: 0 <= i < |gap| ==> (gap + front)[i] == gap[i];
    SpanIs(gap + front, Separator, |gap|);
    assert (gap + front)[|gap|..] == front;
    RefusedColon(name, blanks, rest);
    RefusedFirst(gap, front, MissingColon(name));
    WrittenRead(ls, gap + front);
  }

  lemma RefusedColon(name: string, blanks: string, rest: string)
    requires NameText(name) && Blanks(blanks)
    requires rest == "" || (rest[0] != ':' && !Blanks([rest[0]]) && (blanks == "" ==> !NameLetter(rest[0])))
    ensures NextField(name + (blanks + rest)) == Err(MissingColon(name))
  {
    hide ValueLen, Trim, Span;
    var after := blanks + rest;
    var front := name + after;
    assert rest != "" ==> [rest[0]][0] == rest[0];
    assert forall i :: 0 <= i < |name| ==> front[i] == name[i];
    assert forall i :: 0 <= i < |blanks| ==> after[i] == blanks[i];
    SpanIs(front, NameChar, |name|);
    assert front[|name|..] == after && front[..|name|] == name;
    SpanIs(after, Blank, |blanks|);
    assert after[|blanks|..] == rest;
  }

  // ----- Arrays, in any layout.

  datatype ItemLayout = ItemLayout(left: string, item: string, right: string)

  // An item, or nothing at all: an empty place between two commas is passed over.
  predicate ValidItem(l: ItemLayout) {
    AllWhitespace(l.left) && AllWhitespace(l.right) && (l.item == "" || ListedItem(l.item))
  }

  predicate ValidItems(ls: seq<ItemLayout>) {
    forall i :: 0 <= i < |ls| ==> ValidItem(ls[i])
  }

  // The items with commas between them.
  function ItemsText(ls: seq<ItemLayout>): string {
    if ls == [] then ""
    else
      var text := ls[0].left + ls[0].item + ls[0].right;
      if |ls| == 1 then text else text + ("," + ItemsText(ls[1..]))
  }

  function ItemsOf(ls: seq<ItemLayout>): seq<string> {
    if ls == [] then [] else (if ls[0].item == "" then [] else [ls[0].item]) + ItemsOf(ls[1..])
  }

  lemma ItemKept(l: ItemLayout)
    requires ValidItem(l)
    ensures var text := l.left + l.item + l.right;
            && Commaless(text, FLAT) && BumpAll(FLAT, text) == FLAT
            && Keep(text) == if l.item == "" then [] else [l.item]
  {
    hide Trim, Trimmed, BumpAll, Commaless;
    NothingScanned();
    BumpWhitespace(l.left, FLAT);
    BumpWhitespace(l.right, FLAT);
    BumpConcat(l.left, l.item, FLAT);
    BumpConcat(l.left + l.item, l.right, FLAT);
    CommalessConcat(l.left, l.item, FLAT);
    CommalessConcat(l.left + l.item, l.right, FLAT);
    EmptyTrimmed();
    TrimPadded(l.left, l.item, l.right);
  }

  lemma EmptyTrimmed()
    ensures Trimmed("")
  {
  }

  lemma {:induction false} ItemsTextRead(ls: seq<ItemLayout>)
    requires ValidItems(ls)
    ensures Items(ItemsText(ls), FLAT, "") == ItemsOf(ls)
  {
    hide Items, BumpAll, Commaless, ValidItem, Keep;
    if ls == [] {
      LastItem(FLAT, "");
      ItemKept(ItemLayout("", "", "")) by { NoItemText(); }
      assert "" + "" + "" == "";
    } else {
      var text := ls[0].left + ls[0].item + ls[0].right;
      ItemKept(ls[0]);
      if |ls| == 1 {
        assert ls[1..] == [];
        ItemsConcat(text, "", FLAT, "");
        assert text + "" == text && "" + text == text;
        LastItem(FLAT, text);
        assert Keep(text) + [] == Keep(text);
      } else {
        var rest := ItemsText(ls[1..]);
        ItemsConcat(text, "," + rest, FLAT, "");
        assert "" + text == text;
        ItemsComma(rest, text);
        ItemsTextRead(ls[1..]);
      }
    }
  }

  lemma NoItemText()
    ensures ValidItem(ItemLayout("", "", ""))
  {
  }

  // An array in any layout, with or without a comma after its last item, is read as its items.
  lemma ArrayRead(left: string, ls: seq<ItemLayout>, right: string)
    requires AllWhitespace(left) && AllWhitespace(right) && ValidItems(ls)
    ensures ArrayItems(left + ("[" + ItemsText(ls) + "]") + right) == Ok(ItemsOf(ls))
  {
    hide Items, ItemsText, ItemsOf, Trim, IsArray, ValidItem;
    Unbracketed(ItemsText(ls));
    var text := "[" + ItemsText(ls) + "]";
    BracketsTrimmed(ItemsText(ls));
    TrimPadded(left, text, right);
    ItemsTextRead(ls);
  }

  lemma BracketsTrimmed(inner: string)
    ensures Trimmed("[" + inner + "]")
  {
  }

  // ----- Items of the grammar: the item scanner does not know strings, so these hold no bracket or comma.

  predicate TamePiece(p: Piece) {
    Plain(p.c) && p.c != ','
  }

  predicate TameNode(n: Node) {
    match n
    case Chars(_) => true
    case Quoted(pieces) => forall i :: 0 <= i < |pieces| ==> TamePiece(pieces[i])
    case Group(_, nodes) => TameNodes(nodes)
  }

  predicate TameNodes(nodes: seq<Node>) {
    nodes == [] || (TameNode(nodes[0]) && TameNodes(nodes[1..]))
  }

  lemma {:induction false} PlainBump(text: string, d: Depths)
    requires forall i :: 0 <= i < |text| ==> Plain(text[i]) || text[i] == '"'
    ensures BumpAll(d, text) == d && (d != FLAT || ',' !in text ==> Commaless(text, d))
    decreases |text|
  {
    if text != "" {
      PlainBump(text[1..], d);
    }
  }

  lemma {:induction false} TameText(pieces: seq<Piece>)
    requires forall i :: 0 <= i < |pieces| ==> TamePiece(pieces[i])
    ensures forall i :: 0 <= i < |PiecesText(pieces)| ==> Plain(PiecesText(pieces)[i]) && PiecesText(pieces)[i] != ','
  {
    if pieces != [] {
      TameText(pieces[1..]);
      assert TamePiece(pieces[0]);
    }
  }

  function Deeper(b: Bracket, d: Depths): Depths {
    match b
    case Square => d.(bracket := d.bracket + 1)
    case Curly => d.(brace := d.brace + 1)
    case Round => d.(paren := d.paren + 1)
  }

  lemma BracketBump(b: Bracket, d: Depths)
    ensures BumpAll(d, [Opener(b)]) == Deeper(b, d) && Commaless([Opener(b)], d)
    ensures BumpAll(Deeper(b, d), [Closer(b)]) == d && Commaless([Closer(b)], Deeper(b, d))
    ensures Deeper(b, d) != FLAT
  {
    assert [Opener(b)][1..] == "" && [Closer(b)][1..] == "";
  }

  lemma {:induction false} NodeBump(n: Node, d: Depths)
    requires ValidNode(n) && TameNode(n)
    ensures BumpAll(d, NodeText(n)) == d && (d != FLAT || CommaFree(n) ==> Commaless(NodeText(n), d))
    decreases n, 1
  {
    hide BumpAll, Commaless, Bump, Deeper;
    match n {
      case Chars(text) => PlainBump(text, d);
      case Quoted(pieces) =>
        TameText(pieces);
        PlainBump("\"" + PiecesText(pieces) + "\"", d);
      case Group(b, nodes) =>
        BracketBump(b, d);
        NodesBump(nodes, Deeper(b, d));
        BumpConcat([Opener(b)], NodesText(nodes), d);
        BumpConcat([Opener(b)] + NodesText(nodes), [Closer(b)], d);
        CommalessConcat([Opener(b)], NodesText(nodes), d);
        CommalessConcat([Opener(b)] + NodesText(nodes), [Closer(b)], d);
    }
  }

  lemma {:induction false} NodesBump(nodes: seq<Node>, d: Depths)
    requires ValidNodes(nodes) && TameNodes(nodes)
    ensures BumpAll(d, NodesText(nodes)) == d && (d != FLAT || OneValue(nodes) ==> Commaless(NodesText(nodes), d))
    decreases nodes, 0
  {
    hide Bump, CommaFree;
    if nodes != [] {
      NodeBump(nodes[0], d);
      NodesBump(nodes[1..], d);
      BumpConcat(NodeText(nodes[0]), NodesText(nodes[1..]), d);
      CommalessConcat(NodeText(nodes[0]), NodesText(nodes[1..]), d);
    }
  }

  // Paths, calls and groups are items, and both scanners read them as one unit.
  lemma NodesAreItem(nodes: seq<Node>)
    requires ValidNodes(nodes) && TameNodes(nodes) && OneValue(nodes)
    requires NodesText(nodes) != "" && Trimmed(NodesText(nodes))
    ensures WellFormedItem(NodesText(nodes))
  {
    hide NodesText, ValidNodes, TameNodes, OneValue, Run, Quiet, BumpAll, Commaless, Trimmed;
    NodesBump(nodes, FLAT);
    NodesRun(nodes, IN_ARRAY);
  }

  // ----- A whole module.

  // The attribute `#[module(`, text without an opening brace, and the body between braces that match.
  predicate ModuleLayout(source: string, before: string, gap: string, body: string, after: string) {
    && source == before + ("#[module(" + gap + "{" + (body + ("}" + after)))
    && (forall k :: 0 <= k < |before| ==> !OccursAt(source, "#[module(", k))
    && '{' !in gap && BracesLeft(body, 1) == Some(1)
  }

  lemma GapPassed(gap: string, rest: string)
    requires '{' !in gap
    ensures Span("#[module(" + gap + "{" + rest, BeforeBrace) == 9 + |gap|
  {
    var tail := "#[module(" + gap + "{" + rest;
    assert forall j :: 0 <= j < |gap| ==> gap[j] in gap;
    assert forall i :: 0 <= i < 9 + |gap| ==> tail[i] == if i < 9 then "#[module("[i] else gap[i - 9];
    SpanIs(tail, BeforeBrace, 9 + |gap|);
  }

  lemma StartFound(source: string, before: string, gap: string, rest: string)
    requires source == before + ("#[module(" + gap + "{" + rest) && '{' !in gap
    requires forall k :: 0 <= k < |before| ==> !OccursAt(source, "#[module(", k)
    ensures var start := |before| + 9 + |gap| + 1;
            BodyStart(source) == Ok(start) && start <= |source| && source[start..] == rest
  {
    hide FindFrom, Span;
    var tail := "#[module(" + gap + "{" + rest;
    assert source[|before|..] == tail;
    assert source[|before|..|before| + 9] == tail[..9] == "#[module(";
    FindIs(source, ATTRIBUTE, |before|);
    GapPassed(gap, rest);
    assert source[|before| + 9 + |gap| + 1..] == tail[9 + |gap| + 1..] == rest;
  }

  lemma LayoutFound(source: string, before: string, gap: string, body: string, after: string)
    requires ModuleLayout(source, before, gap, body, after)
    ensures var start := |before| + 9 + |gap| + 1;
            && ModuleBody(source) == Ok((start, start + |body|))
            && start + |body| < |source| && source[start..start + |body|] == body
  {
    hide BodyStart, CloseOffset, BracesLeft, OccursAt;
    var rest := body + ("}" + after);
    StartFound(source, before, gap, rest);
    var start := |before| + 9 + |gap| + 1;
    assert source[start..start + |body|] == rest[..|body|] == body;
    CloseOffsetComplete(body, "}" + after, 1);
  }

  // The first place where the attribute is written.
  predicate AttributeAt(source: string, k: int) {
    && 0 <= k && OccursAt(source, "#[module(", k)
    && forall j :: 0 <= j < k ==> !OccursAt(source, "#[module(", j)
  }

  lemma OneAttribute(source: string, k: int)
    requires AttributeAt(source, k)
    ensures forall j :: AttributeAt(source, j) ==> j == k
  {
    hide OccursAt;
  }

  lemma StartExactly(source: string)
    ensures BodyStart(source) == Err(MissingAttribute) <==> forall k :: !OccursAt(source, "#[module(", k)
    ensures BodyStart(source) == Err(MissingBody) <==> exists k :: AttributeAt(source, k) && '{' !in source[k..]
    ensures BodyStart(source).Ok? ==>
              exists before, gap :: StartsBody(source, before, gap, source[BodyStart(source).value..])
    ensures BodyStart(source).Err? ==> BodyStart(source).error in {MissingAttribute, MissingBody}
  {
    hide Find, Span, OccursAt, StartsBody;
    assert ATTRIBUTE == "#[module(";
    match Find(source, ATTRIBUTE) {
      case None =>
        assert forall k :: !OccursAt(source, ATTRIBUTE, k);
      case Some(k) =>
        assert AttributeAt(source, k);
        hide AttributeAt;
        OneAttribute(source, k);
        StartAfter(source, k);
    }
  }

  // The text up to and with the brace that opens the body.
  predicate StartsBody(source: string, before: string, gap: string, rest: string) {
    && source == before + ("#[module(" + gap + "{" + rest)
    && AttributeAt(source, |before|) && '{' !in gap
  }

  lemma StartAfter(source: string, k: nat)
    requires AttributeAt(source, k)
    ensures k <= |source|
    ensures var n := Span(source[k..], BeforeBrace);
            && ('{' !in source[k..] <==> k + n == |source|)
            && (k + n < |source| ==>
                  n >= 9 && StartsBody(source, source[..k], source[k + 9..k + n], source[k + n + 1..]))
  {
    hide Span, In;
    var tail := source[k..];
    var n := Span(tail, BeforeBrace);
    UpToBrace(tail);
    assert tail[..9] == "#[module(";
    if n < |tail| {
      hide StartsBody, AttributeAt;
      AttributeInFront(tail, n);
      Slices(source, k, n);
      NotIn(tail[..n], tail[9..n], 9);
      Starts(source, source[..k], tail[9..n], tail[n + 1..], tail);
    }
  }

  lemma Slices(source: string, k: nat, n: nat)
    requires k + n < |source| && n >= 9
    ensures source[k + 9..k + n] == source[k..][9..n] && source[k + n + 1..] == source[k..][n + 1..]
    ensures source == source[..k] + source[k..] && source[k..][..n][9..] == source[k..][9..n]
  {
  }

  lemma Starts(source: string, before: string, gap: string, rest: string, tail: string)
    requires source == before + tail && tail == "#[module(" + gap + "{" + rest
    requires AttributeAt(source, |before|) && '{' !in gap
    ensures StartsBody(source, before, gap, rest)
  {
    hide AttributeAt;
  }

  lemma NotIn(s: string, part: string, from: nat)
    requires from <= |s| && part == s[from..] && '{' !in s
    ensures '{' !in part
  {
  }

  lemma AttributeInFront(tail: string, n: nat)
    requires |tail| >= 9 && tail[..9] == "#[module(" && n < |tail| && tail[n] == '{'
    ensures n >= 9 && tail == "#[module(" + tail[9..n] + "{" + tail[n + 1..]
  {
    assert forall i :: 0 <= i < 9 ==> tail[i] == "#[module("[i] != '{';
    assert tail == tail[..9] + tail[9..n] + [tail[n]] + tail[n + 1..];
  }

  // The text in front of the first opening brace.
  lemma UpToBrace(s: string)
    ensures var n := Span(s, BeforeBrace);
            '{' !in s[..n] && (n < |s| ==> s[n] == '{') && ('{' !in s <==> n == |s|)
  {
    SpanOf(s, BeforeBrace);
    assert s == s[..Span(s, BeforeBrace)] + s[Span(s, BeforeBrace)..];
  }

  // The three errors, and when each is given; there is a body exactly when the text is laid out as one.
  lemma BodyExactly(source: string)
    ensures ModuleBody(source) == Err(MissingAttribute) <==> !Contains(source, "#[module(")
    ensures ModuleBody(source) == Err(MissingBody) <==> exists k :: AttributeAt(source, k) && '{' !in source[k..]
    ensures ModuleBody(source).Ok? <==>
            exists before, gap, body, after :: ModuleLayout(source, before, gap, body, after)
    ensures ModuleBody(source).Err? ==> ModuleBody(source).error in {MissingAttribute, MissingBody, MissingClose}
  {
    hide BodyStart, CloseOffset, BracesLeft, StartsBody, ModuleLayout;
    StartExactly(source);
    ContainedAt(source);
    forall before, gap, body, after | ModuleLayout(source, before, gap, body, after) ensures ModuleBody(source).Ok? {
      LayoutFound(source, before, gap, body, after);
    }
    if ModuleBody(source).Ok? {
      var start := BodyStart(source).value;
      var before, gap :| StartsBody(source, before, gap, source[start..]);
      BodyLaidOut(source, before, gap, source[start..]);
    }
  }

  lemma ContainedAt(source: string)
    ensures Contains(source, "#[module(") <==> exists k :: OccursAt(source, "#[module(", k)
  {
    assert forall k :: OccursAt(source, "#[module(", k) ==> 0 <= k <= |source|;
  }

  lemma BodyLaidOut(source: string, before: string, gap: string, rest: string)
    requires StartsBody(source, before, gap, rest) && CloseOffset(rest, 1).Some?
    ensures exists body, after :: ModuleLayout(source, before, gap, body, after)
  {
    hide CloseOffset, BracesLeft, OccursAt;
    var k := CloseOffset(rest, 1).value;
    CloseOffsetSound(rest, 1);
    assert rest == rest[..k] + ("}" + rest[k + 1..]);
    assert ModuleLayout(source, before, gap, rest[..k], rest[k + 1..]);
  }

  // A value in brackets, with nothing but whitespace around them.
  predicate BracketedText(value: string) {
    var t := Trim(value);
    |t| >= 2 && t[0] == '[' && t[|t| - 1] == ']'
  }

  predicate FirstOf(fields: seq<Field>, name: string, i: int) {
    && 0 <= i < |fields| && fields[i].name == name
    && forall j :: 0 <= j < i ==> fields[j].name != name
  }

  lemma UpsertedIs(source: string, start: nat, end: nat, fields: seq<Field>, name: string, item: string)
    requires start <= end <= |source| && ModuleBody(source) == Ok((start, end))
    requires Fields(source[start..end]) == Ok(fields)
    ensures Upserted(source, name, item).Ok? <==> WithFieldItem(fields, name, item).Ok?
  {
    hide ModuleBody, Fields, WithFieldItem, RenderedFields;
  }

  // The body of a module, with or without a comma after its last field, and the fields it has.
  function BodyText(ls: seq<FieldLayout>, last: Option<FieldLayout>, tail: string): string {
    Written(ls, if last.Some? then LaidText(last.value) else tail)
  }

  function AllFields(ls: seq<FieldLayout>, last: Option<FieldLayout>): seq<Field> {
    FieldsOf(ls) + (if last.Some? then FieldsOf([last.value]) else [])
  }

  predicate ValidBody(ls: seq<FieldLayout>, last: Option<FieldLayout>, tail: string) {
    ValidLayouts(ls) && (if last.Some? then ValidLayout(last.value) else Gap(tail))
  }

  lemma BodyReads(ls: seq<FieldLayout>, last: Option<FieldLayout>, tail: string)
    requires ValidBody(ls, last, tail)
    ensures Fields(BodyText(ls, last, tail)) == Ok(AllFields(ls, last))
  {
    hide Fields, Written, FieldsOf, LaidText, ValidLayout;
    LayoutsRead(ls, last, tail);
    assert FieldsOf(ls) + [] == FieldsOf(ls);
  }

  // The upsert of a module in any layout is accepted exactly when the first field of the name, if there
  // is one, is an array.
  lemma UpsertAcceptsExactly(source: string, before: string, gap: string, ls: seq<FieldLayout>,
                             last: Option<FieldLayout>, tail: string, after: string, name: string, item: string)
    requires ValidBody(ls, last, tail) && ModuleLayout(source, before, gap, BodyText(ls, last, tail), after)
    ensures Upserted(source, name, item).Ok? <==>
            forall i :: FirstOf(AllFields(ls, last), name, i) ==> BracketedText(AllFields(ls, last)[i].value)
  {
    hide Fields, BodyText, AllFields, ValidBody, WithFieldItem, ModuleLayout, ModuleBody, BracketedText, Upserted;
    var body := BodyText(ls, last, tail);
    LayoutFound(source, before, gap, body, after);
    BodyReads(ls, last, tail);
    var start := |before| + 9 + |gap| + 1;
    UpsertedIs(source, start, start + |body|, AllFields(ls, last), name, item);
    UpdateAccepts(AllFields(ls, last), name, item);
  }

  lemma UpdateAccepts(fields: seq<Field>, name: string, item: string)
    ensures WithFieldItem(fields, name, item).Ok? <==>
            forall i :: FirstOf(fields, name, i) ==> BracketedText(fields[i].value)
  {
    hide Items, Trim, RenderedArray, WithFieldItem, FirstNamed;
    UpdateShape(fields, name, item);
    var i := FirstNamed(fields, name);
    if i < |fields| {
      assert FirstOf(fields, name, i);
      assert forall j :: FirstOf(fields, name, j) ==> j == i;
    }
  }
}
