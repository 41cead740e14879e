/** What the upload parser makes of one part, with its headers in any layout, and which limit decides. */
module MultipartRules {
  import opened Results
  import opened Bytes
  import opened Multipart
  import opened MultipartBounds
  import opened MultipartRoundTrip

  // ----- The limits in force.

  // The limit that is named for the field, or else the one for any field.
  predicate LimitInForce(limits: MultipartLimits, field: bytes, limit: nat) {
    if field in limits.fieldLimits then limit == limits.fieldLimits[field] else limits.perField == Some(limit)
  }

  predicate FieldListed(limits: MultipartLimits, field: bytes) {
    limits.allowedFields == [] || exists i :: 0 <= i < |limits.allowedFields| && limits.allowedFields[i] == field
  }

  predicate TypeListed(limits: MultipartLimits, contentType: Option<bytes>) {
    || limits.allowedMimeTypes == []
    || (contentType.Some? &&
        exists i :: 0 <= i < |limits.allowedMimeTypes| && limits.allowedMimeTypes[i] == contentType.value)
  }

  // A file is accepted exactly when its field and its type are listed and it is no longer than the limit
  // in force. Otherwise the error says what was wrong first, and which limit was broken.
  lemma CheckedExactly(limits: MultipartLimits, f: ParsedFile)
    ensures var r := Checked(limits, f);
            var size := |f.file.content|;
            && (r == Ok(f) <==> FieldListed(limits, f.fieldName) && TypeListed(limits, f.file.contentType)
                                && forall limit :: LimitInForce(limits, f.fieldName, limit) ==> size <= limit)
            && (r.Ok? ==> r.value == f)
            && (!FieldListed(limits, f.fieldName) ==> r == Err(UnknownField(f.fieldName)))
            && (FieldListed(limits, f.fieldName) && !TypeListed(limits, f.file.contentType) ==>
                  r == Err(DisallowedMimeType(f.file.contentType)))
            && (forall limit ::
                  FieldListed(limits, f.fieldName) && TypeListed(limits, f.file.contentType)
                  && LimitInForce(limits, f.fieldName, limit) && size > limit ==>
                    r == Err(FieldTooLarge(f.fieldName, limit, size)))
  {
    if f.fieldName in limits.fieldLimits {
      assert LimitInForce(limits, f.fieldName, limits.fieldLimits[f.fieldName]);
    } else if limits.perField.Some? {
      assert LimitInForce(limits, f.fieldName, limits.perField.value);
    }
    MemberListed(limits.allowedFields, f.fieldName);
    if f.file.contentType.Some? {
      MemberListed(limits.allowedMimeTypes, f.file.contentType.value);
    }
  }

  lemma MemberListed(list: seq<bytes>, x: bytes)
    ensures x in list <==> exists i :: 0 <= i < |list| && list[i] == x
  {
  }

  // The limits have no say in how a part is read: whatever its bytes, it is read as without any limits, and a
  // file so read is accepted exactly when it is listed and within the limit of its own field, if there is
  // one, and otherwise within the one for any field.
  lemma PartAcceptedExactly(part: bytes, limits: MultipartLimits)
    ensures var read := ParsedPart(part, MultipartLimits(None, None, map[], [], []));
            && (read.Err? || read.value == [] ==> ParsedPart(part, limits) == read)
            && (read.Ok? ==> |read.value| <= 1)
            && forall f: ParsedFile :: read == Ok([f]) ==>
                 (ParsedPart(part, limits) == Ok([f]) <==>
                    && FieldListed(limits, f.fieldName) && TypeListed(limits, f.file.contentType)
                    && (if f.fieldName in limits.fieldLimits
                        then |f.file.content| <= limits.fieldLimits[f.fieldName]
                        else limits.perField == None || |f.file.content| <= limits.perField.value))
  {
    hide SplitOnce, ValidUtf8, WithHeaders, Split, Checked, FieldListed, TypeListed;
    var none := MultipartLimits(None, None, map[], [], []);
    forall f: ParsedFile ensures Checked(none, f) == Ok(f) {
      CheckedExactly(none, f);
      NothingListed(none, f);
    }
    forall f: ParsedFile
      ensures Checked(limits, f) == Ok(f) <==>
              && FieldListed(limits, f.fieldName) && TypeListed(limits, f.file.contentType)
              && (if f.fieldName in limits.fieldLimits
                  then |f.file.content| <= limits.fieldLimits[f.fieldName]
                  else limits.perField == None || |f.file.content| <= limits.perField.value)
    {
      CheckedExactly(limits, f);
      if f.fieldName in limits.fieldLimits {
        assert LimitInForce(limits, f.fieldName, limits.fieldLimits[f.fieldName]);
      } else if limits.perField.Some? {
        assert LimitInForce(limits, f.fieldName, limits.perField.value);
      }
    }
    forall f: ParsedFile ensures Checked(limits, f).Ok? ==> Checked(limits, f) == Ok(f) {
      CheckedExactly(limits, f);
    }
  }

  lemma NothingListed(none: MultipartLimits, f: ParsedFile)
    requires none == MultipartLimits(None, None, map[], [], [])
    ensures FieldListed(none, f.fieldName) && TypeListed(none, f.file.contentType)
    ensures forall limit :: !LimitInForce(none, f.fieldName, limit)
  {
  }

  // Every file an upload gives back is within the limit of its own field, if there is one, and otherwise
  // within the limit for any field.
  lemma UploadWithinLimits(boundary: Option<bytes>, body: bytes, limits: MultipartLimits)
    requires ParsedUpload(boundary, body, limits).Ok?
    ensures forall f :: f in ParsedUpload(boundary, body, limits).value ==>
              && FieldListed(limits, f.fieldName) && TypeListed(limits, f.file.contentType)
              && (f.fieldName in limits.fieldLimits ==> |f.file.content| <= limits.fieldLimits[f.fieldName])
              && (f.fieldName !in limits.fieldLimits && limits.perField.Some? ==>
                    |f.file.content| <= limits.perField.value)
  {
    hide ParsedUpload;
    UploadAccepted(boundary, body, limits);
    forall f | f in ParsedUpload(boundary, body, limits).value
      ensures FieldListed(limits, f.fieldName) && TypeListed(limits, f.file.contentType)
    {
      assert WithinLimits(limits, f);
      MemberListed(limits.allowedFields, f.fieldName);
      if f.file.contentType.Some? {
        MemberListed(limits.allowedMimeTypes, f.file.contentType.value);
      }
    }
    assert forall f :: f in ParsedUpload(boundary, body, limits).value ==> WithinLimits(limits, f);
  }

  // The boundary is asked for first, then the size of the whole body.
  lemma StreamRules(boundary: bytes, body: bytes, limits: MultipartLimits)
    ensures ParsedUpload(None, body, limits) == Err(MissingMultipartBoundary)
    ensures limits.wholeStream.Some? && |body| > limits.wholeStream.value ==>
              ParsedUpload(Some(boundary), body, limits) == Err(StreamTooLarge(limits.wholeStream.value, |body|))
  {
  }

  // ----- Header lines, in any layout.

  datatype Param =
    | NameParam(value: bytes, quoted: bool)
    | FilenameParam(value: bytes, quoted: bool)
    | OtherParam(text: bytes)

  datatype Padded = Padded(pad: bytes, param: Param)

  datatype HeaderValue =
    | Disposition(kind: bytes, params: seq<Padded>)
    | TypeIs(value: bytes)
    | Unknown(value: bytes)

  datatype Line = Line(before: bytes, name: bytes, after: bytes, left: bytes, value: HeaderValue, right: bytes)

  // Spaces and tabs.
  predicate Pad(s: bytes) {
    forall i :: 0 <= i < |s| ==> s[i] == 32 || s[i] == 9
  }

  // Text that begins and ends with a visible ASCII character.
  predicate Visible(s: bytes) {
    s != [] && 32 < s[0] < 0x80 && 32 < s[|s| - 1] < 0x80
  }

  predicate Letters(s: bytes) {
    s == [] || Visible(s)
  }

  // The same name as this one of small letters, in any case.
  predicate CaseOf(s: bytes, name: bytes) {
    |s| == |name| && forall i :: 0 <= i < |s| ==> s[i] == name[i] || (97 <= name[i] <= 122 && s[i] == name[i] - 32)
  }

  function ParamText(p: Param): bytes {
    match p
    case NameParam(v, quoted) => Ascii("name=") + (if quoted then [QUOTE] + v + [QUOTE] else v)
    case FilenameParam(v, quoted) => Ascii("filename=") + (if quoted then [QUOTE] + v + [QUOTE] else v)
    case OtherParam(text) => text
  }

  function ParamsText(params: seq<Padded>): bytes {
    if params == [] then []
    else [SEMICOLON] + (params[0].pad + ParamText(params[0].param)) + ParamsText(params[1..])
  }

  function ValueText(v: HeaderValue): bytes {
    match v
    case Disposition(kind, params) => kind + ParamsText(params)
    case TypeIs(value) => value
    case Unknown(value) => value
  }

  function LineText(l: Line): bytes {
    (l.before + l.name + l.after) + [COLON] + (l.left + ValueText(l.value) + l.right)
  }

  predicate ValidParam(p: Padded) {
    && Pad(p.pad) && Visible(ParamText(p.param)) && Lacks(ParamText(p.param), SEMICOLON)
    && match p.param
       case NameParam(v, _) => Lacks(v, QUOTE)
       case FilenameParam(v, _) => Lacks(v, QUOTE)
       case OtherParam(text) => !StartsWith(text, Ascii("name=")) && !StartsWith(text, Ascii("filename="))
  }

  predicate ValidParams(params: seq<Padded>) {
    forall i :: 0 <= i < |params| ==> ValidParam(params[i])
  }

  predicate ValidLine(l: Line) {
    && Pad(l.before) && Pad(l.after) && Pad(l.left) && Pad(l.right)
    && Visible(l.name) && Lacks(l.name, COLON) && Lacks(LineText(l), CR)
    && match l.value
       case Disposition(kind, params) =>
         CaseOf(l.name, Ascii("content-disposition")) && Visible(kind) && Lacks(kind, SEMICOLON) && ValidParams(params)
       case TypeIs(value) => CaseOf(l.name, Ascii("content-type")) && Letters(value)
       case Unknown(value) =>
         !CaseOf(l.name, Ascii("content-disposition")) && !CaseOf(l.name, Ascii("content-type")) && Letters(value)
  }

  // What a disposition's parameters say, the last of each kind counting.
  function AfterParams(h: PartHeaders, params: seq<Padded>): PartHeaders
    decreases |params|
  {
    if params == [] then h
    else
      var next :=
        match params[0].param
        case NameParam(v, _) => h.(fieldName := Some(v))
        case FilenameParam(v, _) => h.(filename := Some(v))
        case OtherParam(_) => h;
      AfterParams(next, params[1..])
  }

  function AfterLine(h: PartHeaders, l: Line): PartHeaders {
    match l.value
    case Disposition(_, params) => AfterParams(h, params)
    case TypeIs(value) => h.(contentType := Some(value))
    case Unknown(_) => h
  }

  function AfterLines(h: PartHeaders, ls: seq<Line>): PartHeaders
    decreases |ls|
  {
    if ls == [] then h else AfterLines(AfterLine(h, ls[0]), ls[1..])
  }

  // ----- Trimming and names.

  lemma {:induction false} PadStart(pad: bytes, s: bytes)
    requires Pad(pad)
    ensures TrimStart(pad + s) == TrimStart(s)
    decreases |pad|
  {
    if pad == [] {
      assert pad + s == s;
    } else {
      var whole := pad + s;
      assert whole[0] == pad[0] && whole[1..] == pad[1..] + s;
      assert WhitespaceLen(whole) == 1;
      PadStart(pad[1..], s);
    }
  }

  lemma {:induction false} PadEnd(s: bytes, pad: bytes)
    requires Pad(pad)
    ensures TrimEnd(s + pad) == TrimEnd(s)
    decreases |pad|
  {
    if pad == [] {
      assert s + pad == s;
    } else {
      var n := |pad| - 1;
      var whole := s + pad;
      assert whole[..|whole| - 1] == s + pad[..n];
      assert whole[|whole| - 1..] == [pad[n]];
      assert WhitespaceTail(whole) == 1;
      PadEnd(s, pad[..n]);
    }
  }

  lemma TrimPads(left: bytes, s: bytes, right: bytes)
    requires Pad(left) && Pad(right) && Letters(s)
    ensures Trim(left + s + right) == s
  {
    hide TrimStart, TrimEnd;
    assert left + s + right == left + (s + right);
    PadStart(left, s + right);
    if s == [] {
      assert s + right == right + [];
      PadStart(right, []);
      NothingTrimmed();
    } else {
      VisibleStart(s, right);
      PadEnd(s, right);
      VisibleTrimmed(s);
    }
  }

  lemma NothingTrimmed()
    ensures TrimStart([]) == [] && TrimEnd([]) == []
  {
  }

  lemma VisibleStart(s: bytes, right: bytes)
    requires Visible(s)
    ensures TrimStart(s + right) == s + right
  {
    assert (s + right)[0] == s[0];
  }

  lemma VisibleTrimmed(s: bytes)
    requires Visible(s)
    ensures TrimEnd(s) == s
  {
    VisibleEnds(s);
    VisibleStart(s, []);
    assert s + [] == s;
  }

  lemma CaseIgnored(s: bytes, name: bytes)
    requires forall i :: 0 <= i < |name| ==> !(65 <= name[i] <= 90)
    ensures SameIgnoringCase(s, name) <==> CaseOf(s, name)
  {
    forall i | 0 <= i < |s| && |s| == |name|
      ensures Lower(s[i]) == Lower(name[i]) <==> s[i] == name[i] || (97 <= name[i] <= 122 && s[i] == name[i] - 32)
    {
    }
  }

  lemma SmallLetters()
    ensures var a := Ascii("content-disposition"); forall i :: 0 <= i < |a| ==> !(65 <= a[i] <= 90)
    ensures var a := Ascii("content-type"); forall i :: 0 <= i < |a| ==> !(65 <= a[i] <= 90)
    ensures !CaseOf(Ascii("content-type"), Ascii("content-disposition"))
  {
  }

  // ----- Parameters.

  lemma Regrouped(a: bytes, b: bytes, c: bytes, d: bytes)
    ensures a + (b + c + d) == a + b + (c + d)
  {
  }

  lemma ParamsUnfold(params: seq<Padded>)
    requires params != []
    ensures var text := params[0].pad + ParamText(params[0].param);
            && ParamsText(params) == [SEMICOLON] + text + ParamsText(params[1..])
            && ParamTexts(params) == [text] + ParamTexts(params[1..])
  {
    hide ParamText;
  }

  lemma ParamsFront(kind: bytes, params: seq<Padded>)
    requires params != []
    ensures var text := params[0].pad + ParamText(params[0].param);
            && kind + ParamsText(params) == kind + [SEMICOLON] + (text + ParamsText(params[1..]))
            && ParamTexts(params) == [text] + ParamTexts(params[1..])
  {
    hide ParamText, ParamsText, ParamTexts;
    ParamsUnfold(params);
    Regrouped(kind, [SEMICOLON], params[0].pad + ParamText(params[0].param), ParamsText(params[1..]));
  }

  lemma {:induction false} ParamsSplit(kind: bytes, params: seq<Padded>)
    requires Lacks(kind, SEMICOLON) && ValidParams(params)
    ensures Split(kind + ParamsText(params), [SEMICOLON]) == [kind] + ParamTexts(params)
    decreases |params|
  {
    hide SplitOnce, Split, Lacks, Visible, Pad, StartsWith, Ascii, ParamText;
    if params == [] {
      assert kind + [] == kind;
      SplitNone(kind, SEMICOLON);
      UnsplitIs(kind);
    } else {
      hide ParamsText, ParamTexts;
      assert ValidParam(params[0]);
      var text := params[0].pad + ParamText(params[0].param);
      PadLacks(params[0].pad, ParamText(params[0].param));
      var rest := text + ParamsText(params[1..]);
      ParamsFront(kind, params);
      SplitAt(kind, SEMICOLON, rest);
      SplitIs(kind + [SEMICOLON] + rest, kind, rest);
      ParamsSplit(text, params[1..]);
    }
  }

  lemma UnsplitIs(s: bytes)
    requires SplitOnce(s, [SEMICOLON]) == None
    ensures Split(s, [SEMICOLON]) == [s]
  {
    hide SplitOnce;
  }

  lemma SplitIs(s: bytes, a: bytes, b: bytes)
    requires SplitOnce(s, [SEMICOLON]) == Some((a, b))
    ensures Split(s, [SEMICOLON]) == [a] + Split(b, [SEMICOLON])
  {
    hide SplitOnce;
  }

  lemma PadLacks(pad: bytes, text: bytes)
    requires Pad(pad) && Lacks(text, SEMICOLON)
    ensures Lacks(pad + text, SEMICOLON)
  {
  }

  function ParamTexts(params: seq<Padded>): seq<bytes> {
    if params == [] then [] else [params[0].pad + ParamText(params[0].param)] + ParamTexts(params[1..])
  }

  lemma UnquotedPlain(v: bytes)
    requires Lacks(v, QUOTE)
    ensures Unquoted(v) == v
  {
    if v != [] {
      assert v[0] in v && v[|v| - 1] in v;
    }
  }

  lemma ParamRead(h: PartHeaders, p: Padded)
    requires ValidParam(p)
    ensures WithSegment(h, p.pad + ParamText(p.param)) == AfterParams(h, [p])
  {
    hide Trim, Unquoted, Visible;
    var text := ParamText(p.param);
    TrimPads(p.pad, text, []);
    assert p.pad + text + [] == p.pad + text;
    assert [p][1..] == [];
    match p.param {
      case NameParam(v, quoted) =>
        PrefixCut(Ascii("name="), if quoted then [QUOTE] + v + [QUOTE] else v);
        UnquotedQuoted(v);
        UnquotedPlain(v);
      case FilenameParam(v, quoted) =>
        PrefixCut(Ascii("filename="), if quoted then [QUOTE] + v + [QUOTE] else v);
        FilenameIsNoName(if quoted then [QUOTE] + v + [QUOTE] else v);
        UnquotedQuoted(v);
        UnquotedPlain(v);
      case OtherParam(_) =>
    }
  }

  lemma PrefixCut(prefix: bytes, rest: bytes)
    ensures StartsWith(prefix + rest, prefix) && (prefix + rest)[|prefix|..] == rest
  {
    assert (prefix + rest)[..|prefix|] == prefix;
  }

  lemma FilenameIsNoName(rest: bytes)
    ensures !StartsWith(Ascii("filename=") + rest, Ascii("name="))
  {
    var s := Ascii("filename=") + rest;
    assert s[..5][0] == s[0] == Ascii("filename=")[0];
  }

  lemma {:induction false} ParamsRead(h: PartHeaders, params: seq<Padded>)
    requires ValidParams(params)
    ensures WithSegments(h, ParamTexts(params)) == AfterParams(h, params)
    decreases |params|
  {
    hide WithSegment, ValidParam;
    if params != [] {
      var p := params[0];
      ParamRead(h, p);
      var next := WithSegment(h, p.pad + ParamText(p.param));
      assert [p][1..] == [];
      assert ParamTexts(params)[1..] == ParamTexts(params[1..]);
      ParamsRead(next, params[1..]);
    }
  }

  lemma {:induction false} ParamsVisible(kind: bytes, params: seq<Padded>)
    requires Visible(kind) && ValidParams(params)
    ensures Visible(kind + ParamsText(params))
    decreases |params|
  {
    if params == [] {
      assert kind + [] == kind;
    } else {
      assert ValidParam(params[0]);
      var p := params[0].pad + ParamText(params[0].param);
      assert kind + ParamsText(params) == (kind + ([SEMICOLON] + p)) + ParamsText(params[1..]);
      var front := kind + ([SEMICOLON] + p);
      assert front[0] == kind[0] && front[|front| - 1] == ParamText(params[0].param)[|ParamText(params[0].param)| - 1];
      ParamsVisible(front, params[1..]);
    }
  }

  // ----- One line.

  lemma LineRead(h: PartHeaders, l: Line)
    requires ValidLine(l)
    ensures WithHeader(h, LineText(l)) == Ok(AfterLine(h, l))
  {
    hide Trim, SplitOnce, Split, SameIgnoringCase, WithSegments, AfterParams, Visible, CaseOf, ParamsText;
    var name := l.before + l.name + l.after;
    var value := l.left + ValueText(l.value) + l.right;
    NameLacks(l);
    SplitAt(name, COLON, value);
    NameTrimmed(l);
    SmallLetters();
    CaseIgnored(l.name, Ascii("content-disposition"));
    CaseIgnored(l.name, Ascii("content-type"));
    match l.value {
      case Disposition(kind, params) =>
        ParamsVisible(kind, params);
        TrimPads(l.left, ValueText(l.value), l.right);
        ParamsSplit(kind, params);
        assert ([kind] + ParamTexts(params))[1..] == ParamTexts(params);
        ParamsRead(h, params);
      case TypeIs(v) =>
        TrimPads(l.left, v, l.right);
        DifferentNames(l.name);
      case Unknown(v) =>
    }
  }

  lemma DifferentNames(name: bytes)
    requires CaseOf(name, Ascii("content-type"))
    ensures !CaseOf(name, Ascii("content-disposition"))
  {
  }

  lemma NameLacks(l: Line)
    requires ValidLine(l)
    ensures Lacks(l.before + l.name + l.after, COLON)
  {
  }

  lemma NameTrimmed(l: Line)
    requires ValidLine(l)
    ensures Trim(l.before + l.name + l.after) == l.name
  {
    hide Trim;
    TrimPads(l.before, l.name, l.after);
  }

  lemma {:induction false} LinesRead(h: PartHeaders, ls: seq<Line>)
    requires forall i :: 0 <= i < |ls| ==> ValidLine(ls[i])
    ensures WithHeaders(h, LineTexts(ls)) == Ok(AfterLines(h, ls))
    decreases |ls|
  {
    hide WithHeader, ValidLine, AfterLine, LineText;
    if ls != [] {
      LineRead(h, ls[0]);
      assert LineTexts(ls)[1..] == LineTexts(ls[1..]);
      LinesRead(AfterLine(h, ls[0]), ls[1..]);
    }
  }

  function LineTexts(ls: seq<Line>): (texts: seq<bytes>)
    ensures |texts| == |ls|
  {
    if ls == [] then [] else [LineText(ls[0])] + LineTexts(ls[1..])
  }

  lemma NoColon(h: PartHeaders, line: bytes)
    requires Lacks(line, COLON)
    ensures WithHeader(h, line) == Err(InvalidMultipart(InvalidHeaderLine(line)))
  {
    hide SplitOnce;
    SplitNone(line, COLON);
  }

  // A line without a colon is refused, after any lines that are in order.
  lemma {:induction false} ColonlessRefused(h: PartHeaders, ls: seq<Line>, line: bytes, more: seq<bytes>)
    requires (forall i :: 0 <= i < |ls| ==> ValidLine(ls[i])) && Lacks(line, COLON)
    ensures WithHeaders(h, LineTexts(ls) + ([line] + more)) == Err(InvalidMultipart(InvalidHeaderLine(line)))
    decreases |ls|
  {
    hide ValidLine, AfterLine, LineText, WithHeader, Lacks;
    var all := LineTexts(ls) + ([line] + more);
    if ls == [] {
      NoColon(h, line);
      assert all[0] == line;
    } else {
      LineRead(h, ls[0]);
      assert all[0] == LineText(ls[0]) && all[1..] == LineTexts(ls[1..]) + ([line] + more);
      ColonlessRefused(AfterLine(h, ls[0]), ls[1..], line, more);
    }
  }

  // ----- A whole part.

  // Lines joined by line breaks.
  function Block(lines: seq<bytes>): bytes
    requires lines != []
  {
    if |lines| == 1 then lines[0] else lines[0] + CRLF + Block(lines[1..])
  }

  predicate BlockLines(lines: seq<bytes>) {
    lines != [] && forall i :: 0 <= i < |lines| ==> lines[i] != [] && Lacks(lines[i], CR)
  }

  lemma BreakAt(a: bytes, b: bytes)
    requires Lacks(a, CR)
    ensures SplitOnce(a + CRLF + b, CRLF) == Some((a, b))
  {
    var s := a + CRLF + b;
    assert s[|a|..|a| + 2] == CRLF;
    forall k | 0 <= k < |a| ensures !At(s, CRLF, k) {
      assert k + 2 <= |s| ==> s[k..k + 2][0] == s[k] == a[k] && a[k] in a;
    }
    FindBytesIs(s, CRLF, |a|);
    assert s[..|a|] == a && s[|a| + 2..] == b;
  }

  lemma NoBreak(a: bytes)
    requires Lacks(a, CR)
    ensures Split(a, CRLF) == [a]
  {
    forall k ensures !At(a, CRLF, k) {
      if 0 <= k && k + 2 <= |a| {
        assert a[k..k + 2][0] == a[k] && a[k] in a;
      }
    }
  }

  lemma {:induction false} BlockSplit(lines: seq<bytes>)
    requires BlockLines(lines)
    ensures Split(Block(lines), CRLF) == lines
    decreases |lines|
  {
    hide SplitOnce, Lacks;
    if |lines| == 1 {
      NoBreak(lines[0]);
      assert lines == [lines[0]];
    } else {
      BreakAt(lines[0], Block(lines[1..]));
      BlockSplit(lines[1..]);
    }
  }

  // No blank line begins inside the block.
  lemma {:induction false} BlockHasNoBlank(lines: seq<bytes>, content: bytes, k: nat)
    requires BlockLines(lines) && k < |Block(lines)|
    ensures !At(Block(lines) + BLANK_LINE + content, BLANK_LINE, k)
    decreases |lines|
  {
    var s := Block(lines) + BLANK_LINE + content;
    var line := lines[0];
    if k < |line| {
      assert s[k] == line[k] && line[k] in line;
      assert k + 4 <= |s| ==> s[k..k + 4][0] == s[k];
    } else {
      var rest := Block(lines[1..]);
      var tail := rest + BLANK_LINE + content;
      assert s == line + CRLF + tail;
      RestStarts(lines[1..]);
      if k < |line| + 2 {
        assert s[|line| + 1] == LF && s[|line| + 2] == rest[0];
        assert k + 4 <= |s| ==> s[k..k + 4][0] == s[k] && s[k..k + 4][2] == s[k + 2];
      } else {
        var j := k - |line| - 2;
        BlockHasNoBlank(lines[1..], content, j);
        assert s[k..] == tail[j..];
        assert k + 4 <= |s| ==> s[k..k + 4] == tail[j..j + 4];
      }
    }
  }

  lemma RestStarts(lines: seq<bytes>)
    requires BlockLines(lines)
    ensures Block(lines) != [] && Block(lines)[0] != CR
  {
    assert lines[0][0] in lines[0];
  }

  lemma BlockCut(lines: seq<bytes>, content: bytes)
    requires BlockLines(lines)
    ensures SplitOnce(Block(lines) + BLANK_LINE + content, BLANK_LINE) == Some((Block(lines), content))
  {
    var h := Block(lines);
    var s := h + BLANK_LINE + content;
    assert s[|h|..|h| + 4] == BLANK_LINE;
    forall k | 0 <= k < |h| ensures !At(s, BLANK_LINE, k) {
      BlockHasNoBlank(lines, content, k);
    }
    FindBytesIs(s, BLANK_LINE, |h|);
    assert s[..|h|] == h && s[|h| + 4..] == content;
  }

  lemma HeadersDecide(part: bytes, headers: bytes, content: bytes, h: PartHeaders, limits: MultipartLimits)
    requires SplitOnce(part, BLANK_LINE) == Some((headers, content)) && ValidUtf8(headers)
    requires WithHeaders(NO_HEADERS, Split(headers, CRLF)) == Ok(h)
    ensures var r := ParsedPart(part, limits);
            && (h.fieldName.None? ==> r == Err(InvalidMultipart(MissingFieldName)))
            && (h.fieldName.Some? && h.filename.None? ==> r == Ok([]))
            && (h.fieldName.Some? && h.filename.Some? ==>
                  var f := ParsedFile(h.fieldName.value, UploadedFile(h.filename.value, h.contentType, content));
                  r == match Checked(limits, f) case Ok(_) => Ok([f]) case Err(e) => Err(e))
  {
    hide SplitOnce, Split, WithHeaders, ValidUtf8, Checked;
    CheckedKeeps(limits);
  }

  // A part with any header lines in any layout: refused without a field name, passed over without a
  // filename, and otherwise a file with the last name, filename and type its headers give, if it is
  // within the limits.
  lemma PartMeaning(ls: seq<Line>, content: bytes, limits: MultipartLimits)
    requires ls != [] && (forall i :: 0 <= i < |ls| ==> ValidLine(ls[i])) && ValidUtf8(Block(LineTexts(ls)))
    ensures var h := AfterLines(NO_HEADERS, ls);
            var r := ParsedPart(Block(LineTexts(ls)) + BLANK_LINE + content, limits);
            && (h.fieldName.None? ==> r == Err(InvalidMultipart(MissingFieldName)))
            && (h.fieldName.Some? && h.filename.None? ==> r == Ok([]))
            && (h.fieldName.Some? && h.filename.Some? ==>
                  var f := ParsedFile(h.fieldName.value, UploadedFile(h.filename.value, h.contentType, content));
                  r == match Checked(limits, f) case Ok(_) => Ok([f]) case Err(e) => Err(e))
  {
    hide ValidLine, AfterLines, Block, LineTexts, SplitOnce, Split, WithHeaders, ValidUtf8, Checked, ParsedPart;
    var headers := Block(LineTexts(ls));
    LinesCut(ls, content);
    HeadersDecide(headers + BLANK_LINE + content, headers, content, AfterLines(NO_HEADERS, ls), limits);
  }

  lemma LinesCut(ls: seq<Line>, content: bytes)
    requires ls != [] && (forall i :: 0 <= i < |ls| ==> ValidLine(ls[i]))
    ensures var headers := Block(LineTexts(ls));
            && SplitOnce(headers + BLANK_LINE + content, BLANK_LINE) == Some((headers, content))
            && WithHeaders(NO_HEADERS, Split(headers, CRLF)) == Ok(AfterLines(NO_HEADERS, ls))
  {
    hide ValidLine, LineText, AfterLines, Block, SplitOnce, Split, WithHeaders;
    LinesBlock(ls);
    BlockCut(LineTexts(ls), content);
    BlockSplit(LineTexts(ls));
    LinesRead(NO_HEADERS, ls);
  }

  lemma {:induction false} LinesBlock(ls: seq<Line>)
    requires forall i :: 0 <= i < |ls| ==> ValidLine(ls[i])
    ensures forall i :: 0 <= i < |ls| ==> LineTexts(ls)[i] != [] && Lacks(LineTexts(ls)[i], CR)
  {
    hide LineText;
    if ls != [] {
      LinesBlock(ls[1..]);
      assert ValidLine(ls[0]);
      HasColon(ls[0]);
      assert forall i :: 0 < i < |ls| ==> LineTexts(ls)[i] == LineTexts(ls[1..])[i - 1];
    }
  }

  lemma HasColon(l: Line)
    ensures LineText(l) != []
  {
    hide ValueText;
  }

  // Without a blank line there is no part.
  lemma BlankLineNeeded(part: bytes, limits: MultipartLimits)
    requires !Occurs(part, BLANK_LINE)
    ensures ParsedPart(part, limits) == Err(InvalidMultipart(MissingHeaderSeparator))
  {
    hide Occurs, FindBytes;
    if SplitOnce(part, BLANK_LINE).Some? {
      var r := SplitOnce(part, BLANK_LINE).value;
      assert part[|r.0|..|r.0| + 4] == BLANK_LINE;
      AtOccurs(part, BLANK_LINE, |r.0|);
    }
  }

  lemma AtOccurs(hay: bytes, needle: bytes, k: int)
    requires At(hay, needle, k)
    ensures Occurs(hay, needle)
  {
  }
}
