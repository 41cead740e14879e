/** Encoding form files and parsing them again: the parser undoes the encoder. */
module MultipartRoundTrip {
  import opened Results
  import opened Bytes
  import opened Multipart
  import opened MultipartBounds

  datatype Part = Part(fieldName: bytes, filename: bytes, contentType: Option<bytes>, content: bytes)

  // ----- The encoder, as the upload tests write it.

  function Segment(prefix: bytes, value: bytes): bytes {
    prefix + ([QUOTE] + value + [QUOTE])
  }

  function FormData(): bytes {
    Ascii("form-data")
  }

  function DispositionValue(p: Part): bytes {
    FormData() + [SEMICOLON] +
    ([SPACE] + Segment(NamePrefix(), p.fieldName) + [SEMICOLON] + ([SPACE] + Segment(FilenamePrefix(), p.filename)))
  }

  function DispositionName(): bytes {
    Ascii("Content-Disposition")
  }

  function TypeName(): bytes {
    Ascii("Content-Type")
  }

  function HeaderLine(name: bytes, value: bytes): bytes {
    name + [COLON] + ([SPACE] + value)
  }

  function DispositionLine(p: Part): bytes {
    HeaderLine(DispositionName(), DispositionValue(p))
  }

  function TypeLine(contentType: bytes): bytes {
    HeaderLine(TypeName(), contentType)
  }

  function HeaderBlock(p: Part): bytes {
    match p.contentType
    case None => DispositionLine(p)
    case Some(t) => DispositionLine(p) + CRLF + TypeLine(t)
  }

  function PartText(p: Part): bytes {
    HeaderBlock(p) + BLANK_LINE + p.content
  }

  function EncodedParts(parts: seq<Part>, marker: bytes): bytes {
    if parts == [] then []
    else marker + CRLF + (PartText(parts[0]) + CRLF) + EncodedParts(parts[1..], marker)
  }

  function EncodedBody(boundary: bytes, parts: seq<Part>): bytes {
    EncodedParts(parts, Marker(boundary)) + (Marker(boundary) + DASHES + CRLF)
  }

  lemma {:induction false} EncodedSnoc(parts: seq<Part>, p: Part, marker: bytes)
    ensures EncodedParts(parts + [p], marker) == EncodedParts(parts, marker) + (marker + CRLF + (PartText(p) + CRLF))
  {
    hide PartText;
    if parts == [] {
      assert parts + [p] == [p] && [p][1..] == [];
    } else {
      assert (parts + [p])[1..] == parts[1..] + [p];
      EncodedSnoc(parts[1..], p, marker);
    }
  }

  lemma AsciiConcat(a: string, b: string)
    requires IsAscii(a) && IsAscii(b)
    ensures IsAscii(a + b) && Ascii(a + b) == Ascii(a) + Ascii(b)
  {
  }

  lemma SixParts(a: string, b: string, c: string, d: string, e: string, f: string)
    requires IsAscii(a) && IsAscii(b) && IsAscii(c) && IsAscii(d) && IsAscii(e) && IsAscii(f)
    ensures IsAscii(a + b + c + d + e + f)
    ensures Ascii(a + b + c + d + e + f) == Ascii(a) + Ascii(b) + Ascii(c) + Ascii(d) + Ascii(e) + Ascii(f)
  {
    hide Ascii, IsAscii;
    AsciiConcat(a, b);
    AsciiConcat(a + b, c);
    AsciiConcat(a + b + c, d);
    AsciiConcat(a + b + c + d, e);
    AsciiConcat(a + b + c + d + e, f);
  }

  lemma Punctuation()
    ensures Ascii(": ") == [COLON, SPACE] && Ascii("; ") == [SEMICOLON, SPACE] && Ascii("\"") == [QUOTE]
  {
  }

  // The format strings of the encoder against the structured lines.
  lemma DispositionFormat()
    ensures Ascii("Content-Disposition: form-data; name=\"")
         == DispositionName() + [COLON, SPACE] + FormData() + [SEMICOLON, SPACE] + NamePrefix() + [QUOTE]
  {
    hide Ascii;
    Punctuation();
    SixParts("Content-Disposition", ": ", "form-data", "; ", "name=", "\"");
    assert "Content-Disposition: form-data; name=\"" ==
        "Content-Disposition" + ": " + "form-data" + "; " + "name=" + "\"";
  }

  lemma FilenameFormat()
    ensures Ascii("\"; filename=\"") == [QUOTE, SEMICOLON, SPACE] + FilenamePrefix() + [QUOTE]
    ensures Ascii("\"") == [QUOTE]
  {
    AsciiConcat("\"; ", "filename=");
    AsciiConcat("\"; " + "filename=", "\"");
    assert Ascii("\"; ") == [QUOTE, SEMICOLON, SPACE];
    assert "\"; filename=\"" == "\"; " + "filename=" + "\"";
  }

  lemma TypeFormat()
    ensures Ascii("Content-Type: ") == TypeName() + [COLON, SPACE]
  {
    AsciiConcat("Content-Type", ": ");
    assert Ascii(": ") == [COLON, SPACE];
    assert "Content-Type: " == "Content-Type" + ": ";
  }

  lemma DispositionShape(d: bytes, f: bytes, n: bytes, m: bytes, field: bytes, file: bytes)
    ensures d + [COLON, SPACE] + f + [SEMICOLON, SPACE] + n + [QUOTE] + field
              + ([QUOTE, SEMICOLON, SPACE] + m + [QUOTE]) + file + [QUOTE]
         == d + [COLON] + ([SPACE] + (f + [SEMICOLON] +
              ([SPACE] + (n + ([QUOTE] + field + [QUOTE])) + [SEMICOLON]
                  + ([SPACE] + (m + ([QUOTE] + file + [QUOTE]))))))
  {
  }

  method WriteDisposition(p: Part) returns (line: bytes)
    ensures line == DispositionLine(p)
  {
    hide Ascii, DispositionName, FormData, NamePrefix, FilenamePrefix;
    line := Ascii("Content-Disposition: form-data; name=\"") + p.fieldName
          + Ascii("\"; filename=\"") + p.filename + Ascii("\"");
    DispositionFormat();
    FilenameFormat();
    DispositionShape(DispositionName(), FormData(), NamePrefix(), FilenamePrefix(), p.fieldName, p.filename);
  }

  lemma TypeShape(t: bytes, contentType: bytes)
    ensures t + [COLON, SPACE] + contentType == t + [COLON] + ([SPACE] + contentType)
  {
  }

  method WriteType(contentType: bytes) returns (line: bytes)
    ensures line == TypeLine(contentType)
  {
    hide Ascii, TypeName;
    line := Ascii("Content-Type: ") + contentType;
    TypeFormat();
    TypeShape(TypeName(), contentType);
  }

  lemma PartShape(body: bytes, marker: bytes, d: bytes, t: bytes, content: bytes)
    ensures body + marker + CRLF + d + CRLF + CRLF + content + CRLF
         == body + (marker + CRLF + (d + BLANK_LINE + content + CRLF))
    ensures body + marker + CRLF + d + CRLF + t + CRLF + CRLF + content + CRLF
         == body + (marker + CRLF + (d + CRLF + t + BLANK_LINE + content + CRLF))
  {
    assert BLANK_LINE == CRLF + CRLF;
  }

  method MultipartBody(boundary: bytes, parts: seq<Part>) returns (body: bytes)
    ensures body == EncodedBody(boundary, parts)
  {
    hide DispositionLine, TypeLine, EncodedParts;
    var marker := Marker(boundary);
    body := [];
    assert EncodedParts([], marker) == [] by {
      EmptyParts(marker);
    }
    for i := 0 to |parts|
      invariant body == EncodedParts(parts[..i], marker)
    {
      ghost var before := body;
      var p := parts[i];
      body := body + marker + CRLF;
      var disposition := WriteDisposition(p);
      body := body + disposition + CRLF;
      ghost var written: bytes := [];
      if p.contentType.Some? {
        var contentType := WriteType(p.contentType.value);
        written := contentType;
        body := body + contentType + CRLF;
      }
      body := body + CRLF;
      body := body + p.content;
      body := body + CRLF;
      PartShape(before, marker, disposition, written, p.content);
      EncodedSnoc(parts[..i], p, marker);
      assert parts[..i + 1] == parts[..i] + [p];
    }
    assert parts[..|parts|] == parts;
    body := body + (marker + DASHES + CRLF);
  }

  lemma EmptyParts(marker: bytes)
    ensures EncodedParts([], marker) == []
  {
  }

  // ----- Parts that survive the trip.

  predicate PlainText(s: bytes) {
    ValidUtf8(s) && Lacks(s, CR) && Lacks(s, QUOTE) && Lacks(s, SEMICOLON)
  }

  // A part whose names and type the header format can carry.
  predicate ReadablePart(p: Part) {
    && PlainText(p.fieldName) && PlainText(p.filename)
    && (p.contentType.Some? ==> var t := p.contentType.value; ValidUtf8(t) && Lacks(t, CR) && Trim(t) == t)
  }

  ghost predicate MarkerFree(p: Part, marker: bytes) {
    !Occurs(PartText(p), marker)
  }

  predicate ReadableParts(parts: seq<Part>) {
    forall i :: 0 <= i < |parts| ==> ReadablePart(parts[i])
  }

  ghost predicate AllMarkerFree(parts: seq<Part>, marker: bytes) {
    forall i :: 0 <= i < |parts| ==> MarkerFree(parts[i], marker)
  }

  // A boundary without line breaks.
  predicate WellFormedBoundary(boundary: bytes) {
    Lacks(boundary, CR) && Lacks(boundary, LF)
  }

  lemma MarkerLacksBreaks(boundary: bytes)
    requires WellFormedBoundary(boundary)
    ensures Lacks(Marker(boundary), CR) && Lacks(Marker(boundary), LF) && Marker(boundary) != []
  {
  }

  // ----- Finding the markers again.

  lemma NothingInNothing(needle: bytes)
    requires needle != []
    ensures !Occurs([], needle)
  {
  }

  lemma AbsentAcrossLine(a: bytes, b: bytes, marker: bytes)
    requires marker != [] && Lacks(marker, CR) && Lacks(marker, LF)
    requires !Occurs(a, marker) && !Occurs(b, marker)
    ensures !Occurs(a + CRLF + b, marker)
  {
    hide Occurs;
    NothingInNothing(marker);
    AbsentAcross(a, CR, [], marker);
    AbsentAcross(a + [CR] + [], LF, b, marker);
    assert a + CRLF + b == (a + [CR] + []) + [LF] + b;
  }

  // A marker without line breaks occurs in the text of a part exactly when it occurs in one of its
  // header lines or in its content.
  lemma MarkerFreeExactly(p: Part, marker: bytes)
    requires marker != [] && Lacks(marker, CR) && Lacks(marker, LF)
    ensures MarkerFree(p, marker) <==>
            && !Occurs(DispositionLine(p), marker)
            && (p.contentType.Some? ==> !Occurs(TypeLine(p.contentType.value), marker))
            && !Occurs(p.content, marker)
  {
    hide Occurs, DispositionLine, TypeLine;
    NothingInNothing(marker);
    var h := HeaderBlock(p);
    assert h + CRLF + [] + CRLF + p.content == PartText(p);
    OccursWithin([], h, BLANK_LINE + p.content, marker);
    OccursWithin(h + BLANK_LINE, p.content, [], marker);
    assert [] + h + (BLANK_LINE + p.content) == PartText(p) && h + BLANK_LINE + p.content + [] == PartText(p);
    if p.contentType.Some? {
      var d, t := DispositionLine(p), TypeLine(p.contentType.value);
      OccursWithin([], d, CRLF + t, marker);
      OccursWithin(d + CRLF, t, [], marker);
      assert [] + d + (CRLF + t) == h && d + CRLF + t + [] == h;
      if !Occurs(d, marker) && !Occurs(t, marker) {
        AbsentAcrossLine(d, t, marker);
      }
    }
    if !Occurs(h, marker) && !Occurs(p.content, marker) {
      AbsentAcrossLine(h, [], marker);
      AbsentAcrossLine(h + CRLF + [], p.content, marker);
    }
  }

  lemma OccursWithin(a: bytes, b: bytes, c: bytes, needle: bytes)
    ensures Occurs(b, needle) ==> Occurs(a + b + c, needle)
  {
    if Occurs(b, needle) {
      var k :| At(b, needle, k);
      assert (a + b + c)[|a| + k..|a| + k + |needle|] == b[k..k + |needle|];
      assert At(a + b + c, needle, |a| + k);
    }
  }

  lemma MarkerFreeLine(text: bytes, marker: bytes)
    requires !Occurs(text, marker) && marker != [] && Lacks(marker, CR) && Lacks(marker, LF)
    ensures !Occurs(text + CRLF, marker)
  {
    hide Occurs;
    NothingInNothing(marker);
    AbsentAcrossLine(text, [], marker);
    assert text + CRLF + [] == text + CRLF;
  }

  lemma AtLonger(a: bytes, b: bytes, needle: bytes, k: int)
    requires At(a, needle, k)
    ensures Occurs(a + b, needle)
  {
    assert (a + b)[k..k + |needle|] == a[k..k + |needle|];
    assert At(a + b, needle, k);
  }

  // The next marker after a part is the one the encoder wrote.
  lemma MarkerAfterPart(text: bytes, marker: bytes, tail: bytes)
    requires marker != [] && Lacks(marker, LF) && !Occurs(text + CRLF, marker)
    ensures FindBytes(text + CRLF + marker + tail, marker) == Some(|text| + 2)
  {
    hide Occurs;
    var s := text + CRLF + marker + tail;
    var n := |text| + 2;
    assert s[n..n + |marker|] == marker;
    var a, b := text + [CR], marker + tail;
    assert s == a + [LF] + b && text + CRLF == a + [LF];
    forall k | 0 <= k < n ensures !At(s, marker, k) {
      if At(s, marker, k) {
        NotAcross(a, LF, b, marker, k);
        AtLonger(a, [LF], marker, k);
        assert false;
      }
    }
    FindBytesIs(s, marker, n);
  }

  lemma MarkerFirst(marker: bytes, tail: bytes)
    requires marker != []
    ensures FindBytes(marker + tail, marker) == Some(0)
    ensures (marker + tail)[|marker|..] == tail
  {
    assert (marker + tail)[..|marker|] == marker;
  }

  lemma PartIsFirstSection(text: bytes, marker: bytes, tail: bytes)
    requires marker != [] && Lacks(marker, LF) && !Occurs(text + CRLF, marker)
    ensures var m := |marker| + 2;
            FirstSection(marker + (CRLF + (text + CRLF + marker + tail)), marker)
              == Section(m, m + |text|, m + |text| + 2)
  {
    hide FindBytes, Occurs;
    var rest := text + CRLF + marker + tail;
    var s := marker + (CRLF + rest);
    MarkerFirst(marker, CRLF + rest);
    assert !StartsWith(CRLF + rest, DASHES);
    assert (CRLF + rest)[..2] == CRLF;
    var start := |marker| + 2;
    assert ContentStart(s, |marker|) == start;
    assert s[start..] == rest;
    MarkerAfterPart(text, marker, tail);
    var next := start + |text| + 2;
    assert s[start..next] == text + CRLF;
    assert ContentEnd(s, start, next) == next - 2;
  }

  function Closing(marker: bytes): bytes {
    marker + DASHES + CRLF
  }

  lemma ClosingIsNoSection(marker: bytes)
    requires marker != []
    ensures FirstSection(Closing(marker), marker) == NoSection
  {
    assert marker + DASHES + CRLF == marker + (DASHES + CRLF);
    MarkerFirst(marker, DASHES + CRLF);
    assert (DASHES + CRLF)[..2] == DASHES;
  }

  // ----- Sections of an encoded body.

  lemma NextMarker(parts: seq<Part>, marker: bytes) returns (tail: bytes)
    ensures EncodedParts(parts, marker) + Closing(marker) == marker + tail
  {
    hide PartText;
    if parts == [] {
      tail := DASHES + CRLF;
      assert [] + (marker + DASHES + CRLF) == marker + tail;
    } else {
      tail := CRLF + (PartText(parts[0]) + CRLF) + EncodedParts(parts[1..], marker) + Closing(marker);
      assert EncodedParts(parts, marker) + Closing(marker) == marker + tail;
    }
  }

  lemma FrontShape(marker: bytes, text: bytes, more: bytes, tail: bytes, closing: bytes)
    requires more + closing == marker + tail
    ensures marker + CRLF + (text + CRLF) + more + closing == marker + (CRLF + (text + CRLF + marker + tail))
  {
    calc {
      marker + CRLF + (text + CRLF) + more + closing;
      marker + CRLF + (text + CRLF) + (more + closing);
      marker + (CRLF + (text + CRLF + marker + tail));
    }
  }

  lemma PartAt(body: bytes, at: nat, marker: bytes, text: bytes, more: bytes)
    requires at <= |body| && body[at..] == marker + CRLF + (text + CRLF) + more
    ensures var start := at + |marker| + 2;
            && start + |text| + 2 <= |body|
            && body[start..start + |text|] == text
            && body[start + |text| + 2..] == more
            && body[at..][|marker| + 2 + |text| + 2..] == more
  {
    var rest := body[at..];
    var start := |marker| + 2;
    assert rest[start..start + |text|] == text;
    assert body[at + start..at + start + |text|] == rest[start..start + |text|];
    assert body[at + start + |text| + 2..] == rest[start + |text| + 2..];
  }

  // One encoded part gives one section, and the parser goes on at the next marker.
  lemma SectionStep(body: bytes, at: nat, marker: bytes, text: bytes, more: bytes, tail: bytes)
    requires marker != [] && Lacks(marker, LF) && !Occurs(text + CRLF, marker)
    requires at <= |body| && body[at..] == marker + CRLF + (text + CRLF) + more && more == marker + tail
    ensures var start := at + |marker| + 2;
            var next := start + |text| + 2;
            && next <= |body| && body[next..] == more && body[start..start + |text|] == text
            && Sections(body[at..], at, marker) ==
               Prepend([Slice(start, start + |text|)], Sections(body[next..], next, marker))
  {
    hide FirstSection, Occurs;
    FrontShape(marker, text, more, tail, []);
    PartIsFirstSection(text, marker, tail);
    assert marker + CRLF + (text + CRLF) + more + [] == body[at..];
    PartAt(body, at, marker, text, more);
  }

  // The sections are the texts of the parts.
  predicate ReadAs(body: bytes, r: Result<seq<Slice>, UploadError>, parts: seq<Part>) {
    && r.Ok? && WithinBody(body, r.value) && |r.value| == |parts|
    && forall i :: 0 <= i < |parts| ==> View(body, r.value[i]) == PartText(parts[i])
  }

  // A marker inside a part ends its section early.
  lemma CutSection(text: bytes, marker: bytes, more: bytes)
    requires marker != [] && Occurs(text, marker)
    ensures var s := marker + CRLF + (text + CRLF) + more;
            var f := FirstSection(s, marker);
            && f.Section? && f.start == |marker| + 2 && f.end < f.start + |text|
            && s[f.start..f.end] == text[..f.end - f.start]
  {
    hide FindBytes;
    var s := marker + CRLF + (text + CRLF) + more;
    var rest := text + CRLF + more;
    assert s == marker + (CRLF + rest);
    MarkerFirst(marker, CRLF + rest);
    assert (CRLF + rest)[..2] == CRLF;
    assert !StartsWith(CRLF + rest, DASHES);
    var start := |marker| + 2;
    assert s[start..] == rest;
    var k :| At(text, marker, k);
    assert rest[k..k + |marker|] == text[k..k + |marker|];
    assert At(rest, marker, k);
    assert ContentStart(s, |marker|) == start;
    var next := FindBytes(rest, marker);
    assert next.Some? && next.value <= k;
  }

  // The sections of an encoded form are the texts of its parts exactly when the marker occurs in none
  // of them, in mid-line or not.
  lemma {:induction false} SectionsOfEncoded(body: bytes, at: nat, parts: seq<Part>, marker: bytes)
    requires marker != [] && Lacks(marker, CR) && Lacks(marker, LF)
    requires at <= |body| && body[at..] == EncodedParts(parts, marker) + Closing(marker)
    ensures ReadAs(body, Sections(body[at..], at, marker), parts) <==> AllMarkerFree(parts, marker)
    decreases |parts|
  {
    hide PartText, FirstSection, Closing, Occurs, Sections, ReadAs;
    if parts == [] {
      ClosingEnds(body, at, marker);
      NoneRead(body);
    } else {
      var text := PartText(parts[0]);
      var more := EncodedParts(parts[1..], marker) + Closing(marker);
      assert body[at..] == marker + CRLF + (text + CRLF) + more;
      if MarkerFree(parts[0], marker) {
        MarkerFreeLine(text, marker);
        var tail := NextMarker(parts[1..], marker);
        SectionStep(body, at, marker, text, more, tail);
        var start := at + |marker| + 2;
        var next := start + |text| + 2;
        SectionsOfEncoded(body, next, parts[1..], marker);
        ReadFront(body, start, start + |text|, Sections(body[next..], next, marker), parts);
        assert AllMarkerFree(parts, marker) <==> AllMarkerFree(parts[1..], marker);
      } else {
        CutFirst(body, at, text, marker, more);
        CutRead(body, Sections(body[at..], at, marker), parts);
      }
    }
  }

  lemma NoneRead(body: bytes)
    ensures ReadAs(body, Ok([]), [])
  {
  }

  // When the first part contains the marker, the first section is a part of its text, if there is one.
  lemma CutFirst(body: bytes, at: nat, text: bytes, marker: bytes, more: bytes)
    requires marker != [] && Occurs(text, marker)
    requires at <= |body| && body[at..] == marker + CRLF + (text + CRLF) + more
    ensures var r := Sections(body[at..], at, marker);
            r.Ok? ==> WithinBody(body, r.value) && r.value != []
                      && |View(body, r.value[0])| < |text| && View(body, r.value[0]) == text[..|View(body, r.value[0])|]
  {
    hide FirstSection, Occurs, Sections;
    CutSection(text, marker, more);
    SectionsWithin(body, at, marker);
    var f := FirstSection(body[at..], marker);
    FirstSlice(body, at, marker);
    assert body[at..][f.start..f.end] == body[at + f.start..at + f.end];
  }

  lemma FirstSlice(body: bytes, at: nat, marker: bytes)
    requires marker != [] && at <= |body| && FirstSection(body[at..], marker).Section?
    ensures var r := Sections(body[at..], at, marker);
            var f := FirstSection(body[at..], marker);
            r.Ok? ==> r.value != [] && r.value[0] == Slice(at + f.start, at + f.end)
  {
    hide FirstSection;
  }

  lemma CutRead(body: bytes, r: Result<seq<Slice>, UploadError>, parts: seq<Part>)
    requires parts != []
    requires r.Ok? ==> WithinBody(body, r.value) && r.value != [] && |View(body, r.value[0])| < |PartText(parts[0])|
    ensures !ReadAs(body, r, parts)
  {
    hide PartText;
  }

  lemma ReadFront(body: bytes, start: nat, end: nat, more: Result<seq<Slice>, UploadError>, parts: seq<Part>)
    requires parts != [] && start <= end <= |body| && body[start..end] == PartText(parts[0])
    ensures ReadAs(body, Prepend([Slice(start, end)], more), parts) <==> ReadAs(body, more, parts[1..])
  {
    hide PartText;
    if more.Ok? {
      var all, rest := [Slice(start, end)] + more.value, parts[1..];
      assert forall i :: 0 < i < |all| ==> all[i] == more.value[i - 1];
      assert forall i :: 0 <= i < |more.value| ==> more.value[i] == all[i + 1];
      assert forall i :: 0 < i < |parts| ==> parts[i] == rest[i - 1];
      assert forall i :: 0 <= i < |rest| ==> rest[i] == parts[i + 1];
    }
  }

  lemma ClosingEnds(body: bytes, at: nat, marker: bytes)
    requires marker != [] && at <= |body| && body[at..] == Closing(marker)
    ensures Sections(body[at..], at, marker) == Ok([]) && WithinBody(body, [])
  {
    hide FirstSection, Closing;
    ClosingIsNoSection(marker);
  }

  // ----- Headers of an encoded part.

  lemma SplitAt(a: bytes, c: byte, b: bytes)
    requires Lacks(a, c)
    ensures SplitOnce(a + [c] + b, [c]) == Some((a, b))
  {
    var s := a + [c] + b;
    assert s[|a|..|a| + 1] == [c];
    forall k | 0 <= k < |a| ensures !At(s, [c], k) {
      assert s[k..k + 1][0] == a[k] && a[k] in a;
    }
    FindBytesIs(s, [c], |a|);
    assert s[..|a|] == a && s[|a| + 1..] == b;
  }

  lemma SplitNone(s: bytes, c: byte)
    requires Lacks(s, c)
    ensures SplitOnce(s, [c]) == None
  {
    assert forall k :: 0 <= k < |s| ==> s[k..k + 1][0] == s[k] && s[k] in s;
  }

  lemma AsciiLacks(s: string, c: byte)
    requires IsAscii(s) && c < 128 && (c as int as char) !in s
    ensures Lacks(Ascii(s), c)
  {
    assert forall i :: 0 <= i < |s| ==> s[i] in s;
  }

  lemma NamesLack()
    ensures Lacks(DispositionName(), COLON) && Lacks(DispositionName(), CR)
    ensures Lacks(TypeName(), COLON) && Lacks(TypeName(), CR)
  {
    hide Ascii;
    AsciiLacks("Content-Disposition", COLON);
    AsciiLacks("Content-Disposition", CR);
    AsciiLacks("Content-Type", COLON);
    AsciiLacks("Content-Type", CR);
  }

  lemma LiteralsLack()
    ensures Lacks(DispositionName(), COLON) && Lacks(DispositionName(), CR)
    ensures Lacks(TypeName(), COLON) && Lacks(TypeName(), CR)
    ensures Lacks(FormData(), SEMICOLON) && Lacks(FormData(), CR)
    ensures Lacks(NamePrefix(), SEMICOLON) && Lacks(NamePrefix(), CR)
    ensures Lacks(FilenamePrefix(), SEMICOLON) && Lacks(FilenamePrefix(), CR)
  {
    hide Ascii, DispositionName, TypeName;
    NamesLack();
    AsciiLacks("form-data", SEMICOLON);
    AsciiLacks("form-data", CR);
    AsciiLacks("name=", SEMICOLON);
    AsciiLacks("name=", CR);
    AsciiLacks("filename=", SEMICOLON);
    AsciiLacks("filename=", CR);
  }

  lemma AsciiValid(s: string)
    requires IsAscii(s)
    ensures ValidUtf8(Ascii(s))
  {
    AsciiIsUtf8(Ascii(s));
  }

  lemma SameConcat(a: bytes, b: bytes, c: bytes, d: bytes)
    requires SameIgnoringCase(a, b) && SameIgnoringCase(c, d)
    ensures SameIgnoringCase(a + c, b + d)
  {
  }

  lemma CasedName(x: string, y: string, rest: string)
    requires IsAscii(x) && IsAscii(y) && IsAscii(rest) && |x| == |y| == 1
    requires Lower(Ascii(x)[0]) == Lower(Ascii(y)[0])
    ensures SameIgnoringCase(Ascii(x + rest), Ascii(y + rest))
  {
    AsciiConcat(x, rest);
    AsciiConcat(y, rest);
    SameConcat(Ascii(x), Ascii(y), Ascii(rest), Ascii(rest));
  }

  lemma DifferentLength()
    ensures !SameIgnoringCase(TypeName(), ContentDisposition())
  {
  }

  lemma DispositionNames()
    ensures SameIgnoringCase(DispositionName(), ContentDisposition())
  {
    hide SameIgnoringCase, Ascii, Lower;
    Initials();
    CasedName("C", "c", "ontent-");
    CasedName("D", "d", "isposition");
    HeaderPieces("C" + "ontent-", "c" + "ontent-", "D" + "isposition", "d" + "isposition");
    DispositionSpelled();
  }

  lemma DispositionSpelled()
    ensures "Content-Disposition" == "C" + "ontent-" + ("D" + "isposition")
    ensures "content-disposition" == "c" + "ontent-" + ("d" + "isposition")
  {
  }

  lemma TypeNames()
    ensures SameIgnoringCase(TypeName(), ContentType())
  {
    hide SameIgnoringCase, Ascii, Lower;
    Initials();
    CasedName("C", "c", "ontent-");
    CasedName("T", "t", "ype");
    HeaderPieces("C" + "ontent-", "c" + "ontent-", "T" + "ype", "t" + "ype");
    assert "Content-Type" == "C" + "ontent-" + ("T" + "ype");
    assert "content-type" == "c" + "ontent-" + ("t" + "ype");
  }

  // The encoder's header names are the ones the parser looks for, up to case.
  lemma HeaderNames()
    ensures SameIgnoringCase(DispositionName(), ContentDisposition())
    ensures SameIgnoringCase(TypeName(), ContentType())
    ensures !SameIgnoringCase(TypeName(), ContentDisposition())
  {
    hide SameIgnoringCase, Ascii, DispositionName, TypeName, ContentDisposition, ContentType;
    DifferentLength();
    DispositionNames();
    TypeNames();
  }

  lemma Initials()
    ensures Lower(Ascii("C")[0]) == Lower(Ascii("c")[0])
    ensures Lower(Ascii("D")[0]) == Lower(Ascii("d")[0])
    ensures Lower(Ascii("T")[0]) == Lower(Ascii("t")[0])
  {
  }

  lemma HeaderPieces(a: string, b: string, c: string, d: string)
    requires IsAscii(a) && IsAscii(b) && IsAscii(c) && IsAscii(d)
    requires SameIgnoringCase(Ascii(a), Ascii(b)) && SameIgnoringCase(Ascii(c), Ascii(d))
    ensures SameIgnoringCase(Ascii(a + c), Ascii(b + d))
  {
    AsciiConcat(a, c);
    AsciiConcat(b, d);
    SameConcat(Ascii(a), Ascii(b), Ascii(c), Ascii(d));
  }

  lemma QuotedSegment(prefix: bytes, value: bytes)
    requires prefix != [] && 32 < prefix[0] < 0x80
    ensures Trim([SPACE] + Segment(prefix, value)) == Segment(prefix, value)
    ensures StartsWith(Segment(prefix, value), prefix)
    ensures Lacks(value, QUOTE) ==> Unquoted(Segment(prefix, value)[|prefix|..]) == value
  {
    hide Trim, Unquoted;
    var s := Segment(prefix, value);
    TrimAfterSpace(s);
    VisibleEnds(s);
    assert s[..|prefix|] == prefix && s[|prefix|..] == [QUOTE] + value + [QUOTE];
    if Lacks(value, QUOTE) {
      UnquotedQuoted(value);
    }
  }

  lemma PrefixesDiffer(value: bytes)
    ensures NamePrefix() != [] && 32 < NamePrefix()[0] < 0x80
    ensures FilenamePrefix() != [] && 32 < FilenamePrefix()[0] < 0x80
    ensures !StartsWith(Segment(FilenamePrefix(), value), NamePrefix())
  {
    var s := Segment(FilenamePrefix(), value);
    assert s[0] == FilenamePrefix()[0];
    assert |s| >= 5 ==> s[..5][0] == s[0];
  }

  lemma SegmentsRead(h: PartHeaders, field: bytes, file: bytes)
    requires Lacks(field, QUOTE) && Lacks(file, QUOTE)
    ensures WithSegments(h, [[SPACE] + Segment(NamePrefix(), field), [SPACE] + Segment(FilenamePrefix(), file)])
         == h.(fieldName := Some(field), filename := Some(file))
  {
    hide Trim, Unquoted, StartsWith, NamePrefix, FilenamePrefix, Segment;
    PrefixesDiffer(file);
    QuotedSegment(NamePrefix(), field);
    QuotedSegment(FilenamePrefix(), file);
    var a, b := [SPACE] + Segment(NamePrefix(), field), [SPACE] + Segment(FilenamePrefix(), file);
    assert [a, b][1..] == [b] && [b][1..] == [];
    var h1 := WithSegment(h, a);
    assert h1 == h.(fieldName := Some(field));
    var h2 := WithSegment(h1, b);
    assert h2 == h1.(filename := Some(file));
    assert WithSegments(h2, []) == h2;
    assert WithSegments(h1, [b]) == h2;
  }

  lemma SegmentLacks(prefix: bytes, value: bytes, c: byte)
    requires Lacks(prefix, c) && Lacks(value, c) && c != QUOTE && c != SPACE
    ensures Lacks([SPACE] + Segment(prefix, value), c)
  {
  }

  lemma DispositionSplits(p: Part)
    requires PlainText(p.fieldName) && PlainText(p.filename)
    ensures Split(DispositionValue(p), [SEMICOLON])
         == [FormData(), [SPACE] + Segment(NamePrefix(), p.fieldName), [SPACE] + Segment(FilenamePrefix(), p.filename)]
  {
    hide SplitOnce, Segment, FormData, NamePrefix, FilenamePrefix, ValidUtf8;
    LiteralsLack();
    var a, b := [SPACE] + Segment(NamePrefix(), p.fieldName), [SPACE] + Segment(FilenamePrefix(), p.filename);
    SegmentLacks(NamePrefix(), p.fieldName, SEMICOLON);
    SegmentLacks(FilenamePrefix(), p.filename, SEMICOLON);
    SplitAt(FormData(), SEMICOLON, a + [SEMICOLON] + b);
    SplitAt(a, SEMICOLON, b);
    SplitNone(b, SEMICOLON);
    assert Split(b, [SEMICOLON]) == [b];
    assert Split(a + [SEMICOLON] + b, [SEMICOLON]) == [a] + [b];
    assert DispositionValue(p) == FormData() + [SEMICOLON] + (a + [SEMICOLON] + b);
    assert [FormData()] + ([a] + [b]) == [FormData(), a, b];
  }

  lemma DispositionEnds(p: Part)
    ensures Trim([SPACE] + DispositionValue(p)) == DispositionValue(p)
  {
    hide Trim;
    var v := DispositionValue(p);
    assert v[0] == FormData()[0] && v[|v| - 1] == QUOTE;
    TrimAfterSpace(v);
    VisibleEnds(v);
  }

  lemma NameIsTrimmed()
    ensures Trim(DispositionName()) == DispositionName() && Trim(TypeName()) == TypeName()
  {
    hide Trim;
    VisibleEnds(DispositionName());
    VisibleEnds(TypeName());
  }

  lemma DispositionRead(h: PartHeaders, p: Part)
    requires PlainText(p.fieldName) && PlainText(p.filename)
    ensures WithHeader(h, DispositionLine(p)) == Ok(h.(fieldName := Some(p.fieldName), filename := Some(p.filename)))
  {
    hide Trim, SplitOnce, Split, Segment, SameIgnoringCase, DispositionName, ContentDisposition, DispositionValue,
      ValidUtf8, NamePrefix, FilenamePrefix, FormData, WithSegments, TypeName;
    LiteralsLack();
    HeaderNames();
    NameIsTrimmed();
    SplitAt(DispositionName(), COLON, [SPACE] + DispositionValue(p));
    DispositionEnds(p);
    DispositionSplits(p);
    var a, b := [SPACE] + Segment(NamePrefix(), p.fieldName), [SPACE] + Segment(FilenamePrefix(), p.filename);
    assert [FormData(), a, b][1..] == [a, b];
    SegmentsRead(h, p.fieldName, p.filename);
  }

  lemma TypeRead(h: PartHeaders, t: bytes)
    requires Trim(t) == t
    ensures WithHeader(h, TypeLine(t)) == Ok(h.(contentType := Some(t)))
  {
    hide Trim, SplitOnce, SameIgnoringCase, DispositionName, ContentDisposition, ContentType, TypeName;
    LiteralsLack();
    HeaderNames();
    NameIsTrimmed();
    SplitAt(TypeName(), COLON, [SPACE] + t);
    TrimAfterSpace(t);
  }

  // ----- Cutting an encoded part into headers and content.

  lemma LinesLack(p: Part)
    requires PlainText(p.fieldName) && PlainText(p.filename)
    ensures Lacks(DispositionLine(p), CR)
    ensures p.contentType.Some? && Lacks(p.contentType.value, CR) ==> Lacks(TypeLine(p.contentType.value), CR)
  {
    hide Segment, ValidUtf8, FormData, NamePrefix, FilenamePrefix, DispositionName, TypeName;
    LiteralsLack();
    SegmentLacks(NamePrefix(), p.fieldName, CR);
    SegmentLacks(FilenamePrefix(), p.filename, CR);
  }

  lemma OneLineBlock(line: bytes, content: bytes)
    requires Lacks(line, CR)
    ensures SplitOnce(line + BLANK_LINE + content, BLANK_LINE) == Some((line, content))
    ensures Split(line, CRLF) == [line]
  {
    var s := line + BLANK_LINE + content;
    assert s[|line|..|line| + 4] == BLANK_LINE;
    assert forall k :: 0 <= k < |line| ==> s[k] == line[k] && line[k] in line;
    forall k | 0 <= k < |line| ensures !At(s, BLANK_LINE, k) {
      assert k + 4 <= |s| ==> s[k..k + 4][0] == s[k];
    }
    FindBytesIs(s, BLANK_LINE, |line|);
    assert s[..|line|] == line && s[|line| + 4..] == content;
    forall k ensures !At(line, CRLF, k) {
      assert 0 <= k && k + 2 <= |line| ==> line[k..k + 2][0] == line[k];
    }
  }

  lemma TwoLineSplit(a: bytes, b: bytes)
    requires Lacks(a, CR) && Lacks(b, CR)
    ensures Split(a + CRLF + b, CRLF) == [a, b]
  {
    var h := a + CRLF + b;
    assert h[|a|..|a| + 2] == CRLF;
    assert forall k :: 0 <= k < |a| ==> h[k] == a[k] && a[k] in a;
    forall k | 0 <= k < |a| ensures !At(h, CRLF, k) {
      assert k + 2 <= |h| ==> h[k..k + 2][0] == h[k];
    }
    FindBytesIs(h, CRLF, |a|);
    assert h[..|a|] == a && h[|a| + 2..] == b;
    OneLineBlock(b, []);
  }

  // In two lines, a carriage return stands only between them.
  lemma OnlyBreak(a: bytes, b: bytes, k: int)
    requires Lacks(a, CR) && Lacks(b, CR) && b != [] && 0 <= k < |a| + 2 + |b|
    ensures var h := a + CRLF + b; (h[k] == CR ==> k == |a|) && h[|a| + 2] != CR
  {
    var h := a + CRLF + b;
    assert forall i :: 0 <= i < |a| ==> h[i] == a[i] && a[i] in a;
    assert forall i :: 0 <= i < |b| ==> h[|a| + 2 + i] == b[i] && b[i] in b;
    assert k >= |a| + 2 ==> h[k] == b[k - |a| - 2];
    assert h[|a| + 2] == b[0];
  }

  lemma TwoLineBlock(a: bytes, b: bytes, content: bytes)
    requires Lacks(a, CR) && Lacks(b, CR) && b != []
    ensures SplitOnce(a + CRLF + b + BLANK_LINE + content, BLANK_LINE) == Some((a + CRLF + b, content))
    ensures Split(a + CRLF + b, CRLF) == [a, b]
  {
    hide Split, Lacks;
    TwoLineSplit(a, b);
    var h := a + CRLF + b;
    BlankLineAt(h, |a|, content) by {
      forall k | 0 <= k < |h| ensures h[k] == CR ==> k == |a| {
        OnlyBreak(a, b, k);
      }
      OnlyBreak(a, b, 0);
    }
  }

  lemma BlankLineAt(h: bytes, break_: nat, content: bytes)
    requires break_ + 2 < |h| && h[break_ + 2] != CR
    requires forall k :: 0 <= k < |h| && h[k] == CR ==> k == break_
    ensures SplitOnce(h + BLANK_LINE + content, BLANK_LINE) == Some((h, content))
  {
    var s := h + BLANK_LINE + content;
    assert s[|h|..|h| + 4] == BLANK_LINE;
    forall k | 0 <= k < |h| ensures !At(s, BLANK_LINE, k) {
      assert s[k] == h[k] && s[break_ + 2] == h[break_ + 2];
      assert k + 4 <= |s| ==> s[k..k + 4][0] == s[k] && s[k..k + 4][2] == s[k + 2];
    }
    FindBytesIs(s, BLANK_LINE, |h|);
    assert s[..|h|] == h && s[|h| + 4..] == content;
  }

  lemma LinesAreUtf8(p: Part)
    requires PlainText(p.fieldName) && PlainText(p.filename)
    requires p.contentType.Some? ==> ValidUtf8(p.contentType.value)
    ensures ValidUtf8(HeaderBlock(p))
  {
    hide ValidUtf8, Ascii;
    AsciiValid("Content-Disposition");
    AsciiValid("Content-Type");
    AsciiValid("form-data");
    AsciiValid("name=");
    AsciiValid("filename=");
    SegmentUtf8(NamePrefix(), p.fieldName);
    SegmentUtf8(FilenamePrefix(), p.filename);
    AsciiIsUtf8([SPACE]);
    AsciiIsUtf8([SEMICOLON]);
    AsciiIsUtf8(CRLF);
    var a, b := Segment(NamePrefix(), p.fieldName), Segment(FilenamePrefix(), p.filename);
    ValidUtf8Concat([SPACE], a);
    ValidUtf8Concat([SPACE], b);
    ValidUtf8Concat([SPACE] + a, [SEMICOLON]);
    ValidUtf8Concat([SPACE] + a + [SEMICOLON], [SPACE] + b);
    ValidUtf8Concat(FormData(), [SEMICOLON]);
    ValidUtf8Concat(FormData() + [SEMICOLON], [SPACE] + a + [SEMICOLON] + ([SPACE] + b));
    LineUtf8(DispositionName(), DispositionValue(p));
    if p.contentType.Some? {
      LineUtf8(TypeName(), p.contentType.value);
      ValidUtf8Concat(DispositionLine(p), CRLF);
      ValidUtf8Concat(DispositionLine(p) + CRLF, TypeLine(p.contentType.value));
    }
  }

  lemma SegmentUtf8(prefix: bytes, value: bytes)
    requires ValidUtf8(prefix) && ValidUtf8(value)
    ensures ValidUtf8(Segment(prefix, value))
  {
    hide ValidUtf8;
    AsciiIsUtf8([QUOTE]);
    ValidUtf8Concat([QUOTE], value);
    ValidUtf8Concat([QUOTE] + value, [QUOTE]);
    ValidUtf8Concat(prefix, [QUOTE] + value + [QUOTE]);
  }

  lemma LineUtf8(name: bytes, value: bytes)
    requires ValidUtf8(name) && ValidUtf8(value)
    ensures ValidUtf8(HeaderLine(name, value))
  {
    hide ValidUtf8;
    AsciiIsUtf8([COLON]);
    AsciiIsUtf8([SPACE]);
    ValidUtf8Concat(name, [COLON]);
    ValidUtf8Concat([SPACE], value);
    ValidUtf8Concat(name + [COLON], [SPACE] + value);
  }

  function AsFile(p: Part): ParsedFile {
    ParsedFile(p.fieldName, UploadedFile(p.filename, p.contentType, p.content))
  }

  function CheckedPart(p: Part, limits: MultipartLimits): Result<seq<ParsedFile>, UploadError> {
    var file :- Checked(limits, AsFile(p));
    Ok([file])
  }

  lemma HeadersRead(p: Part)
    requires PlainText(p.fieldName) && PlainText(p.filename)
    requires p.contentType.Some? ==> Lacks(p.contentType.value, CR) && Trim(p.contentType.value) == p.contentType.value
    ensures SplitOnce(PartText(p), BLANK_LINE) == Some((HeaderBlock(p), p.content))
    ensures WithHeaders(NO_HEADERS, Split(HeaderBlock(p), CRLF))
         == Ok(PartHeaders(Some(p.fieldName), Some(p.filename), p.contentType))
  {
    hide Trim, SplitOnce, Split, ValidUtf8, WithHeader, DispositionLine, TypeLine, Lacks;
    LinesLack(p);
    DispositionRead(NO_HEADERS, p);
    var line := DispositionLine(p);
    var h := NO_HEADERS.(fieldName := Some(p.fieldName), filename := Some(p.filename));
    match p.contentType {
      case None =>
        OneLineBlock(line, p.content);
        assert [line][1..] == [];
      case Some(t) =>
        assert TypeLine(t) != [] by { TypeLineNonempty(t); }
        TwoLineBlock(line, TypeLine(t), p.content);
        TypeRead(h, t);
        assert [line, TypeLine(t)][1..] == [TypeLine(t)] && [TypeLine(t)][1..] == [];
        assert WithHeaders(h, [TypeLine(t)]) == Ok(h.(contentType := Some(t)));
    }
  }

  lemma TypeLineNonempty(t: bytes)
    ensures TypeLine(t) != []
  {
  }

  lemma PartRead(p: Part, limits: MultipartLimits)
    requires ReadablePart(p)
    ensures ParsedPart(PartText(p), limits) == CheckedPart(p, limits)
  {
    hide Trim, SplitOnce, Split, ValidUtf8, WithHeaders, DispositionLine, TypeLine, Lacks, Occurs, Checked, PartText,
        HeaderBlock;
    HeadersRead(p);
    LinesAreUtf8(p);
  }

  // ----- The theorems.

  // Checking the parts directly, without encoding them.
  function CheckedParts(parts: seq<Part>, limits: MultipartLimits): Result<seq<ParsedFile>, UploadError> {
    if parts == [] then Ok([])
    else
      var files :- CheckedPart(parts[0], limits);
      var more :- CheckedParts(parts[1..], limits);
      Ok(files + more)
  }

  lemma {:induction false} PartsRead(body: bytes, slices: seq<Slice>, parts: seq<Part>, limits: MultipartLimits)
    requires WithinBody(body, slices) && |slices| == |parts| && ReadableParts(parts)
    requires forall i :: 0 <= i < |parts| ==> View(body, slices[i]) == PartText(parts[i])
    ensures ParsedParts(body, slices, limits) == CheckedParts(parts, limits)
  {
    hide ParsedPart, CheckedPart, ReadablePart, PartText;
    if parts != [] {
      PartRead(parts[0], limits);
      assert View(body, slices[0]) == PartText(parts[0]);
      PartsRead(body, slices[1..], parts[1..], limits);
    }
  }

  // Parsing an encoded form is the same as checking its parts against the limits one by one.
  lemma UploadRoundTrip(boundary: bytes, parts: seq<Part>, limits: MultipartLimits)
    requires WellFormedBoundary(boundary) && ReadableParts(parts) && AllMarkerFree(parts, Marker(boundary))
    ensures var body := EncodedBody(boundary, parts);
            ParsedUpload(Some(boundary), body, limits) ==
            if limits.wholeStream.Some? && |body| > limits.wholeStream.value
            then Err(StreamTooLarge(limits.wholeStream.value, |body|))
            else CheckedParts(parts, limits)
  {
    hide Sections, ParsedParts, CheckedParts, ReadablePart, MarkerFree, PartText, EncodedParts;
    var body, marker := EncodedBody(boundary, parts), Marker(boundary);
    MarkerLacksBreaks(boundary);
    assert body[0..] == body;
    SectionsOfEncoded(body, 0, parts, marker);
    PartsRead(body, Sections(body, 0, marker).value, parts, limits);
  }

  // ----- And only then.

  // Any proper front of a part's text is refused, or read as a file with less content.
  lemma FrontOfPart(p: Part, front: bytes, limits: MultipartLimits)
    requires ReadablePart(p) && |front| < |PartText(p)| && front == PartText(p)[..|front|]
    ensures var r := ParsedPart(front, limits);
            r.Ok? ==> |r.value| == 1 && r.value[0].fieldName == p.fieldName && |r.value[0].file.content| < |p.content|
  {
    hide Trim, Split, ValidUtf8, WithHeaders, HeaderBlock, Checked, SplitOnce, PartText, At;
    HeadersRead(p);
    var text := PartText(p);
    BlankLineFirst(text);
    BlankLineFirst(front);
    if SplitOnce(front, BLANK_LINE).Some? {
      SameBlankLine(text, front, |SplitOnce(front, BLANK_LINE).value.0|, |HeaderBlock(p)|);
      CheckedKeeps(limits);
    }
  }

  // The first blank line of a text is the first one of each of its fronts that has one.
  lemma SameBlankLine(text: bytes, front: bytes, j: nat, k: nat)
    requires |front| < |text| && front == text[..|front|]
    requires At(front, BLANK_LINE, j) && forall i :: 0 <= i < j ==> !At(front, BLANK_LINE, i)
    requires At(text, BLANK_LINE, k) && forall i :: 0 <= i < k ==> !At(text, BLANK_LINE, i)
    ensures j == k && front[..j] == text[..k]
  {
    assert text[j..j + 4] == front[j..j + 4];
    assert At(text, BLANK_LINE, j);
    assert front[k..k + 4] == text[k..k + 4];
    assert At(front, BLANK_LINE, k);
  }

  // Splitting off the front ends at the first blank line.
  lemma BlankLineFirst(s: bytes)
    ensures var r := SplitOnce(s, BLANK_LINE);
            r.Some? ==> var n := |r.value.0|;
                        && n + 4 <= |s| && s[..n] == r.value.0 && r.value.1 == s[n + 4..] && s[n..n + 4] == BLANK_LINE
                        && At(s, BLANK_LINE, n) && forall k :: 0 <= k < n ==> !At(s, BLANK_LINE, k)
  {
  }

  lemma CheckedKeeps(limits: MultipartLimits)
    ensures forall f :: Checked(limits, f).Ok? ==> Checked(limits, f) == Ok(f)
  {
  }

  // With the marker inside some part, the parsed files are not the encoded ones.
  lemma {:induction false} CutParts(body: bytes, at: nat, parts: seq<Part>, marker: bytes, limits: MultipartLimits)
    requires marker != [] && Lacks(marker, CR) && Lacks(marker, LF) && ReadableParts(parts)
    requires at <= |body| && body[at..] == EncodedParts(parts, marker) + Closing(marker)
    requires !AllMarkerFree(parts, marker) && CheckedParts(parts, limits).Ok?
    ensures var r := Sections(body[at..], at, marker);
            r.Ok? ==> WithinBody(body, r.value) && ParsedParts(body, r.value, limits) != CheckedParts(parts, limits)
    decreases |parts|
  {
    hide PartText, Closing, Occurs, Sections, ReadablePart, ParsedPart, Checked, Lacks;
    var r := Sections(body[at..], at, marker);
    SectionsWithin(body, at, marker);
    var p := parts[0];
    var text := PartText(p);
    var more := EncodedParts(parts[1..], marker) + Closing(marker);
    assert body[at..] == marker + CRLF + (text + CRLF) + more;
    CheckedKeeps(limits);
    if MarkerFree(p, marker) {
      MarkerFreeLine(text, marker);
      var tail := NextMarker(parts[1..], marker);
      SectionStep(body, at, marker, text, more, tail);
      var start := at + |marker| + 2;
      var next := start + |text| + 2;
      assert !AllMarkerFree(parts[1..], marker);
      CutParts(body, next, parts[1..], marker, limits);
      PartRead(p, limits);
      if r.Ok? {
        var rest := Sections(body[next..], next, marker).value;
        assert r.value == [Slice(start, start + |text|)] + rest && r.value[1..] == rest;
        SameFront([AsFile(p)], ParsedParts(body, rest, limits), CheckedParts(parts[1..], limits));
      }
    } else if r.Ok? {
      CutFirst(body, at, text, marker, more);
      FrontOfPart(p, View(body, r.value[0]), limits);
      CutFront(ParsedPart(View(body, r.value[0]), limits), p, ParsedParts(body, r.value[1..], limits),
               CheckedParts(parts[1..], limits));
    }
  }

  lemma SameFront(front: seq<ParsedFile>, a: Result<seq<ParsedFile>, UploadError>,
                  b: Result<seq<ParsedFile>, UploadError>)
    requires b.Ok? && a != b
    ensures a.Ok? ==> front + a.value != front + b.value
  {
    if a.Ok? {
      assert (front + a.value)[|front|..] == a.value && (front + b.value)[|front|..] == b.value;
    }
  }

  lemma CutFront(first: Result<seq<ParsedFile>, UploadError>, p: Part, a: Result<seq<ParsedFile>, UploadError>,
                 b: Result<seq<ParsedFile>, UploadError>)
    requires b.Ok? && (first.Ok? ==> |first.value| == 1 && |first.value[0].file.content| < |p.content|)
    ensures first.Ok? && a.Ok? ==> first.value + a.value != [AsFile(p)] + b.value
  {
    if first.Ok? && a.Ok? {
      assert (first.value + a.value)[0] == first.value[0] && ([AsFile(p)] + b.value)[0] == AsFile(p);
    }
  }

  // For parts within the limits, parsing the encoded form returns them exactly when the marker occurs in
  // none of them.
  lemma UploadRoundTripExactly(boundary: bytes, parts: seq<Part>, limits: MultipartLimits)
    requires WellFormedBoundary(boundary) && ReadableParts(parts) && CheckedParts(parts, limits).Ok?
    requires limits.wholeStream.Some? ==> |EncodedBody(boundary, parts)| <= limits.wholeStream.value
    ensures ParsedUpload(Some(boundary), EncodedBody(boundary, parts), limits) == CheckedParts(parts, limits)
            <==> AllMarkerFree(parts, Marker(boundary))
  {
    hide Sections, ParsedParts, CheckedParts, ReadablePart, MarkerFree, PartText, EncodedParts;
    var body, marker := EncodedBody(boundary, parts), Marker(boundary);
    MarkerLacksBreaks(boundary);
    if AllMarkerFree(parts, marker) {
      UploadRoundTrip(boundary, parts, limits);
    } else {
      assert body[0..] == body;
      CutParts(body, 0, parts, marker, limits);
    }
  }

  const MID_LINE := Part([102], [110], None, [120, 45, 45, 98])

  lemma MidLineMarker()
    ensures Occurs(MID_LINE.content, Marker([98])) && Lacks(MID_LINE.content, LF)
    ensures !StartsWith(MID_LINE.content, Marker([98]))
    ensures ReadablePart(MID_LINE) && WellFormedBoundary([98])
  {
    hide ValidUtf8;
    var marker := Marker([98]);
    assert MID_LINE.content[1..1 + |marker|] == marker;
    assert At(MID_LINE.content, marker, 1);
    assert MID_LINE.content[0] != marker[0];
    AsciiIsUtf8([102]);
    AsciiIsUtf8([110]);
  }

  // The boundary `b`, and a file with the one line `x--b`: the marker stands in mid-line, where section
  // 5.1.1 of RFC 2046 allows it, and the file is cut short all the same.
  lemma MidLineMarkerCuts()
    ensures Occurs(MID_LINE.content, Marker([98])) && Lacks(MID_LINE.content, LF)
        && !StartsWith(MID_LINE.content, Marker([98]))
    ensures ReadablePart(MID_LINE) && CheckedParts([MID_LINE], NO_LIMITS).Ok?
    ensures ParsedUpload(Some([98]), EncodedBody([98], [MID_LINE]), NO_LIMITS) != CheckedParts([MID_LINE], NO_LIMITS)
  {
    hide EncodedBody, ParsedUpload, PartText, DispositionLine, CheckedParts, ReadablePart, Occurs, Lacks;
    var marker := Marker([98]);
    MidLineMarker();
    MarkerLacksBreaks([98]);
    MarkerFreeExactly(MID_LINE, marker);
    UnlimitedParts([MID_LINE], [102]);
    assert !MarkerFree([MID_LINE][0], marker);
    UploadRoundTripExactly([98], [MID_LINE], NO_LIMITS);
  }

  function AsUploads(parts: seq<Part>, field: bytes): seq<UploadedFile> {
    if parts == [] then []
    else (if parts[0].fieldName == field then [AsFile(parts[0]).file] else []) + AsUploads(parts[1..], field)
  }

  lemma {:induction false} UnlimitedParts(parts: seq<Part>, field: bytes)
    ensures CheckedParts(parts, NO_LIMITS).Ok?
    ensures FilesOf(CheckedParts(parts, NO_LIMITS).value, field) == AsUploads(parts, field)
  {
    if parts != [] {
      UnlimitedParts(parts[1..], field);
      var more := CheckedParts(parts[1..], NO_LIMITS).value;
      var file := AsFile(parts[0]);
      assert CheckedPart(parts[0], NO_LIMITS) == Ok([file]);
      assert ([file] + more)[1..] == more;
    }
  }

  // Without limits the interceptors return exactly the encoded files of their field, in order.
  lemma ExtractRoundTrip(boundary: bytes, parts: seq<Part>, field: bytes)
    requires WellFormedBoundary(boundary) && ReadableParts(parts) && AllMarkerFree(parts, Marker(boundary))
    ensures var i := Interceptor(field, NO_LIMITS);
            var files := AsUploads(parts, field);
            && i.ExtractAll(Some(boundary), EncodedBody(boundary, parts))
               == (if files == [] then Err(MissingFile(field)) else Ok(files))
            && i.ExtractOne(Some(boundary), EncodedBody(boundary, parts))
               == (if files == [] then Err(MissingFile(field))
                   else if |files| == 1 then Ok(files[0])
                   else Err(TooManyFiles(field, |files|)))
  {
    hide ParsedUpload, CheckedParts, FilesOf, AsUploads, EncodedBody, ReadablePart, MarkerFree;
    UploadRoundTrip(boundary, parts, NO_LIMITS);
    UnlimitedParts(parts, field);
  }

  lemma FilesOfFirst(files: seq<ParsedFile>, f: ParsedFile, field: bytes)
    requires f.fieldName == field
    ensures FilesOf([f] + files, field) == [f.file] + FilesOf(files, field)
  {
    assert ([f] + files)[1..] == files;
  }

  predicate AllOfField(parts: seq<Part>, field: bytes) {
    forall i :: 0 <= i < |parts| ==> parts[i].fieldName == field
  }

  // With the marker inside some part, the files of the field are not the encoded ones.
  lemma {:induction false} CutFiles(body: bytes, at: nat, parts: seq<Part>, marker: bytes, field: bytes)
    requires marker != [] && Lacks(marker, CR) && Lacks(marker, LF) && ReadableParts(parts) && AllOfField(parts, field)
    requires at <= |body| && body[at..] == EncodedParts(parts, marker) + Closing(marker)
    requires !AllMarkerFree(parts, marker)
    ensures var r := Sections(body[at..], at, marker);
            r.Ok? ==> WithinBody(body, r.value)
                      && var files := ParsedParts(body, r.value, NO_LIMITS);
                         files.Ok? ==> FilesOf(files.value, field) != AsUploads(parts, field)
    decreases |parts|
  {
    hide PartText, Closing, Occurs, Sections, ReadablePart, ParsedPart, FilesOf, Lacks;
    var r := Sections(body[at..], at, marker);
    SectionsWithin(body, at, marker);
    var p := parts[0];
    var text := PartText(p);
    var more := EncodedParts(parts[1..], marker) + Closing(marker);
    assert body[at..] == marker + CRLF + (text + CRLF) + more;
    if MarkerFree(p, marker) {
      MarkerFreeLine(text, marker);
      var tail := NextMarker(parts[1..], marker);
      SectionStep(body, at, marker, text, more, tail);
      var start := at + |marker| + 2;
      var next := start + |text| + 2;
      assert !AllMarkerFree(parts[1..], marker);
      CutFiles(body, next, parts[1..], marker, field);
      PartRead(p, NO_LIMITS);
      if r.Ok? {
        var rest := Sections(body[next..], next, marker).value;
        assert r.value == [Slice(start, start + |text|)] + rest && r.value[1..] == rest;
        var files := ParsedParts(body, rest, NO_LIMITS);
        if files.Ok? {
          FilesOfFirst(files.value, AsFile(p), field);
          OtherTail(AsFile(p).file, FilesOf(files.value, field), AsUploads(parts[1..], field));
        }
      }
    } else if r.Ok? {
      CutFirst(body, at, text, marker, more);
      var first := ParsedPart(View(body, r.value[0]), NO_LIMITS);
      var rest := ParsedParts(body, r.value[1..], NO_LIMITS);
      FrontOfPart(p, View(body, r.value[0]), NO_LIMITS);
      if first.Ok? && rest.Ok? {
        assert first.value == [first.value[0]];
        FilesOfFirst(rest.value, first.value[0], field);
        assert FilesOf(first.value + rest.value, field)[0] == first.value[0].file;
        assert AsUploads(parts, field)[0] == AsFile(p).file;
      }
    }
  }

  lemma OtherTail(file: UploadedFile, a: seq<UploadedFile>, b: seq<UploadedFile>)
    ensures [file] + a == [file] + b <==> a == b
  {
    assert ([file] + a)[1..] == a && ([file] + b)[1..] == b;
  }

  // The interceptor returns the files of a form, all of its field, exactly when the marker occurs in none
  // of them.
  lemma ExtractExactly(boundary: bytes, parts: seq<Part>, field: bytes)
    requires WellFormedBoundary(boundary) && ReadableParts(parts) && parts != [] && AllOfField(parts, field)
    ensures var r := Interceptor(field, NO_LIMITS).ExtractAll(Some(boundary), EncodedBody(boundary, parts));
            r == Ok(AsUploads(parts, field)) <==> AllMarkerFree(parts, Marker(boundary))
  {
    hide Sections, ParsedParts, FilesOf, ReadablePart, MarkerFree, PartText, EncodedParts;
    var body, marker := EncodedBody(boundary, parts), Marker(boundary);
    MarkerLacksBreaks(boundary);
    assert parts[0].fieldName == field;
    if AllMarkerFree(parts, marker) {
      ExtractRoundTrip(boundary, parts, field);
    } else {
      assert body[0..] == body;
      CutFiles(body, 0, parts, marker, field);
    }
  }
}
