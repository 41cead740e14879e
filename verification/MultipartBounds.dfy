/** What the upload parser guarantees on arbitrary bytes. */
module MultipartBounds {
  import opened Results
  import opened Bytes
  import opened Multipart

  function View(body: bytes, s: Slice): bytes
    requires s.start <= s.end <= |body|
  {
    body[s.start..s.end]
  }

  // The section stands between two markers: right after one (and its line end), right before another.
  predicate Delimited(body: bytes, s: Slice, marker: bytes)
    requires s.start <= s.end <= |body|
  {
    && (EndsWith(body[..s.start], marker) || EndsWith(body[..s.start], marker + CRLF))
    && (StartsWith(body[s.end..], marker) || StartsWith(body[s.end..], CRLF + marker))
  }

  lemma AbsentBeforeFirst(s: bytes, needle: bytes, n: nat)
    requires needle != [] && FindBytes(s, needle).Some? && n <= FindBytes(s, needle).value
    ensures !Occurs(s[..n], needle)
  {
    if Occurs(s[..n], needle) {
      var k :| At(s[..n], needle, k);
      assert s[..n][k..k + |needle|] == s[k..k + |needle|];
      assert At(s, needle, k);
    }
  }

  lemma AfterMarker(rest: bytes, marker: bytes, index: nat)
    requires At(rest, marker, index)
    ensures var start := ContentStart(rest, index + |marker|);
            EndsWith(rest[..start], marker) || EndsWith(rest[..start], marker + CRLF)
  {
    var after := index + |marker|;
    assert rest[..after][index..] == marker;
    var start := ContentStart(rest, after);
    if start != after {
      assert rest[after..][..2] == CRLF;
      assert rest[..start][index..] == rest[index..after] + rest[after..][..2];
    }
  }

  lemma BeforeMarker(rest: bytes, marker: bytes, start: nat, next: nat)
    requires start <= next && At(rest, marker, next)
    ensures var end := ContentEnd(rest, start, next);
            StartsWith(rest[end..], marker) || StartsWith(rest[end..], CRLF + marker)
  {
    var end := ContentEnd(rest, start, next);
    if end == next {
      assert rest[end..][..|marker|] == marker;
    } else {
      assert rest[start..next][next - start - 2..] == CRLF;
      assert rest[end..][..2 + |marker|] == rest[start..next][next - start - 2..] + rest[next..next + |marker|];
    }
  }

  lemma SectionParts(rest: bytes, marker: bytes) returns (index: nat)
    requires marker != [] && FirstSection(rest, marker).Section?
    ensures var f := FirstSection(rest, marker);
            && At(rest, marker, index)
            && f.start == ContentStart(rest, index + |marker|)
            && f.end == ContentEnd(rest, f.start, f.next)
            && FindBytes(rest[f.start..], marker) == Some(f.next - f.start)
            && At(rest, marker, f.next)
  {
    hide StartsWith, ContentEnd, ContentStart;
    var f := FirstSection(rest, marker);
    index := FindBytes(rest, marker).value;
    var next := FindBytes(rest[f.start..], marker).value;
    assert rest[f.start..][next..next + |marker|] == rest[f.next..f.next + |marker|];
  }

  lemma FirstSectionDelimits(rest: bytes, marker: bytes)
    requires marker != [] && FirstSection(rest, marker).Section?
    ensures var f := FirstSection(rest, marker);
            && !Occurs(rest[f.start..f.end], marker)
            && Delimited(rest, Slice(f.start, f.end), marker)
            && StartsWith(rest[f.next..], marker)
  {
    hide EndsWith, StartsWith, Occurs, ContentEnd, ContentStart, FirstSection, FindBytes, At;
    var f := FirstSection(rest, marker);
    var index := SectionParts(rest, marker);
    AbsentBeforeFirst(rest[f.start..], marker, f.end - f.start);
    assert rest[f.start..][..f.end - f.start] == rest[f.start..f.end];
    AfterMarker(rest, marker, index);
    BeforeMarker(rest, marker, f.start, f.next);
    EmptyTail(rest, f.next, marker);
  }

  lemma EmptyTail(rest: bytes, next: nat, marker: bytes)
    requires At(rest, marker, next)
    ensures StartsWith(rest[next..], marker)
  {
    assert rest[next..][..|marker|] == rest[next..next + |marker|];
  }

  lemma {:induction false} SectionsDelimited(body: bytes, at: nat, marker: bytes)
    requires marker != [] && at <= |body| && Sections(body[at..], at, marker).Ok?
    ensures var slices := Sections(body[at..], at, marker).value;
            && WithinBody(body, slices)
            && (forall i ::
                0 <= i < |slices| ==> !Occurs(View(body, slices[i]), marker) && Delimited(body, slices[i], marker))
            && (forall i :: 0 <= i < |slices| ==> at + |marker| <= slices[i].start)
            && (forall i, j :: 0 <= i < j < |slices| ==> slices[i].end + |marker| <= slices[j].start)
    decreases |body| - at
  {
    hide FirstSection, Occurs, Delimited, At;
    var rest := body[at..];
    var f := FirstSection(rest, marker);
    if f.Section? {
      FirstSectionDelimits(rest, marker);
      assert rest[f.next..] == body[at + f.next..];
      SectionsDelimited(body, at + f.next, marker);
      assert rest[f.start..f.end] == body[at + f.start..at + f.end];
      ShiftDelimited(body, at, Slice(f.start, f.end), marker);
    }
  }

  lemma ShiftDelimited(body: bytes, at: nat, s: Slice, marker: bytes)
    requires at <= |body| && s.start <= s.end <= |body| - at && Delimited(body[at..], s, marker)
    ensures Delimited(body, Slice(at + s.start, at + s.end), marker)
  {
    assert body[at..][..s.start] == body[at..at + s.start];
    assert body[at..][s.end..] == body[at + s.end..];
    var before := body[..at + s.start];
    forall suffix | EndsWith(body[at..at + s.start], suffix) ensures EndsWith(before, suffix) {
      assert body[at..at + s.start][s.start - |suffix|..] == before[|before| - |suffix|..];
    }
  }

  // ----- Accepted files.

  predicate WithinLimits(limits: MultipartLimits, f: ParsedFile) {
    && AllowsField(limits, f.fieldName)
    && AllowsMimeType(limits, f.file.contentType)
    && (SizeLimit(limits, f.fieldName).Some? ==> |f.file.content| <= SizeLimit(limits, f.fieldName).value)
  }

  function TotalBytes(files: seq<ParsedFile>): nat {
    if files == [] then 0 else |files[0].file.content| + TotalBytes(files[1..])
  }

  lemma {:induction false} TotalConcat(a: seq<ParsedFile>, b: seq<ParsedFile>)
    ensures TotalBytes(a + b) == TotalBytes(a) + TotalBytes(b)
  {
    if a == [] {
      assert a + b == b;
    } else {
      assert (a + b)[1..] == a[1..] + b;
      TotalConcat(a[1..], b);
    }
  }

  lemma PartAccepted(part: bytes, limits: MultipartLimits)
    requires ParsedPart(part, limits).Ok?
    ensures var files := ParsedPart(part, limits).value;
            && (forall f :: f in files ==> WithinLimits(limits, f) && EndsWith(part, f.file.content))
            && TotalBytes(files) <= |part|
  {
    hide ValidUtf8, WithHeaders, Split;
    var (headers, content) := SplitOnce(part, BLANK_LINE).value;
    var files := ParsedPart(part, limits).value;
    if files != [] {
      assert files[1..] == [];
      assert EndsWith(headers + BLANK_LINE + content, content);
    }
  }

  lemma {:induction false} PartsAccepted(body: bytes, slices: seq<Slice>, limits: MultipartLimits, from: nat)
    requires WithinBody(body, slices) && ParsedParts(body, slices, limits).Ok?
    requires forall i :: 0 <= i < |slices| ==> from <= slices[i].start
    requires forall i, j :: 0 <= i < j < |slices| ==> slices[i].end <= slices[j].start
    ensures var files := ParsedParts(body, slices, limits).value;
            && (forall f :: f in files ==> WithinLimits(limits, f))
            && (from <= |body| ==> TotalBytes(files) <= |body| - from)
  {
    hide ParsedPart, WithinLimits;
    if slices != [] {
      var part := body[slices[0].start..slices[0].end];
      PartAccepted(part, limits);
      PartsAccepted(body, slices[1..], limits, slices[0].end);
      TotalConcat(ParsedPart(part, limits).value, ParsedParts(body, slices[1..], limits).value);
    }
  }

  // Every accepted file obeys its limits, and together they are no longer than the body.
  lemma UploadAccepted(boundary: Option<bytes>, body: bytes, limits: MultipartLimits)
    requires ParsedUpload(boundary, body, limits).Ok?
    ensures var files := ParsedUpload(boundary, body, limits).value;
            && (forall f :: f in files ==> WithinLimits(limits, f))
            && TotalBytes(files) <= |body|
            && (limits.wholeStream.Some? ==> TotalBytes(files) <= limits.wholeStream.value)
  {
    hide Sections, ParsedParts, WithinLimits, View, Occurs;
    assert body[0..] == body;
    var marker := Marker(boundary.value);
    SectionsDelimited(body, 0, marker);
    PartsAccepted(body, Sections(body, 0, marker).value, limits, 0);
  }
}
