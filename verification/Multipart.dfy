/** The multipart upload parser of nivasa-http/src/upload.rs (section 5.1.1 of RFC 2046,
    section 4 of RFC 7578). */
module Multipart {
  import opened Results
  import opened Bytes

  datatype Fault =
    | MissingClosingBoundary
    | MissingHeaderSeparator
    | HeadersNotUtf8
    | InvalidHeaderLine(line: bytes)
    | MissingFieldName

  datatype UploadError =
    | MissingMultipartBoundary
    | InvalidMultipart(fault: Fault)
    | UnknownField(name: bytes)
    | MissingFile(field: bytes)
    | TooManyFiles(field: bytes, count: nat)
    | FieldTooLarge(field: bytes, limit: nat, actual: nat)
    | StreamTooLarge(limit: nat, actual: nat)
    | DisallowedMimeType(mimeType: Option<bytes>)

  datatype UploadedFile = UploadedFile(filename: bytes, contentType: Option<bytes>, content: bytes)

  datatype ParsedFile = ParsedFile(fieldName: bytes, file: UploadedFile)

  datatype MultipartLimits = MultipartLimits(
    wholeStream: Option<nat>,
    perField: Option<nat>,
    fieldLimits: map<bytes, nat>,
    allowedFields: seq<bytes>,
    allowedMimeTypes: seq<bytes>)

  const NO_LIMITS := MultipartLimits(None, None, map[], [], [])

  const CRLF: bytes := [CR, LF]
  const DASHES: bytes := [45, 45]
  const BLANK_LINE: bytes := [CR, LF, CR, LF]

  function Marker(boundary: bytes): bytes {
    DASHES + boundary
  }

  // ----- Sections: views into the body, as the borrowed slices of the source are.

  datatype Slice = Slice(start: nat, end: nat)

  // The first section of some text: where it starts and ends, and where its closing marker stands.
  datatype Found = NoSection | Unclosed | Section(start: nat, end: nat, next: nat)

  function ContentStart(rest: bytes, afterMarker: nat): (start: nat)
    requires afterMarker <= |rest|
    ensures afterMarker <= start <= |rest|
  {
    if StartsWith(rest[afterMarker..], CRLF) then afterMarker + 2 else afterMarker
  }

  function ContentEnd(rest: bytes, start: nat, next: nat): (end: nat)
    requires start <= next <= |rest|
    ensures start <= end <= next
  {
    if EndsWith(rest[start..next], CRLF) then next - 2 else next
  }

  function FirstSection(rest: bytes, marker: bytes): (f: Found)
    requires marker != []
    ensures f.Section? ==> |marker| <= f.start <= f.end <= f.next <= |rest|
  {
    match FindBytes(rest, marker)
    case None => NoSection
    case Some(index) =>
      if StartsWith(rest[index + |marker|..], DASHES) then NoSection
      else
        var start := ContentStart(rest, index + |marker|);
        match FindBytes(rest[start..], marker)
        case None => Unclosed
        case Some(next) => Section(start, ContentEnd(rest, start, start + next), start + next)
  }

  // Sections of `rest`, which begins at position `at` of the body.
  function Sections(rest: bytes, at: nat, marker: bytes): Result<seq<Slice>, UploadError>
    requires marker != []
    decreases |rest|
  {
    match FirstSection(rest, marker)
    case NoSection => Ok([])
    case Unclosed => Err(InvalidMultipart(MissingClosingBoundary))
    case Section(start, end, next) =>
      var more :- Sections(rest[next..], at + next, marker);
      Ok([Slice(at + start, at + end)] + more)
  }

  // One round of the section loop on the text that is left.
  method TakeSection(rest: bytes, marker: bytes) returns (f: Found)
    requires marker != []
    ensures f == FirstSection(rest, marker)
  {
    hide At, StartsWith;
    var index := FindBytes(rest, marker);
    if index.None? {
      return NoSection;
    }
    var at := index.value + |marker|;
    ghost var start := ContentStart(rest, at);
    if StartsWith(rest[at..], DASHES) {
      return NoSection;
    }
    if StartsWith(rest[at..], CRLF) {
      at := at + 2;
    }
    var nextBoundary := FindBytes(rest[at..], marker);
    if nextBoundary.None? {
      return Unclosed;
    }
    var next := at + nextBoundary.value;
    var end := next;
    if EndsWith(rest[at..next], CRLF) {
      end := next - 2;
    }
    return Section(at, end, next);
  }

  method MultipartSections(body: bytes, marker: bytes) returns (r: Result<seq<Slice>, UploadError>)
    requires marker != []
    ensures r == Sections(body, 0, marker)
  {
    hide FirstSection;
    var rest, at: nat := body, 0;
    var sections: seq<Slice> := [];
    Prefixed([], [], Sections(body, 0, marker));
    while true
      invariant Sections(body, 0, marker) == Prepend(sections, Sections(rest, at, marker))
      decreases |rest|
    {
      var found := TakeSection(rest, marker);
      match found {
        case NoSection =>
          Prefixed(sections, [], Ok([]));
          return Ok(sections);
        case Unclosed =>
          return Err(InvalidMultipart(MissingClosingBoundary));
        case Section(start, end, next) =>
          var section := Slice(at + start, at + end);
          rest, at := rest[next..], at + next;
          Prefixed(sections, [section], Sections(rest, at, marker));
          sections := sections + [section];
      }
    }
  }

  function Prepend<T>(front: seq<T>, rest: Result<seq<T>, UploadError>): Result<seq<T>, UploadError> {
    match rest
    case Ok(more) => Ok(front + more)
    case Err(e) => Err(e)
  }

  lemma Prefixed<T>(a: seq<T>, b: seq<T>, rest: Result<seq<T>, UploadError>)
    ensures Prepend([], rest) == rest
    ensures Prepend(a, Ok([])) == Ok(a)
    ensures Prepend(a, Prepend(b, rest)) == Prepend(a + b, rest)
  {
    assert a + [] == a;
    match rest
    case Ok(more) =>
      assert [] + more == more;
      assert a + (b + more) == a + b + more;
    case Err(_) =>
  }

  // ----- Headers of one part.

  datatype PartHeaders = PartHeaders(fieldName: Option<bytes>, filename: Option<bytes>, contentType: Option<bytes>)

  const NO_HEADERS := PartHeaders(None, None, None)

  function ContentDisposition(): bytes {
    Ascii("content-disposition")
  }

  function ContentType(): bytes {
    Ascii("content-type")
  }

  function NamePrefix(): bytes {
    Ascii("name=")
  }

  function FilenamePrefix(): bytes {
    Ascii("filename=")
  }

  function WithSegment(h: PartHeaders, segment: bytes): PartHeaders {
    var s := Trim(segment);
    if StartsWith(s, NamePrefix()) then h.(fieldName := Some(Unquoted(s[|NamePrefix()|..])))
    else if StartsWith(s, FilenamePrefix()) then h.(filename := Some(Unquoted(s[|FilenamePrefix()|..])))
    else h
  }

  function WithSegments(h: PartHeaders, segments: seq<bytes>): PartHeaders
    decreases |segments|
  {
    if segments == [] then h else WithSegments(WithSegment(h, segments[0]), segments[1..])
  }

  function WithHeader(h: PartHeaders, line: bytes): Result<PartHeaders, UploadError> {
    match SplitOnce(line, [COLON])
    case None => Err(InvalidMultipart(InvalidHeaderLine(line)))
    case Some((rawName, rawValue)) =>
      var name, value := Trim(rawName), Trim(rawValue);
      if SameIgnoringCase(name, ContentDisposition()) then Ok(WithSegments(h, Split(value, [SEMICOLON])[1..]))
      else if SameIgnoringCase(name, ContentType()) then Ok(h.(contentType := Some(value)))
      else Ok(h)
  }

  function WithHeaders(h: PartHeaders, lines: seq<bytes>): Result<PartHeaders, UploadError>
    decreases |lines|
  {
    if lines == [] then Ok(h)
    else
      var next :- WithHeader(h, lines[0]);
      WithHeaders(next, lines[1..])
  }

  method ParseHeaders(headers: bytes) returns (r: Result<PartHeaders, UploadError>)
    ensures r == WithHeaders(NO_HEADERS, Split(headers, CRLF))
  {
    var h := NO_HEADERS;
    var lines := Split(headers, CRLF);
    for i := 0 to |lines|
      invariant WithHeaders(NO_HEADERS, lines) == WithHeaders(h, lines[i..])
    {
      assert lines[i..][1..] == lines[i + 1..];
      var line := lines[i];
      match SplitOnce(line, [COLON]) {
        case None => return Err(InvalidMultipart(InvalidHeaderLine(line)));
        case Some((rawName, rawValue)) =>
          var name, value := Trim(rawName), Trim(rawValue);
          if SameIgnoringCase(name, ContentDisposition()) {
            var segments := Split(value, [SEMICOLON])[1..];
            ghost var before := h;
            for j := 0 to |segments|
              invariant WithSegments(before, segments) == WithSegments(h, segments[j..])
            {
              assert segments[j..][1..] == segments[j + 1..];
              var segment := Trim(segments[j]);
              if StartsWith(segment, NamePrefix()) {
                h := h.(fieldName := Some(Unquoted(segment[|NamePrefix()|..])));
              } else if StartsWith(segment, FilenamePrefix()) {
                h := h.(filename := Some(Unquoted(segment[|FilenamePrefix()|..])));
              }
            }
          } else if SameIgnoringCase(name, ContentType()) {
            h := h.(contentType := Some(value));
          }
      }
    }
    return Ok(h);
  }

  // ----- Limits.

  predicate AllowsField(limits: MultipartLimits, field: bytes) {
    limits.allowedFields == [] || field in limits.allowedFields
  }

  predicate AllowsMimeType(limits: MultipartLimits, mimeType: Option<bytes>) {
    limits.allowedMimeTypes == [] || (mimeType.Some? && mimeType.value in limits.allowedMimeTypes)
  }

  function SizeLimit(limits: MultipartLimits, field: bytes): Option<nat> {
    if field in limits.fieldLimits then Some(limits.fieldLimits[field]) else limits.perField
  }

  function Checked(limits: MultipartLimits, parsed: ParsedFile): Result<ParsedFile, UploadError> {
    var limit := SizeLimit(limits, parsed.fieldName);
    if !AllowsField(limits, parsed.fieldName) then Err(UnknownField(parsed.fieldName))
    else if !AllowsMimeType(limits, parsed.file.contentType) then Err(DisallowedMimeType(parsed.file.contentType))
    else if limit.Some? && |parsed.file.content| > limit.value then
      Err(FieldTooLarge(parsed.fieldName, limit.value, |parsed.file.content|))
    else Ok(parsed)
  }

  // ----- One part: a file, or nothing when the part carries no filename.

  function ParsedPart(part: bytes, limits: MultipartLimits): Result<seq<ParsedFile>, UploadError> {
    match SplitOnce(part, BLANK_LINE)
    case None => Err(InvalidMultipart(MissingHeaderSeparator))
    case Some((headers, content)) =>
      if !ValidUtf8(headers) then Err(InvalidMultipart(HeadersNotUtf8))
      else
        var h :- WithHeaders(NO_HEADERS, Split(headers, CRLF));
        if h.fieldName.None? then Err(InvalidMultipart(MissingFieldName))
        else if h.filename.None? then Ok([])
        else
          var file :- Checked(limits, ParsedFile(h.fieldName.value,
              UploadedFile(h.filename.value, h.contentType, content)));
          Ok([file])
  }

  predicate WithinBody(body: bytes, slices: seq<Slice>) {
    forall i :: 0 <= i < |slices| ==> slices[i].start <= slices[i].end <= |body|
  }

  function ParsedParts(body: bytes, slices: seq<Slice>, limits: MultipartLimits): Result<seq<ParsedFile>, UploadError>
    requires WithinBody(body, slices)
  {
    if slices == [] then Ok([])
    else
      var files :- ParsedPart(body[slices[0].start..slices[0].end], limits);
      var more :- ParsedParts(body, slices[1..], limits);
      Ok(files + more)
  }

  lemma {:induction false} SectionsWithin(body: bytes, at: nat, marker: bytes)
    requires marker != [] && at <= |body|
    ensures Sections(body[at..], at, marker).Ok? ==> WithinBody(body, Sections(body[at..], at, marker).value)
    decreases |body| - at
  {
    hide FirstSection;
    var rest := body[at..];
    var f := FirstSection(rest, marker);
    if f.Section? {
      assert rest[f.next..] == body[at + f.next..];
      SectionsWithin(body, at + f.next, marker);
    }
  }

  // `multer::parse_boundary` is a parameter: None stands for its error.
  function ParsedUpload(boundary: Option<bytes>, body: bytes, limits: MultipartLimits)
    : Result<seq<ParsedFile>, UploadError>
  {
    if boundary.None? then Err(MissingMultipartBoundary)
    else if limits.wholeStream.Some? && |body| > limits.wholeStream.value then
      Err(StreamTooLarge(limits.wholeStream.value, |body|))
    else
      var slices :- Sections(body, 0, Marker(boundary.value));
      assert WithinBody(body, slices) by {
        assert body[0..] == body;
        SectionsWithin(body, 0, Marker(boundary.value));
      }
      ParsedParts(body, slices, limits)
  }

  method ParsePart(part: bytes, limits: MultipartLimits) returns (r: Result<seq<ParsedFile>, UploadError>)
    ensures r == ParsedPart(part, limits)
  {
    var split := SplitOnce(part, BLANK_LINE);
    if split.None? {
      return Err(InvalidMultipart(MissingHeaderSeparator));
    }
    var (headers, content) := split.value;
    if !ValidUtf8(headers) {
      return Err(InvalidMultipart(HeadersNotUtf8));
    }
    var parsed := ParseHeaders(headers);
    if parsed.Err? {
      return Err(parsed.error);
    }
    var PartHeaders(fieldName, filename, contentType) := parsed.value;
    if fieldName.None? {
      return Err(InvalidMultipart(MissingFieldName));
    }
    if filename.None? {
      return Ok([]);
    }
    if limits.allowedFields != [] && fieldName.value !in limits.allowedFields {
      return Err(UnknownField(fieldName.value));
    }
    if !AllowsMimeType(limits, contentType) {
      return Err(DisallowedMimeType(contentType));
    }
    var actual := |content|;
    var limit := SizeLimit(limits, fieldName.value);
    if limit.Some? && actual > limit.value {
      return Err(FieldTooLarge(fieldName.value, limit.value, actual));
    }
    return Ok([ParsedFile(fieldName.value, UploadedFile(filename.value, contentType, content))]);
  }

  // The part loop: files in order, up to the first part that is refused.
  method ParseParts(body: bytes, slices: seq<Slice>, limits: MultipartLimits)
      returns (r: Result<seq<ParsedFile>, UploadError>)
    requires WithinBody(body, slices)
    ensures r == ParsedParts(body, slices, limits)
  {
    hide ParsedPart;
    var files: seq<ParsedFile> := [];
    Prefixed([], [], ParsedParts(body, slices, limits));
    assert slices[0..] == slices;
    for i := 0 to |slices|
      invariant ParsedParts(body, slices, limits) == Prepend(files, ParsedParts(body, slices[i..], limits))
    {
      assert slices[i..][1..] == slices[i + 1..];
      var part := ParsePart(body[slices[i].start..slices[i].end], limits);
      if part.Err? {
        return Err(part.error);
      }
      Prefixed(files, part.value, ParsedParts(body, slices[i + 1..], limits));
      files := files + part.value;
    }
    assert slices[|slices|..] == [];
    Prefixed(files, [], Ok([]));
    return Ok(files);
  }

  method ParseUploadedFiles(boundary: Option<bytes>, body: bytes, limits: MultipartLimits)
    returns (r: Result<seq<ParsedFile>, UploadError>)
    ensures r == ParsedUpload(boundary, body, limits)
  {
    hide Sections, ParsedParts;
    if boundary.None? {
      return Err(MissingMultipartBoundary);
    }
    if limits.wholeStream.Some? && |body| > limits.wholeStream.value {
      return Err(StreamTooLarge(limits.wholeStream.value, |body|));
    }
    var marker := Marker(boundary.value);
    var sections := MultipartSections(body, marker);
    if sections.Err? {
      return Err(sections.error);
    }
    assert body[0..] == body;
    SectionsWithin(body, 0, marker);
    r := ParseParts(body, sections.value, limits);
  }

  // ----- The interceptors.

  function FilesOf(files: seq<ParsedFile>, field: bytes): seq<UploadedFile> {
    if files == [] then []
    else (if files[0].fieldName == field then [files[0].file] else []) + FilesOf(files[1..], field)
  }

  datatype Interceptor = Interceptor(fieldName: bytes, limits: MultipartLimits) {

    // `FilesInterceptor::extract_from_bytes`
    function ExtractAll(boundary: Option<bytes>, body: bytes): Result<seq<UploadedFile>, UploadError> {
      var parsed :- ParsedUpload(boundary, body, limits);
      var files := FilesOf(parsed, fieldName);
      if files == [] then Err(MissingFile(fieldName)) else Ok(files)
    }

    // `FileInterceptor::extract_from_bytes`
    function ExtractOne(boundary: Option<bytes>, body: bytes): Result<UploadedFile, UploadError> {
      var parsed :- ParsedUpload(boundary, body, limits);
      var files := FilesOf(parsed, fieldName);
      if files == [] then Err(MissingFile(fieldName))
      else if |files| == 1 then Ok(files[0])
      else Err(TooManyFiles(fieldName, |files|))
    }
  }
}
