/** Reading an event stream as sections 9.2.5 and 9.2.6 of the WHATWG HTML Living Standard say, and
    what comes out of the streams that Sse writes. */
module SseDecoder {
  import opened Results
  import opened Sse

  const NUL := '\0'
  const BYTE_ORDER_MARK := '\U{FEFF}'

  // ----- Section 9.2.5: lines end in CR LF, LF or CR; one leading byte order mark is dropped.

  function LineLen(s: string): (n: nat)
    ensures n <= |s|
  {
    if s == "" || s[0] == CR || s[0] == LF then 0 else 1 + LineLen(s[1..])
  }

  // The complete lines of a stream; text after the last line end is not a line yet.
  function StreamLines(s: string): seq<string>
    decreases |s|
  {
    var n := LineLen(s);
    if n == |s| then []
    else
      var end := if s[n] == CR && n + 1 < |s| && s[n + 1] == LF then n + 2 else n + 1;
      [s[..n]] + StreamLines(s[end..])
  }

  function WithoutMark(s: string): string {
    if s != "" && s[0] == BYTE_ORDER_MARK then s[1..] else s
  }

  // ----- Section 9.2.6: the buffers, and the messages dispatched so far.

  datatype Message = Message(eventType: string, data: string, lastEventId: string)

  datatype Reader = Reader(data: string, eventType: string, lastId: string, retry: Option<nat>, messages: seq<Message>)

  const FRESH := Reader("", "", "", None, [])

  predicate AllDigits(s: string) {
    s != "" && forall i :: 0 <= i < |s| ==> '0' <= s[i] <= '9'
  }

  function Number(s: string): nat
    requires forall i :: 0 <= i < |s| ==> '0' <= s[i] <= '9'
  {
    if s == "" then 0 else Number(s[..|s| - 1]) * 10 + (s[|s| - 1] as int - '0' as int)
  }

  // Position of the first colon, or the length of the line.
  function ColonAt(s: string): (n: nat)
    ensures n <= |s|
  {
    if s == "" || s[0] == ':' then 0 else 1 + ColonAt(s[1..])
  }

  function FieldName(line: string): string {
    line[..ColonAt(line)]
  }

  // The text after the colon, without one leading space.
  function FieldValue(line: string): string {
    var n := ColonAt(line);
    if n == |line| then ""
    else if n + 1 < |line| && line[n + 1] == ' ' then line[n + 2..]
    else line[n + 1..]
  }

  function WithField(r: Reader, name: string, value: string): Reader {
    if name == "event" then r.(eventType := value)
    else if name == "data" then r.(data := r.data + value + "\n")
    else if name == "id" then (if NUL in value then r else r.(lastId := value))
    else if name == "retry" then (if AllDigits(value) then r.(retry := Some(Number(value))) else r)
    else r
  }

  function Dispatch(r: Reader): Reader {
    if r.data == "" then r.(eventType := "")
    else
      var data := if r.data[|r.data| - 1] == LF then r.data[..|r.data| - 1] else r.data;
      var eventType := if r.eventType == "" then "message" else r.eventType;
      r.(data := "", eventType := "", messages := r.messages + [Message(eventType, data, r.lastId)])
  }

  function ReadLine(r: Reader, line: string): Reader {
    if line == "" then Dispatch(r)
    else if line[0] == ':' then r
    else WithField(r, FieldName(line), FieldValue(line))
  }

  function ReadLines(r: Reader, lines: seq<string>): Reader
    decreases |lines|
  {
    if lines == [] then r else ReadLines(ReadLine(r, lines[0]), lines[1..])
  }

  function Decoded(stream: string): Reader {
    ReadLines(FRESH, StreamLines(WithoutMark(stream)))
  }

  // ----- What a list of events should come out as.

  // A data entry as it travels: a line end CR LF becomes LF, and a CR at the very end is dropped.
  function Unbroken(lines: seq<string>): string {
    if lines == [] then "" else if |lines| == 1 then StripCr(lines[0])
        else StripCr(lines[0]) + "\n" + Unbroken(lines[1..])
  }

  function Carried(data: string): string {
    Unbroken(SplitLf(data))
  }

  // All data entries, each ended by a line feed.
  function DataBuffer(data: seq<string>): string {
    if data == [] then "" else Carried(data[0]) + "\n" + DataBuffer(data[1..])
  }

  function IdAfter(lastId: string, e: SseEvent): string {
    if e.id.Some? && NUL !in Sanitized(e.id.value) then Sanitized(e.id.value) else lastId
  }

  function TypeOf(e: SseEvent): string {
    if e.event.Some? && e.event.value != "" then Sanitized(e.event.value) else "message"
  }

  // One message per event with data: its name, the entries joined by line feeds, the last id so far.
  function MessageOf(e: SseEvent, lastId: string): Message
    requires e.data != []
  {
    var buffer := DataBuffer(e.data);
    Message(TypeOf(e), if buffer == "" then "" else buffer[..|buffer| - 1], IdAfter(lastId, e))
  }

  function Expected(r: Reader, events: seq<SseEvent>): Reader
    decreases |events|
  {
    if events == [] then r
    else
      var e := events[0];
      var next := r.(lastId := IdAfter(r.lastId, e),
                     retry := if e.retry.Some? then e.retry else r.retry,
                     messages := r.messages + (if e.data == [] then [] else [MessageOf(e, r.lastId)]));
      Expected(next, events[1..])
  }

  // No carriage return is left inside a line once one at its end is stripped.
  predicate CleanText(s: string) {
    forall i :: 0 <= i < |SplitLf(s)| ==> Lacks(StripCr(SplitLf(s)[i]), CR)
  }

  predicate CleanEvent(e: SseEvent) {
    && (forall i :: 0 <= i < |e.data| ==> CleanText(e.data[i]))
    && (forall i :: 0 <= i < |e.comment| ==> CleanText(e.comment[i]))
  }

  predicate CleanEvents(events: seq<SseEvent>) {
    forall i :: 0 <= i < |events| ==> CleanEvent(events[i])
  }

  // ----- Lines survive the trip.

  predicate OneLine(s: string) {
    Lacks(s, CR) && Lacks(s, LF)
  }

  predicate OneLines(lines: seq<string>) {
    forall i :: 0 <= i < |lines| ==> OneLine(lines[i])
  }

  lemma {:induction false} LineLenIs(line: string, rest: string)
    requires OneLine(line)
    ensures LineLen(line + "\n" + rest) == |line|
  {
    if line != "" {
      var s := line + "\n" + rest;
      assert s[0] == line[0] && line[0] in line;
      assert s[1..] == line[1..] + "\n" + rest;
      LineLenIs(line[1..], rest);
    }
  }

  lemma {:induction false} LinesRoundTrip(lines: seq<string>)
    requires OneLines(lines)
    ensures StreamLines(Joined(lines)) == lines
    decreases |lines|
  {
    if lines != [] {
      var rest := Joined(lines[1..]);
      var s := lines[0] + "\n" + rest;
      LineLenIs(lines[0], rest);
      assert s[..|lines[0]|] == lines[0] && s[|lines[0]| + 1..] == rest;
      LinesRoundTrip(lines[1..]);
    }
  }

  lemma {:induction false} ReadConcat(r: Reader, a: seq<string>, b: seq<string>)
    ensures ReadLines(r, a + b) == ReadLines(ReadLines(r, a), b)
    decreases |a|
  {
    hide ReadLine;
    if a == [] {
      assert a + b == b;
    } else {
      assert (a + b)[1..] == a[1..] + b;
      ReadConcat(ReadLine(r, a[0]), a[1..], b);
    }
  }

  lemma ReadOne(r: Reader, line: string)
    ensures ReadLines(r, [line]) == ReadLine(r, line)
  {
    hide ReadLine;
    assert [line][1..] == [];
    assert ReadLines(ReadLine(r, line), []) == ReadLine(r, line);
  }

  lemma {:induction false} ColonIs(name: string, value: string)
    requires Lacks(name, ':')
    ensures ColonAt(name + ": " + value) == |name|
  {
    if name != "" {
      var s := name + ": " + value;
      assert s[0] == name[0] && name[0] in name;
      assert s[1..] == name[1..] + ": " + value;
      ColonIs(name[1..], value);
    }
  }

  lemma ReadField(r: Reader, name: string, value: string)
    requires name != "" && Lacks(name, ':')
    ensures ReadLine(r, name + ": " + value) == WithField(r, name, value)
  {
    hide WithField, ColonAt;
    var s := name + ": " + value;
    ColonIs(name, value);
    assert s[0] == name[0] && name[0] in name;
    assert s[..|name|] == name && s[|name| + 2..] == value;
  }

  lemma {:induction false} DigitsRoundTrip(n: nat)
    ensures AllDigits(Decimal(n)) && Number(Decimal(n)) == n
  {
    if n >= 10 {
      DigitsRoundTrip(n / 10);
      var s := Decimal(n);
      assert s[..|s| - 1] == Decimal(n / 10);
    } else {
      assert Decimal(n)[..0] == "";
    }
  }

  lemma {:induction false} SplitLines(s: string)
    ensures forall i :: 0 <= i < |SplitLf(s)| ==> Lacks(SplitLf(s)[i], LF)
  {
    if s != "" {
      SplitLines(s[1..]);
      var lines, rest := SplitLf(s), SplitLf(s[1..]);
      assert forall i :: 0 < i < |lines| ==> lines[i] == if s[0] == LF then rest[i - 1] else rest[i];
      assert Lacks(rest[0], LF);
    }
  }

  // ----- Reading the lines of one frame.

  lemma {:induction false} CommentsIgnored(r: Reader, lines: seq<string>)
    ensures ReadLines(r, Prefixed(": ", lines)) == r
    decreases |lines|
  {
    if lines != [] {
      var line := ": " + StripCr(lines[0]);
      assert line[0] == ':';
      assert Prefixed(": ", lines)[1..] == Prefixed(": ", lines[1..]);
      CommentsIgnored(r, lines[1..]);
    }
  }

  lemma {:induction false} CommentFieldsIgnored(r: Reader, comments: seq<string>)
    ensures ReadLines(r, MultilineFields(": ", comments)) == r
    decreases |comments|
  {
    hide ReadLines, SplitLf;
    if comments == [] {
      NoLines(r);
    } else {
      CommentsIgnored(r, SplitLf(comments[0]));
      CommentFieldsIgnored(r, comments[1..]);
      ReadConcat(r, MultilineField(": ", comments[0]), MultilineFields(": ", comments[1..]));
    }
  }

  lemma NoLines(r: Reader)
    ensures ReadLines(r, []) == r && MultilineFields(": ", []) == [] && MultilineFields("data: ", []) == []
  {
  }

  lemma {:induction false} DataLines(r: Reader, lines: seq<string>)
    requires lines != []
    ensures ReadLines(r, Prefixed("data: ", lines)) == r.(data := r.data + Unbroken(lines) + "\n")
    decreases |lines|
  {
    hide ReadLine;
    var line := StripCr(lines[0]);
    var first := r.(data := r.data + line + "\n");
    assert "data: " + line == "data" + ": " + line;
    ReadField(r, "data", line);
    var all := Prefixed("data: ", lines);
    assert all[1..] == Prefixed("data: ", lines[1..]);
    if |lines| == 1 {
      assert lines[1..] == [];
      assert ReadLines(first, []) == first;
    } else {
      DataLines(first, lines[1..]);
      assert r.data + line + "\n" + Unbroken(lines[1..]) + "\n" == r.data + (line + "\n" + Unbroken(lines[1..])) + "\n";
    }
  }

  lemma {:induction false} DataFields(r: Reader, data: seq<string>)
    ensures ReadLines(r, MultilineFields("data: ", data)) == r.(data := r.data + DataBuffer(data))
    decreases |data|
  {
    hide ReadLines, SplitLf, Unbroken;
    if data == [] {
      NoLines(r);
      assert r.data + "" == r.data;
    } else {
      var first := r.(data := r.data + Carried(data[0]) + "\n");
      DataLines(r, SplitLf(data[0]));
      DataFields(first, data[1..]);
      ReadConcat(r, MultilineField("data: ", data[0]), MultilineFields("data: ", data[1..]));
      assert r.data + Carried(data[0]) + "\n" + DataBuffer(data[1..]) == r.data + DataBuffer(data);
    }
  }

  // The reader after the name, id and retry lines of a frame.
  function Headed(r: Reader, e: SseEvent): Reader {
    r.(eventType := if e.event.Some? then Sanitized(e.event.value) else r.eventType,
       lastId := IdAfter(r.lastId, e),
       retry := if e.retry.Some? then e.retry else r.retry)
  }

  lemma OptionalLine(r: Reader, present: bool, name: string, value: string)
    requires name != "" && Lacks(name, ':')
    ensures ReadLines(r, if present then [name + ": " + value] else []) == if present then WithField(r, name, value)
        else r
  {
    hide ReadLine, WithField;
    if present {
      ReadOne(r, name + ": " + value);
      ReadField(r, name, value);
    }
  }

  lemma HeadersRead(r: Reader, e: SseEvent)
    ensures ReadLines(r, HeaderLines(e)) == Headed(r, e)
  {
    hide ReadLines, Sanitized, Decimal, AllDigits, Number;
    var event := if e.event.Some? then Sanitized(e.event.value) else "";
    var id := if e.id.Some? then Sanitized(e.id.value) else "";
    var retry := if e.retry.Some? then Decimal(e.retry.value) else "";
    var a := if e.event.Some? then ["event: " + event] else [];
    var b := if e.id.Some? then ["id: " + id] else [];
    var c := if e.retry.Some? then ["retry: " + retry] else [];
    assert "event: " + event == "event" + ": " + event && "id: " + id == "id" + ": " + id
        && "retry: " + retry == "retry" + ": " + retry;
    OptionalLine(r, e.event.Some?, "event", event);
    var r1 := ReadLines(r, a);
    OptionalLine(r1, e.id.Some?, "id", id);
    var r2 := ReadLines(r1, b);
    OptionalLine(r2, e.retry.Some?, "retry", retry);
    if e.retry.Some? {
      DigitsRoundTrip(e.retry.value);
    }
    ReadConcat(r, a, b);
    ReadConcat(r, a + b, c);
  }

  // Reading one frame with empty buffers gives its message, if it has data, and empty buffers again.
  lemma FrameRead(r: Reader, e: SseEvent)
    requires r.data == "" && r.eventType == ""
    ensures ReadLines(r, EventLines(e)) == Expected(r, [e])
  {
    hide ReadLines, HeaderLines, MultilineFields, DataBuffer, Sanitized;
    var h := Headed(r, e);
    var c, d := MultilineFields(": ", e.comment), MultilineFields("data: ", e.data);
    HeadersRead(r, e);
    CommentFieldsIgnored(h, e.comment);
    DataFields(h, e.data);
    var full := h.(data := h.data + DataBuffer(e.data));
    ReadConcat(r, HeaderLines(e), c);
    ReadConcat(r, HeaderLines(e) + c, d);
    ReadConcat(r, HeaderLines(e) + c + d, [""]);
    ReadOne(full, "");
    DispatchedFrame(r, e);
    assert [e][1..] == [];
  }

  lemma DispatchedFrame(r: Reader, e: SseEvent)
    requires r.data == "" && r.eventType == ""
    ensures var h := Headed(r, e);
            Dispatch(h.(data := h.data + DataBuffer(e.data))) ==
            r.(lastId := IdAfter(r.lastId, e),
               retry := if e.retry.Some? then e.retry else r.retry,
               messages := r.messages + (if e.data == [] then [] else [MessageOf(e, r.lastId)]))
  {
    hide Dispatch, DataBuffer, IdAfter, Sanitized;
    var h := Headed(r, e);
    var buffer := DataBuffer(e.data);
    assert h.data + buffer == buffer;
    BufferEnds(e.data);
    assert r.messages + [] == r.messages;
    if e.data == [] {
      DispatchEmpty(h);
    } else {
      DispatchFull(h, buffer);
      if e.event.Some? {
        assert |Sanitized(e.event.value)| == |e.event.value|;
      }
    }
  }

  lemma DispatchEmpty(r: Reader)
    requires r.data == ""
    ensures Dispatch(r.(data := "")) == r.(eventType := "")
  {
  }

  lemma DispatchFull(r: Reader, buffer: string)
    requires buffer != "" && buffer[|buffer| - 1] == LF
    ensures Dispatch(r.(data := buffer)) ==
            r.(data := "", eventType := "",
               messages := r.messages + [Message(if r.eventType == "" then "message" else r.eventType,
                                                 buffer[..|buffer| - 1], r.lastId)])
  {
  }

  lemma {:induction false} BufferEnds(data: seq<string>)
    ensures data == [] ==> DataBuffer(data) == ""
    ensures data != [] ==> DataBuffer(data) != "" && DataBuffer(data)[|DataBuffer(data)| - 1] == LF
  {
    hide Carried;
    if data != [] {
      BufferEnds(data[1..]);
    }
  }

  lemma {:induction false} StreamRead(r: Reader, events: seq<SseEvent>)
    requires r.data == "" && r.eventType == ""
    ensures ReadLines(r, StreamText(events)) == Expected(r, events)
    decreases |events|
  {
    hide EventLines, MessageOf, ReadLine;
    if events != [] {
      FrameRead(r, events[0]);
      assert [events[0]][1..] == [];
      var next := Expected(r, [events[0]]);
      ExpectedOne(r, events[0]);
      ReadConcat(r, EventLines(events[0]), StreamText(events[1..]));
      StreamRead(next, events[1..]);
    }
  }

  lemma ExpectedOne(r: Reader, e: SseEvent)
    ensures var next := Expected(r, [e]);
            && next.data == r.data && next.eventType == r.eventType
            && forall events: seq<SseEvent> ::
                events != [] && events[0] == e ==> Expected(r, events) == Expected(next, events[1..])
  {
    hide MessageOf;
    assert [e][1..] == [];
  }

  // ----- Every written line is one line.

  // A name or id always fits on one line, and one that already does is left alone.
  lemma SanitizedIsOneLine(s: string)
    ensures OneLine(Sanitized(s)) && |Sanitized(s)| == |s|
    ensures Sanitized(s) == s <==> OneLine(s)
    ensures Sanitized(Sanitized(s)) == Sanitized(s)
  {
    if OneLine(s) {
      assert forall i :: 0 <= i < |s| ==> s[i] in s;
    }
    var t := Sanitized(s);
    assert forall i :: 0 <= i < |t| ==> t[i] in t;
  }

  lemma {:induction false} DecimalIsOneLine(n: nat)
    ensures OneLine(Decimal(n))
  {
    DigitsRoundTrip(n);
    var s := Decimal(n);
    assert forall i :: 0 <= i < |s| ==> s[i] != CR && s[i] != LF;
  }

  lemma {:induction false} PrefixedOneLines(name: string, lines: seq<string>)
    requires OneLine(name)
    requires forall i :: 0 <= i < |lines| ==> Lacks(lines[i], LF) && Lacks(StripCr(lines[i]), CR)
    ensures OneLines(Prefixed(name, lines))
  {
    if lines != [] {
      PrefixedOneLines(name, lines[1..]);
      assert OneLine(name + StripCr(lines[0]));
    }
  }

  lemma {:induction false} FieldsOneLines(name: string, values: seq<string>)
    requires OneLine(name) && forall i :: 0 <= i < |values| ==> CleanText(values[i])
    ensures OneLines(MultilineFields(name, values))
  {
    hide SplitLf, Prefixed, OneLine;
    if values != [] {
      SplitLines(values[0]);
      assert CleanText(values[0]);
      PrefixedOneLines(name, SplitLf(values[0]));
      FieldsOneLines(name, values[1..]);
    }
  }

  lemma FrameOneLines(e: SseEvent)
    requires CleanEvent(e)
    ensures OneLines(EventLines(e))
  {
    hide MultilineFields, CleanText, Sanitized, Decimal;
    FieldsOneLines(": ", e.comment);
    FieldsOneLines("data: ", e.data);
    HeadersOneLines(e);
  }

  lemma HeadersOneLines(e: SseEvent)
    ensures OneLines(HeaderLines(e))
  {
    hide Sanitized, Decimal;
    if e.event.Some? { SanitizedIsOneLine(e.event.value); }
    if e.id.Some? { SanitizedIsOneLine(e.id.value); }
    if e.retry.Some? { DecimalIsOneLine(e.retry.value); }
  }

  lemma {:induction false} StreamOneLines(events: seq<SseEvent>)
    requires CleanEvents(events)
    ensures OneLines(StreamText(events))
  {
    hide EventLines, CleanEvent, OneLine;
    if events != [] {
      FrameOneLines(events[0]);
      StreamOneLines(events[1..]);
    }
  }

  lemma NoMark(events: seq<SseEvent>)
    ensures WithoutMark(Joined(StreamText(events))) == Joined(StreamText(events))
  {
    hide MultilineFields, Sanitized, Decimal;
    if events != [] {
      var lines := EventLines(events[0]);
      FirstChar(events[0]);
      var all := StreamText(events);
      assert all[0] == lines[0];
      assert Joined(all) == all[0] + "\n" + Joined(all[1..]);
    }
  }

  lemma FirstChar(e: SseEvent)
    ensures EventLines(e)[0] == "" || EventLines(e)[0][0] in "eir:d"
  {
    hide Sanitized, Decimal;
    if HeaderLines(e) == [] {
      FieldsStart(": ", e.comment);
      FieldsStart("data: ", e.data);
    }
  }

  lemma FieldsStart(name: string, values: seq<string>)
    requires name != ""
    ensures MultilineFields(name, values) != [] ==>
        MultilineFields(name, values)[0] != "" && MultilineFields(name, values)[0][0] == name[0]
  {
    hide SplitLf;
    if values != [] {
      var line := name + StripCr(SplitLf(values[0])[0]);
      assert MultilineFields(name, values)[0] == line;
      assert line[0] == name[0];
    }
  }

  // ----- The round trip.

  // Reading what was written dispatches exactly the events that have data, in order, with their names,
  // their data, and the last id written so far; the reconnection time is the last one written.
  lemma SseRoundTrip(events: seq<SseEvent>)
    requires CleanEvents(events)
    ensures Decoded(Joined(StreamText(events))) == Expected(FRESH, events)
  {
    hide StreamLines, ReadLines, StreamText, Expected, CleanEvents, Joined, OneLines;
    NoMark(events);
    StreamOneLines(events);
    LinesRoundTrip(StreamText(events));
    StreamRead(FRESH, events);
  }
}
