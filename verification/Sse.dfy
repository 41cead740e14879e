/** Framing of server-sent events (nivasa-http/src/response.rs). */
module Sse {
  import opened Results

  datatype SseEvent = SseEvent(
    event: Option<string>,
    id: Option<string>,
    retry: Option<nat>,
    data: seq<string>,
    comment: seq<string>)

  const CR := '\r'
  const LF := '\n'

  predicate Lacks(s: string, c: char) {
    c !in s
  }

  // `sanitize_sse_single_line`
  function Sanitized(s: string): (r: string)
    ensures |r| == |s|
    ensures forall i :: 0 <= i < |s| ==> r[i] == if s[i] == CR || s[i] == LF then ' ' else s[i]
  {
    seq(|s|, i requires 0 <= i < |s| => if s[i] == CR || s[i] == LF then ' ' else s[i])
  }

  function Digit(n: nat): char
    requires n < 10
  {
    '0' + n as char
  }

  // `u64::to_string`
  function Decimal(n: nat): string {
    if n < 10 then [Digit(n)] else Decimal(n / 10) + [Digit(n % 10)]
  }

  // `value.split('\n')`
  function SplitLf(s: string): (lines: seq<string>)
    ensures lines != []
  {
    if s == "" then [""]
    else
      var rest := SplitLf(s[1..]);
      if s[0] == LF then [""] + rest else [[s[0]] + rest[0]] + rest[1..]
  }

  function StripCr(line: string): string {
    if line != "" && line[|line| - 1] == CR then line[..|line| - 1] else line
  }

  // Lines, each ended by a line feed.
  function Joined(lines: seq<string>): string {
    if lines == [] then "" else lines[0] + "\n" + Joined(lines[1..])
  }

  function Prefixed(name: string, lines: seq<string>): seq<string> {
    if lines == [] then [] else [name + StripCr(lines[0])] + Prefixed(name, lines[1..])
  }

  function MultilineField(name: string, value: string): seq<string> {
    Prefixed(name, SplitLf(value))
  }

  function MultilineFields(name: string, values: seq<string>): seq<string> {
    if values == [] then [] else MultilineField(name, values[0]) + MultilineFields(name, values[1..])
  }

  // The optional lines of a frame.
  function EventLine(e: SseEvent): seq<string> {
    if e.event.Some? then ["event: " + Sanitized(e.event.value)] else []
  }

  function IdLine(e: SseEvent): seq<string> {
    if e.id.Some? then ["id: " + Sanitized(e.id.value)] else []
  }

  function RetryLine(e: SseEvent): seq<string> {
    if e.retry.Some? then ["retry: " + Decimal(e.retry.value)] else []
  }

  function HeaderLines(e: SseEvent): seq<string> {
    EventLine(e) + IdLine(e) + RetryLine(e)
  }

  // The lines of one frame; the empty line ends it.
  function EventLines(e: SseEvent): seq<string> {
    HeaderLines(e) + MultilineFields(": ", e.comment) + MultilineFields("data: ", e.data) + [""]
  }

  function StreamText(events: seq<SseEvent>): seq<string> {
    if events == [] then [] else EventLines(events[0]) + StreamText(events[1..])
  }

  lemma {:induction false} JoinedConcat(a: seq<string>, b: seq<string>)
    ensures Joined(a + b) == Joined(a) + Joined(b)
  {
    if a == [] {
      assert a + b == b;
    } else {
      assert (a + b)[1..] == a[1..] + b;
      JoinedConcat(a[1..], b);
    }
  }

  lemma JoinedOne(line: string)
    ensures Joined([line]) == line + "\n"
  {
    assert [line][1..] == [];
  }

  lemma {:induction false} PrefixedConcat(name: string, a: seq<string>, b: seq<string>)
    ensures Prefixed(name, a + b) == Prefixed(name, a) + Prefixed(name, b)
  {
    if a == [] {
      assert a + b == b;
    } else {
      assert (a + b)[1..] == a[1..] + b;
      PrefixedConcat(name, a[1..], b);
    }
  }

  lemma {:induction false} FieldsConcat(name: string, a: seq<string>, b: seq<string>)
    ensures MultilineFields(name, a + b) == MultilineFields(name, a) + MultilineFields(name, b)
  {
    if a == [] {
      assert a + b == b;
    } else {
      assert (a + b)[1..] == a[1..] + b;
      FieldsConcat(name, a[1..], b);
    }
  }

  lemma {:induction false} StreamConcat(a: seq<SseEvent>, b: seq<SseEvent>)
    ensures StreamText(a + b) == StreamText(a) + StreamText(b)
  {
    if a == [] {
      assert a + b == b;
    } else {
      assert (a + b)[1..] == a[1..] + b;
      StreamConcat(a[1..], b);
    }
  }

  // ----- The source's writers, appending to a buffer.

  method PushSseField(body: string, name: string, value: string) returns (out: string)
    ensures out == body + Joined([name + value])
  {
    JoinedOne(name + value);
    out := body + name;
    out := out + value;
    out := out + "\n";
  }

  method PushSseMultilineField(body: string, name: string, value: string) returns (out: string)
    ensures out == body + Joined(MultilineField(name, value))
  {
    hide SplitLf, Joined;
    var lines := SplitLf(value);
    out := body;
    EmptyJoined(name);
    for i := 0 to |lines|
      invariant out == body + Joined(Prefixed(name, lines[..i]))
    {
      var line := StripCr(lines[i]);
      PrefixedSnoc(name, lines[..i], lines[i]);
      assert lines[..i + 1] == lines[..i] + [lines[i]];
      JoinedConcat(Prefixed(name, lines[..i]), [name + line]);
      JoinedOne(name + line);
      out := out + name + line + "\n";
    }
    assert lines[..|lines|] == lines;
  }

  lemma EmptyJoined(name: string)
    ensures Joined(Prefixed(name, [])) == "" && Joined(MultilineFields(name, [])) == "" && Joined(StreamText([])) == ""
  {
  }

  lemma PrefixedSnoc(name: string, lines: seq<string>, line: string)
    ensures Prefixed(name, lines + [line]) == Prefixed(name, lines) + [name + StripCr(line)]
  {
    PrefixedConcat(name, lines, [line]);
    assert [line][1..] == [];
  }

  method PushAll(body: string, name: string, values: seq<string>) returns (out: string)
    ensures out == body + Joined(MultilineFields(name, values))
  {
    hide Joined, MultilineField;
    out := body;
    EmptyJoined(name);
    for i := 0 to |values|
      invariant out == body + Joined(MultilineFields(name, values[..i]))
    {
      out := PushSseMultilineField(out, name, values[i]);
      FieldsSnoc(name, values[..i], values[i]);
      assert values[..i + 1] == values[..i] + [values[i]];
      JoinedConcat(MultilineFields(name, values[..i]), MultilineField(name, values[i]));
    }
    assert values[..|values|] == values;
  }

  lemma FieldsSnoc(name: string, values: seq<string>, value: string)
    ensures MultilineFields(name, values + [value]) == MultilineFields(name, values) + MultilineField(name, value)
  {
    FieldsConcat(name, values, [value]);
    assert [value][1..] == [];
    assert MultilineField(name, value) + [] == MultilineField(name, value);
  }

  method Render(e: SseEvent, body: string) returns (out: string)
    ensures out == body + Joined(EventLines(e))
  {
    hide Joined, MultilineFields, Sanitized, Decimal, EventLines;
    NothingJoined();
    out := body;
    if e.event.Some? {
      out := PushSseField(out, "event: ", Sanitized(e.event.value));
    }
    assert out == body + Joined(EventLine(e));
    if e.id.Some? {
      out := PushSseField(out, "id: ", Sanitized(e.id.value));
    }
    assert out == body + Joined(EventLine(e)) + Joined(IdLine(e)) by {
      hide EventLine;
    }
    if e.retry.Some? {
      out := PushSseField(out, "retry: ", Decimal(e.retry.value));
    }
    assert out == body + Joined(EventLine(e)) + Joined(IdLine(e)) + Joined(RetryLine(e)) by {
      hide EventLine, IdLine;
    }
    out := PushAll(out, ": ", e.comment);
    out := PushAll(out, "data: ", e.data);
    out := out + "\n";
    FrameJoined(body, e);
  }

  lemma FrameJoined(body: string, e: SseEvent)
    ensures body + Joined(EventLine(e)) + Joined(IdLine(e)) + Joined(RetryLine(e))
            + Joined(MultilineFields(": ", e.comment)) + Joined(MultilineFields("data: ", e.data)) + "\n"
         == body + Joined(EventLines(e))
  {
    hide Joined, MultilineFields, Sanitized, Decimal, EventLine, IdLine, RetryLine;
    SixJoined(EventLine(e), IdLine(e), RetryLine(e), MultilineFields(": ", e.comment),
        MultilineFields("data: ", e.data), [""]);
    JoinedOne("");
    Gathered(body, Joined(EventLine(e)), Joined(IdLine(e)), Joined(RetryLine(e)),
             Joined(MultilineFields(": ", e.comment)), Joined(MultilineFields("data: ", e.data)));
  }

  lemma SixJoined(a: seq<string>, b: seq<string>, c: seq<string>, d: seq<string>, e: seq<string>, f: seq<string>)
    ensures Joined(a + b + c + d + e + f) == Joined(a) + Joined(b) + Joined(c) + Joined(d) + Joined(e) + Joined(f)
  {
    hide Joined;
    JoinedConcat(a, b);
    JoinedConcat(a + b, c);
    JoinedConcat(a + b + c, d);
    JoinedConcat(a + b + c + d, e);
    JoinedConcat(a + b + c + d + e, f);
  }

  lemma Gathered(body: string, a: string, b: string, c: string, d: string, e: string)
    ensures body + a + b + c + d + e + "\n" == body + (a + b + c + d + e + "\n")
  {
  }

  lemma NothingJoined()
    ensures Joined([]) == ""
  {
  }

  method IntoBody(events: seq<SseEvent>) returns (body: string)
    ensures body == Joined(StreamText(events))
  {
    hide Joined, EventLines;
    body := "";
    EmptyJoined("");
    for i := 0 to |events|
      invariant body == Joined(StreamText(events[..i]))
    {
      body := Render(events[i], body);
      StreamSnoc(events[..i], events[i]);
      assert events[..i + 1] == events[..i] + [events[i]];
      JoinedConcat(StreamText(events[..i]), EventLines(events[i]));
    }
    assert events[..|events|] == events;
  }

  lemma StreamSnoc(events: seq<SseEvent>, e: SseEvent)
    ensures StreamText(events + [e]) == StreamText(events) + EventLines(e)
  {
    StreamConcat(events, [e]);
    assert [e][1..] == [];
    assert EventLines(e) + [] == EventLines(e);
  }
}
