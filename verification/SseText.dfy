/** The text of the frames, line by line. */
module SseText {
  import opened Results
  import opened Sse

  // A line of its own for a value that is there.
  function Maybe(name: string, value: Option<string>): string {
    match value
    case None => ""
    case Some(v) => name + v + "\n"
  }

  function Each(name: string, values: seq<string>): string {
    if values == [] then "" else name + values[0] + "\n" + Each(name, values[1..])
  }

  // One line, and no carriage return at its end.
  predicate Simple(s: string) {
    && (forall i :: 0 <= i < |s| ==> s[i] != '\n')
    && (s != "" ==> s[|s| - 1] != '\r')
  }

  predicate AllSimple(values: seq<string>) {
    forall i :: 0 <= i < |values| ==> Simple(values[i])
  }

  lemma {:induction false} OneSegment(s: string)
    requires forall i :: 0 <= i < |s| ==> s[i] != '\n'
    ensures SplitLf(s) == [s]
  {
    if s != "" {
      OneSegment(s[1..]);
      assert [s[0]] + s[1..] == s;
    }
  }

  lemma {:induction false} SegmentsConcat(a: string, b: string)
    ensures SplitLf(a + "\n" + b) == SplitLf(a) + SplitLf(b)
  {
    if a == "" {
      assert a + "\n" + b == "\n" + b;
    } else {
      assert (a + "\n" + b)[1..] == a[1..] + "\n" + b;
      SegmentsConcat(a[1..], b);
    }
  }

  // A value of several lines is written line by line: each gets the name, and loses a carriage return
  // at its end.
  lemma LineByLine(name: string, a: string, b: string)
    ensures Joined(MultilineField(name, a + "\n" + b)) ==
            Joined(MultilineField(name, a)) + Joined(MultilineField(name, b))
    ensures (forall i :: 0 <= i < |b| ==> b[i] != '\n') ==>
              Joined(MultilineField(name, b)) ==
              name + (if b != "" && b[|b| - 1] == '\r' then b[..|b| - 1] else b) + "\n"
  {
    hide SplitLf, Joined;
    SegmentsConcat(a, b);
    PrefixedConcat(name, SplitLf(a), SplitLf(b));
    JoinedConcat(MultilineField(name, a), MultilineField(name, b));
    if forall i :: 0 <= i < |b| ==> b[i] != '\n' {
      OneSegment(b);
      assert [b][1..] == [] && Prefixed(name, []) == [];
      var line := name + StripCr(b);
      assert Prefixed(name, [b]) == [line] + [] == [line];
      JoinedOne(line);
    }
  }

  lemma {:induction false} EachLine(name: string, values: seq<string>)
    requires AllSimple(values)
    ensures Joined(MultilineFields(name, values)) == Each(name, values)
  {
    hide Joined, MultilineField, Simple;
    if values == [] {
      NothingJoined();
    } else {
      EachLine(name, values[1..]);
      assert Simple(values[0]);
      SimpleLine(name, values[0]);
      JoinedConcat(MultilineField(name, values[0]), MultilineFields(name, values[1..]));
    }
  }

  lemma NothingJoined()
    ensures Joined([]) == ""
  {
  }

  lemma SimpleLine(name: string, value: string)
    requires Simple(value)
    ensures Joined(MultilineField(name, value)) == name + value + "\n"
  {
    hide Joined, MultilineField;
    LineByLine(name, "", value);
  }

  lemma MaybeLine(name: string, value: Option<string>)
    ensures Joined(if value.Some? then [name + value.value] else []) == Maybe(name, value)
  {
    hide Joined;
    NothingJoined();
    if value.Some? {
      JoinedOne(name + value.value);
    }
  }

  // A frame is its event, its id, its retry time, its comments and its data, in this order, and an empty line.
  lemma FrameText(e: SseEvent)
    requires AllSimple(e.comment) && AllSimple(e.data)
    ensures var event := if e.event.Some? then Some(Sanitized(e.event.value)) else None;
            var id := if e.id.Some? then Some(Sanitized(e.id.value)) else None;
            var retry := if e.retry.Some? then Some(Decimal(e.retry.value)) else None;
            Joined(EventLines(e)) ==
            Maybe("event: ", event) + Maybe("id: ", id) + Maybe("retry: ", retry)
            + Each(": ", e.comment) + Each("data: ", e.data) + "\n"
  {
    hide Joined, MultilineFields, Maybe, Each, Sanitized, Decimal, AllSimple;
    var event := if e.event.Some? then Some(Sanitized(e.event.value)) else None;
    var id := if e.id.Some? then Some(Sanitized(e.id.value)) else None;
    var retry := if e.retry.Some? then Some(Decimal(e.retry.value)) else None;
    MaybeLine("event: ", event);
    MaybeLine("id: ", id);
    MaybeLine("retry: ", retry);
    EachLine(": ", e.comment);
    EachLine("data: ", e.data);
    JoinedOne("");
    JoinedConcat(EventLine(e), IdLine(e));
    JoinedConcat(EventLine(e) + IdLine(e), RetryLine(e));
    var comments, data := MultilineFields(": ", e.comment), MultilineFields("data: ", e.data);
    JoinedConcat(HeaderLines(e), comments);
    JoinedConcat(HeaderLines(e) + comments, data);
    JoinedConcat(HeaderLines(e) + comments + data, [""]);
    assert "" + "\n" == "\n";
  }
}
