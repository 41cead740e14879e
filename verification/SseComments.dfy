/** What carriage returns in comments do: a reader sees the text after them as lines of their own. Exactly
    when a stream gives back the messages that were meant. */
module SseComments {
  import opened Results
  import opened Sse
  import opened SseDecoder
  import opened SseExact

  // ----- The lines a reader sees in the lines that were written.

  // The lines in one written line; a carriage return at its end belongs to the line feed after it.
  function Seen(line: string): (lines: seq<string>)
    ensures lines != []
    decreases |line|
  {
    var n := LineLen(line);
    if n == |line| then [line]
    else if n + 1 == |line| then [line[..n]]
    else [line[..n]] + Seen(line[n + 1..])
  }

  function AllSeen(lines: seq<string>): seq<string> {
    if lines == [] then [] else Seen(lines[0]) + AllSeen(lines[1..])
  }

  predicate NoLf(lines: seq<string>) {
    forall i :: 0 <= i < |lines| ==> Lacks(lines[i], LF)
  }

  lemma {:induction false} LineLenFront(line: string, rest: string)
    requires Lacks(line, LF)
    ensures LineLen(line + "\n" + rest) == LineLen(line)
    ensures LineLen(line) < |line| ==> line[LineLen(line)] == CR
  {
    var s := line + "\n" + rest;
    if line != "" {
      assert s[0] == line[0] && line[0] in line;
      if line[0] != CR {
        assert s[1..] == line[1..] + "\n" + rest;
        LineLenFront(line[1..], rest);
      }
    }
  }

  lemma {:induction false} LineSeen(line: string, rest: string)
    requires Lacks(line, LF)
    ensures StreamLines(line + "\n" + rest) == Seen(line) + StreamLines(rest)
    decreases |line|
  {
    hide LineLen;
    var s, n := line + "\n" + rest, LineLen(line);
    LineLenFront(line, rest);
    assert s[..n] == line[..n];
    if n == |line| {
      assert s[n] == LF && s[n + 1..] == rest && line[..n] == line;
    } else if n + 1 == |line| {
      assert s[n + 1] == LF && s[n + 2..] == rest;
    } else {
      assert s[n + 1] == line[n + 1] && line[n + 1] in line;
      assert s[n + 1..] == line[n + 1..] + "\n" + rest;
      LineSeen(line[n + 1..], rest);
      assert [line[..n]] + (Seen(line[n + 1..]) + StreamLines(rest)) == Seen(line) + StreamLines(rest);
    }
  }

  lemma {:induction false} StreamSeen(lines: seq<string>)
    requires NoLf(lines)
    ensures StreamLines(Joined(lines)) == AllSeen(lines)
    decreases |lines|
  {
    hide StreamLines, Seen;
    if lines == [] {
      NoStream();
    } else {
      LineSeen(lines[0], Joined(lines[1..]));
      StreamSeen(lines[1..]);
    }
  }

  lemma NoStream()
    ensures StreamLines("") == []
  {
  }

  lemma {:induction false} SeenConcat(a: seq<string>, b: seq<string>)
    ensures AllSeen(a + b) == AllSeen(a) + AllSeen(b)
  {
    hide Seen;
    if a == [] {
      assert a + b == b;
    } else {
      assert (a + b)[1..] == a[1..] + b;
      SeenConcat(a[1..], b);
      assert Seen(a[0]) + (AllSeen(a[1..]) + AllSeen(b)) == Seen(a[0]) + AllSeen(a[1..]) + AllSeen(b);
    }
  }

  lemma {:induction false} OneLineLen(line: string)
    requires OneLine(line)
    ensures LineLen(line) == |line|
  {
    if line != "" {
      assert line[0] in line;
      OneLineLen(line[1..]);
    }
  }

  lemma {:induction false} SeenAsWritten(lines: seq<string>)
    requires OneLines(lines)
    ensures AllSeen(lines) == lines
  {
    hide LineLen, OneLine;
    if lines != [] {
      OneLineLen(lines[0]);
      SeenAsWritten(lines[1..]);
      assert [lines[0]] + lines[1..] == lines;
    }
  }

  // ----- The lines a comment adds.

  function ExtrasOf(lines: seq<string>): seq<string> {
    if lines == [] then [] else Seen(lines[0])[1..] + ExtrasOf(lines[1..])
  }

  // The text after each carriage return inside a comment.
  function Extras(e: SseEvent): seq<string> {
    ExtrasOf(MultilineFields(": ", e.comment))
  }

  predicate Commented(lines: seq<string>) {
    forall i :: 0 <= i < |lines| ==> lines[i] != "" && lines[i][0] == ':'
  }

  lemma SeenComment(line: string)
    requires line != "" && line[0] == ':'
    ensures Seen(line)[0] != "" && Seen(line)[0][0] == ':'
  {
  }

  lemma {:induction false} CommentsSeen(r: Reader, lines: seq<string>)
    requires Commented(lines)
    ensures ReadLines(r, AllSeen(lines)) == ReadLines(r, ExtrasOf(lines))
    decreases |lines|
  {
    hide Seen, WithField, Dispatch;
    if lines != [] {
      var seen := Seen(lines[0]);
      SeenComment(lines[0]);
      assert ReadLine(r, seen[0]) == r;
      assert ReadLines(r, seen) == ReadLines(r, seen[1..]);
      var next := ReadLines(r, seen);
      ReadConcat(r, seen, AllSeen(lines[1..]));
      ReadConcat(r, seen[1..], ExtrasOf(lines[1..]));
      CommentsSeen(next, lines[1..]);
    }
  }

  lemma {:induction false} PrefixedAre(name: string, lines: seq<string>)
    requires name != "" && Lacks(name, LF) && forall i :: 0 <= i < |lines| ==> Lacks(lines[i], LF)
    ensures NoLf(Prefixed(name, lines))
    ensures forall i :: 0 <= i < |Prefixed(name, lines)| ==> name <= Prefixed(name, lines)[i]
  {
    if lines != [] {
      PrefixedAre(name, lines[1..]);
      var line := StripCr(lines[0]);
      assert Lacks(line, LF);
      assert name <= name + line;
    }
  }

  lemma {:induction false} FieldsAre(name: string, values: seq<string>)
    requires name != "" && Lacks(name, LF)
    ensures NoLf(MultilineFields(name, values))
    ensures forall i :: 0 <= i < |MultilineFields(name, values)| ==> name <= MultilineFields(name, values)[i]
  {
    hide SplitLf, Prefixed;
    if values != [] {
      SplitLines(values[0]);
      PrefixedAre(name, SplitLf(values[0]));
      FieldsAre(name, values[1..]);
    }
  }

  lemma DataOneLines(data: seq<string>)
    requires AllLack(data, CR)
    ensures OneLines(MultilineFields("data: ", data))
  {
    hide MultilineFields, CleanText, OneLine;
    forall i | 0 <= i < |data| ensures CleanText(data[i]) {
      LinesLackCr(data[i]);
    }
    DataName();
    FieldsOneLines("data: ", data);
  }

  lemma DataName()
    ensures OneLine("data: ")
  {
  }

  // ----- One frame.

  // The reader after a frame whose data has no carriage return.
  function AfterFrame(r: Reader, e: SseEvent): Reader {
    var commented := ReadLines(Headed(r, e), Extras(e));
    Dispatch(commented.(data := commented.data + DataBuffer(e.data)))
  }

  lemma FrameSeen(r: Reader, e: SseEvent)
    requires AllLack(e.data, CR)
    ensures ReadLines(r, AllSeen(EventLines(e))) == AfterFrame(r, e)
  {
    hide ReadLines, HeaderLines, MultilineFields, DataBuffer, AllSeen, Headed, OneLines, Dispatch;
    var h, c, d := HeaderLines(e), MultilineFields(": ", e.comment), MultilineFields("data: ", e.data);
    HeadersOneLines(e);
    SeenAsWritten(h);
    CommentsAre(e);
    DataOneLines(e.data);
    SeenAsWritten(d);
    EmptySeen();
    SeenConcat(h, c);
    SeenConcat(h + c, d);
    SeenConcat(h + c + d, [""]);
    HeadersRead(r, e);
    CommentsSeen(Headed(r, e), c);
    var commented := ReadLines(Headed(r, e), Extras(e));
    DataFields(commented, e.data);
    var full := commented.(data := commented.data + DataBuffer(e.data));
    ReadConcat(r, h, AllSeen(c));
    ReadConcat(r, h + AllSeen(c), d);
    ReadConcat(r, h + AllSeen(c) + d, [""]);
    ReadOne(full, "");
  }

  lemma CommentsAre(e: SseEvent)
    ensures Commented(MultilineFields(": ", e.comment)) && NoLf(MultilineFields(": ", e.comment))
  {
    hide MultilineFields;
    FieldsAre(": ", e.comment);
    assert forall line: string :: ": " <= line ==> line != "" && line[0] == ": "[0];
  }

  lemma EmptySeen()
    ensures AllSeen([""]) == [""]
  {
    assert [""][1..] == [];
  }

  lemma FrameNoLf(e: SseEvent)
    ensures NoLf(EventLines(e))
  {
    hide MultilineFields, HeaderLines;
    HeadersOneLines(e);
    CommentsAre(e);
    DataName();
    FieldsAre("data: ", e.data);
    var h := HeaderLines(e);
    assert forall i :: 0 <= i < |h| ==> OneLine(h[i]);
  }

  lemma {:induction false} StreamNoLf(events: seq<SseEvent>)
    ensures NoLf(StreamText(events))
  {
    hide EventLines, Lacks;
    if events != [] {
      FrameNoLf(events[0]);
      StreamNoLf(events[1..]);
    }
  }

  // ----- Conservation: every byte of data read is delivered.

  predicate IsField(line: string, name: string) {
    line != "" && line[0] != ':' && FieldName(line) == name
  }

  // What a line adds to the data buffer.
  function Weight(line: string): nat {
    if IsField(line, "data") then |FieldValue(line)| + 1 else 0
  }

  function Weights(lines: seq<string>): nat {
    if lines == [] then 0 else Weight(lines[0]) + Weights(lines[1..])
  }

  // Bytes of data delivered, counting a line feed after each message.
  function Volume(messages: seq<Message>): nat {
    if messages == [] then 0 else Volume(messages[..|messages| - 1]) + |messages[|messages| - 1].data| + 1
  }

  predicate Buffered(r: Reader) {
    r.data == "" || r.data[|r.data| - 1] == LF
  }

  lemma VolumeSnoc(messages: seq<Message>, m: Message)
    ensures Volume(messages + [m]) == Volume(messages) + |m.data| + 1
  {
    assert (messages + [m])[..|messages|] == messages;
  }

  lemma DispatchVolume(r: Reader)
    requires Buffered(r)
    ensures Dispatch(r).data == "" && Volume(Dispatch(r).messages) == Volume(r.messages) + |r.data|
  {
    hide Volume;
    if r.data != "" {
      var eventType := if r.eventType == "" then "message" else r.eventType;
      VolumeSnoc(r.messages, Message(eventType, r.data[..|r.data| - 1], r.lastId));
    }
  }

  lemma ReadLineVolume(r: Reader, line: string)
    requires Buffered(r)
    ensures var r' := ReadLine(r, line);
            Buffered(r') && Volume(r'.messages) + |r'.data| == Volume(r.messages) + |r.data| + Weight(line)
  {
    hide Dispatch, Volume, FieldName, FieldValue, AllDigits, Number;
    if line == "" {
      DispatchVolume(r);
    }
  }

  lemma {:induction false} ReadVolume(r: Reader, lines: seq<string>)
    requires Buffered(r)
    ensures var r' := ReadLines(r, lines);
            Buffered(r') && Volume(r'.messages) + |r'.data| == Volume(r.messages) + |r.data| + Weights(lines)
    decreases |lines|
  {
    hide ReadLine, Volume, Weight, Buffered;
    if lines != [] {
      ReadLineVolume(r, lines[0]);
      ReadVolume(ReadLine(r, lines[0]), lines[1..]);
    }
  }

  lemma FrameVolume(r: Reader, e: SseEvent)
    requires r.data == ""
    ensures var r' := AfterFrame(r, e);
            && r'.data == ""
            && Volume(r'.messages) == Volume(r.messages) + Weights(Extras(e)) + |DataBuffer(e.data)|
  {
    hide ReadLines, Volume, Weights, Extras, DataBuffer, Dispatch, IdAfter;
    var h := Headed(r, e);
    ReadVolume(h, Extras(e));
    var commented := ReadLines(h, Extras(e));
    BufferEnds(e.data);
    var full := commented.(data := commented.data + DataBuffer(e.data));
    assert full.data == "" || full.data[|full.data| - 1] == LF;
    DispatchVolume(full);
  }

  function AfterFrames(r: Reader, events: seq<SseEvent>): Reader
    decreases |events|
  {
    if events == [] then r else AfterFrames(AfterFrame(r, events[0]), events[1..])
  }

  lemma {:induction false} FramesSeen(r: Reader, events: seq<SseEvent>)
    requires DataLacksCr(events)
    ensures ReadLines(r, AllSeen(StreamText(events))) == AfterFrames(r, events)
    decreases |events|
  {
    hide EventLines, AfterFrame, AllSeen, AllLack, ReadLine;
    if events == [] {
      NothingSeen();
    } else {
      FrameSeen(r, events[0]);
      SeenConcat(EventLines(events[0]), StreamText(events[1..]));
      ReadConcat(r, AllSeen(EventLines(events[0])), AllSeen(StreamText(events[1..])));
      FramesSeen(AfterFrame(r, events[0]), events[1..]);
    }
  }

  lemma NothingSeen()
    ensures AllSeen([]) == []
  {
  }

  // What the comments add to the data of all messages together.
  function Injected(events: seq<SseEvent>): nat {
    if events == [] then 0 else Weights(Extras(events[0])) + Injected(events[1..])
  }

  function OwnVolume(events: seq<SseEvent>): nat {
    if events == [] then 0 else |DataBuffer(events[0].data)| + OwnVolume(events[1..])
  }

  lemma {:induction false} FramesVolume(r: Reader, events: seq<SseEvent>)
    requires r.data == ""
    ensures var r' := AfterFrames(r, events);
            r'.data == "" && Volume(r'.messages) == Volume(r.messages) + Injected(events) + OwnVolume(events)
    decreases |events|
  {
    hide AfterFrame, Volume, Weights, Extras, DataBuffer;
    if events != [] {
      FrameVolume(r, events[0]);
      FramesVolume(AfterFrame(r, events[0]), events[1..]);
    }
  }

  lemma {:induction false} VolumeConcat(a: seq<Message>, b: seq<Message>)
    ensures Volume(a + b) == Volume(a) + Volume(b)
    decreases |b|
  {
    if b == [] {
      assert a + b == a;
    } else {
      var n := |b| - 1;
      assert (a + b)[..|a + b| - 1] == a + b[..n];
      VolumeConcat(a, b[..n]);
    }
  }

  lemma {:induction false} IntendedVolume(lastId: string, events: seq<SseEvent>)
    requires DataLacksCr(events)
    ensures Volume(Intended(lastId, events)) == OwnVolume(events)
    decreases |events|
  {
    hide Volume, Entries, IdAfter, TypeOf, DataBuffer, AllLack;
    if events == [] {
      NoVolume();
    } else {
      var e := events[0];
      var id := IdAfter(lastId, e);
      IntendedVolume(id, events[1..]);
      BufferWhole(e.data);
      BufferEnds(e.data);
      if e.data == [] {
        assert [] + Intended(id, events[1..]) == Intended(id, events[1..]);
      } else {
        var m := Message(TypeOf(e), Entries(e.data), id);
        VolumeConcat([m], Intended(id, events[1..]));
        NoVolume();
        VolumeSnoc([], m);
        assert [] + [m] == [m];
      }
    }
  }

  lemma NoVolume()
    ensures Volume([]) == 0
  {
  }

  // ----- What the comments do to names and ids.

  // The event name after these lines; an empty line forgets it.
  function NameAfter(name: string, lines: seq<string>): string
    decreases |lines|
  {
    if lines == [] then name
    else
      var line := lines[0];
      NameAfter(if line == "" then "" else if IsField(line, "event") then FieldValue(line) else name, lines[1..])
  }

  // The last event id after these lines.
  function IdAfterLines(id: string, lines: seq<string>): string
    decreases |lines|
  {
    if lines == [] then id
    else
      var line := lines[0];
      IdAfterLines(if IsField(line, "id") && NUL !in FieldValue(line) then FieldValue(line) else id, lines[1..])
  }

  predicate NoData(lines: seq<string>) {
    forall i :: 0 <= i < |lines| ==> !IsField(lines[i], "data")
  }

  lemma {:induction false} NoDataWeighsNothing(lines: seq<string>)
    ensures Weights(lines) == 0 <==> NoData(lines)
  {
    hide FieldName, FieldValue, IsField;
    if lines != [] {
      NoDataWeighsNothing(lines[1..]);
      assert NoData(lines) <==> !IsField(lines[0], "data") && NoData(lines[1..]);
    }
  }

  lemma QuietLine(r: Reader, line: string)
    requires r.data == "" && !IsField(line, "data")
    ensures var r' := ReadLine(r, line);
            && r'.data == "" && r'.messages == r.messages
            && r'.eventType == (if line == "" then "" else if IsField(line, "event") then FieldValue(line)
                else r.eventType)
            && r'.lastId == (if IsField(line, "id") && NUL !in FieldValue(line) then FieldValue(line) else r.lastId)
  {
    hide FieldName, FieldValue, AllDigits, Number;
  }

  lemma {:induction false} QuietLines(r: Reader, lines: seq<string>)
    requires r.data == "" && NoData(lines)
    ensures var r' := ReadLines(r, lines);
            && r'.data == "" && r'.messages == r.messages
            && r'.eventType == NameAfter(r.eventType, lines) && r'.lastId == IdAfterLines(r.lastId, lines)
    decreases |lines|
  {
    hide ReadLine, IsField, FieldValue;
    if lines != [] {
      QuietLine(r, lines[0]);
      QuietLines(ReadLine(r, lines[0]), lines[1..]);
    }
  }

  function Named(name: string): string {
    if name == "" then "message" else name
  }

  function HeaderName(e: SseEvent): string {
    if e.event.Some? then Sanitized(e.event.value) else ""
  }

  // The messages a reader gets, as long as no comment adds data: names and ids as the comments leave them.
  function Actual(seenId: string, events: seq<SseEvent>): seq<Message>
    decreases |events|
  {
    if events == [] then []
    else
      var e := events[0];
      var id := IdAfterLines(IdAfter(seenId, e), Extras(e));
      (if e.data == [] then [] else [Message(Named(NameAfter(HeaderName(e), Extras(e))), Entries(e.data), id)])
      + Actual(id, events[1..])
  }

  predicate AllNoData(events: seq<SseEvent>) {
    forall i :: 0 <= i < |events| ==> NoData(Extras(events[i]))
  }

  lemma FrameActual(r: Reader, e: SseEvent)
    requires r.data == "" && r.eventType == "" && AllLack(e.data, CR) && NoData(Extras(e))
    ensures var r' := AfterFrame(r, e);
            var id := IdAfterLines(IdAfter(r.lastId, e), Extras(e));
            && r'.data == "" && r'.eventType == "" && r'.lastId == id
            && r'.messages == r.messages + (if e.data == [] then []
                 else [Message(Named(NameAfter(HeaderName(e), Extras(e))), Entries(e.data), id)])
  {
    hide ReadLines, Extras, NoData, DataBuffer, Dispatch, IdAfter, NameAfter, IdAfterLines, Entries, Sanitized, AllLack;
    var h := Headed(r, e);
    QuietLines(h, Extras(e));
    var commented := ReadLines(h, Extras(e));
    BufferWhole(e.data);
    BufferEnds(e.data);
    var buffer := DataBuffer(e.data);
    assert commented.data + buffer == buffer;
    assert r.messages + [] == r.messages;
    if e.data == [] {
      DispatchEmpty(commented);
    } else {
      DispatchFull(commented, buffer);
      assert buffer[..|buffer| - 1] == Entries(e.data);
    }
  }

  lemma {:induction false} FramesActual(r: Reader, events: seq<SseEvent>)
    requires r.data == "" && r.eventType == "" && DataLacksCr(events) && AllNoData(events)
    ensures AfterFrames(r, events).messages == r.messages + Actual(r.lastId, events)
    decreases |events|
  {
    hide AfterFrame, Extras, NoData, IdAfter, NameAfter, IdAfterLines, Entries, AllLack, HeaderName, Named;
    if events == [] {
      assert r.messages + [] == r.messages;
    } else {
      var e := events[0];
      FrameActual(r, e);
      var next := AfterFrame(r, e);
      FramesActual(next, events[1..]);
      var own := if e.data == [] then []
                 else [Message(Named(NameAfter(HeaderName(e), Extras(e))), Entries(e.data), next.lastId)];
      assert r.messages + own + Actual(next.lastId, events[1..]) ==
          r.messages + (own + Actual(next.lastId, events[1..]));
    }
  }

  // Every event with data keeps its name, and the id in force is the one that was meant.
  predicate Undisturbed(seenId: string, meantId: string, events: seq<SseEvent>)
    decreases |events|
  {
    events == [] ||
    (var e := events[0];
     var seen, meant := IdAfterLines(IdAfter(seenId, e), Extras(e)), IdAfter(meantId, e);
     && (e.data != [] ==> seen == meant && Named(NameAfter(HeaderName(e), Extras(e))) == TypeOf(e))
     && Undisturbed(seen, meant, events[1..]))
  }

  lemma {:induction false} ActualExactly(seenId: string, meantId: string, events: seq<SseEvent>)
    ensures Actual(seenId, events) == Intended(meantId, events) <==> Undisturbed(seenId, meantId, events)
    decreases |events|
  {
    hide Extras, IdAfter, NameAfter, IdAfterLines, Entries, HeaderName, Named, TypeOf;
    if events != [] {
      var e := events[0];
      var seen, meant := IdAfterLines(IdAfter(seenId, e), Extras(e)), IdAfter(meantId, e);
      ActualExactly(seen, meant, events[1..]);
      if e.data == [] {
        assert [] + Actual(seen, events[1..]) == Actual(seen, events[1..]);
        assert [] + Intended(meant, events[1..]) == Intended(meant, events[1..]);
      } else {
        SameHead(Message(Named(NameAfter(HeaderName(e), Extras(e))), Entries(e.data), seen), Actual(seen, events[1..]),
                 Message(TypeOf(e), Entries(e.data), meant), Intended(meant, events[1..]));
      }
    }
  }

  lemma SameHead(a: Message, as_: seq<Message>, b: Message, bs: seq<Message>)
    ensures [a] + as_ == [b] + bs <==> a == b && as_ == bs
  {
    assert ([a] + as_)[0] == a && ([b] + bs)[0] == b && ([a] + as_)[1..] == as_ && ([b] + bs)[1..] == bs;
  }

  // ----- The theorem.

  lemma {:induction false} NothingInjected(events: seq<SseEvent>)
    ensures Injected(events) == 0 <==> AllNoData(events)
  {
    hide Extras, Weights, NoData;
    if events != [] {
      NoDataWeighsNothing(Extras(events[0]));
      NothingInjected(events[1..]);
      assert AllNoData(events) <==> NoData(Extras(events[0])) && AllNoData(events[1..]);
    }
  }

  lemma StreamRead(events: seq<SseEvent>)
    requires DataLacksCr(events)
    ensures Decoded(Joined(StreamText(events))) == AfterFrames(FRESH, events)
  {
    hide StreamLines, ReadLines, StreamText, AfterFrames, Joined, AllSeen, DataLacksCr, NoLf, WithoutMark;
    NoMark(events);
    StreamNoLf(events);
    StreamSeen(StreamText(events));
    FramesSeen(FRESH, events);
  }

  // A reader gets the intended messages, each with its name, its entries joined by line feeds and the id
  // in force, exactly when no data has a carriage return, no comment adds a line of data, and no comment
  // changes a name or an id.
  lemma SseExactly(events: seq<SseEvent>)
    ensures Decoded(Joined(StreamText(events))).messages == Intended("", events) <==>
            DataLacksCr(events) && AllNoData(events) && Undisturbed("", "", events)
  {
    hide StreamText, Joined, DataLacksCr, Decoded, Intended, AfterFrames, Actual, Undisturbed, AllNoData, Volume, Lacks;
    if DataLacksCr(events) {
      StreamRead(events);
      FramesVolume(FRESH, events);
      NoVolume();
      IntendedVolume("", events);
      NothingInjected(events);
      if AllNoData(events) {
        FramesActual(FRESH, events);
        assert FRESH.messages + Actual("", events) == Actual("", events);
        ActualExactly("", "", events);
      }
    } else {
      IntendedKeepsCr("", events);
      DecodedLacksCr(Joined(StreamText(events)));
    }
  }

  // ----- Comments that do no harm, and some that do.

  // A line that no reader takes anything from but the reconnection time.
  predicate Ignored(line: string) {
    line != "" && !IsField(line, "data") && !IsField(line, "event") && !IsField(line, "id")
  }

  predicate HarmlessComments(events: seq<SseEvent>) {
    forall i, j :: 0 <= i < |events| && 0 <= j < |Extras(events[i])| ==> Ignored(Extras(events[i])[j])
  }

  lemma {:induction false} IgnoredLines(name: string, id: string, lines: seq<string>)
    requires forall i :: 0 <= i < |lines| ==> Ignored(lines[i])
    ensures NoData(lines) && NameAfter(name, lines) == name && IdAfterLines(id, lines) == id
    decreases |lines|
  {
    hide IsField, FieldValue;
    if lines != [] {
      assert Ignored(lines[0]);
      IgnoredLines(name, id, lines[1..]);
      assert forall i :: 0 < i < |lines| ==> lines[i] == lines[1..][i - 1];
    }
  }

  lemma HeaderNameIs(e: SseEvent)
    ensures Named(HeaderName(e)) == TypeOf(e)
  {
    hide Sanitized;
    if e.event.Some? {
      assert |Sanitized(e.event.value)| == |e.event.value|;
    }
  }

  lemma {:induction false} HarmlessUndisturbed(id: string, events: seq<SseEvent>)
    requires HarmlessComments(events)
    ensures AllNoData(events) && Undisturbed(id, id, events)
    decreases |events|
  {
    hide Extras, Ignored, IdAfter, NameAfter, IdAfterLines, NoData, HeaderName, Named, TypeOf;
    if events != [] {
      var e := events[0];
      HeaderNameIs(e);
      assert forall j :: 0 <= j < |Extras(e)| ==> Ignored(Extras(events[0])[j]);
      IgnoredLines(HeaderName(e), IdAfter(id, e), Extras(e));
      assert HarmlessComments(events[1..]) by {
        assert forall i :: 0 <= i < |events[1..]| ==> events[1..][i] == events[i + 1];
      }
      HarmlessUndisturbed(IdAfter(id, e), events[1..]);
      assert forall i :: 0 < i < |events| ==> events[i] == events[1..][i - 1];
    }
  }

  // If every line a reader sees inside the comments is one it ignores, only the data matters.
  lemma HarmlessExactly(events: seq<SseEvent>)
    requires HarmlessComments(events)
    ensures Decoded(Joined(StreamText(events))).messages == Intended("", events) <==> DataLacksCr(events)
  {
    hide StreamText, Joined, DataLacksCr, Decoded, Intended, Undisturbed, AllNoData, HarmlessComments;
    HarmlessUndisturbed("", events);
    SseExactly(events);
  }

  const INJECTING := SseEvent(None, None, None, ["a"], ["x\rdata: y"])

  // A comment that adds a line of data to the message after it.
  lemma CommentInjectsData()
    ensures DataLacksCr([INJECTING])
    ensures Decoded(Joined(StreamText([INJECTING]))).messages == [Message("message", "y\na", "")]
    ensures Intended("", [INJECTING]) == [Message("message", "a", "")]
  {
    hide StreamText, Joined, Decoded, Extras, Dispatch, DataBuffer, ReadLines, Carried;
    InjectingExtras();
    ShortData("a");
    StreamRead([INJECTING]);
    assert [INJECTING][1..] == [];
    assert AfterFrames(AfterFrame(FRESH, INJECTING), []) == AfterFrame(FRESH, INJECTING);
    var h := Headed(FRESH, INJECTING);
    ReadOne(h, "data: y");
    ReadField(h, "data", "y");
    assert "data" + ": " + "y" == "data: y" && "" + "y" + "\n" == "y\n";
    BufferWhole(["a"]);
    assert Entries(["a"]) == "a";
    var buffer := "y\n" + ("a" + "\n");
    DispatchFull(h, buffer);
    assert buffer[..|buffer| - 1] == "y\na";
    assert h.messages + [Message("message", "y\na", "")] == [Message("message", "y\na", "")];
    assert [Message("message", "a", "")] + [] == [Message("message", "a", "")];
  }

  lemma ShortData(s: string)
    requires Lacks(s, CR)
    ensures AllLack([s], CR)
  {
  }

  lemma InjectingExtras()
    ensures Extras(INJECTING) == ["data: y"]
  {
    hide MultilineFields, ExtrasOf, Seen;
    var text := "x\rdata: y";
    OneComment(text);
    OneExtra(": x", "data: y");
    assert ": x" + "\r" + "data: y" == ": " + text;
  }

  lemma OneComment(text: string)
    requires Lacks(text, LF) && StripCr(text) == text
    ensures MultilineFields(": ", [text]) == [": " + text]
  {
    PlainSplit(text);
    assert [text][1..] == [];
    assert [": " + text] + [] == [": " + text];
  }

  lemma OneExtra(a: string, b: string)
    requires OneLine(a) && OneLine(b) && b != ""
    ensures ExtrasOf([a + "\r" + b]) == [b]
  {
    hide LineLen, OneLine;
    var line := a + "\r" + b;
    CutAtCr(a, b);
    OneLineLen(b);
    assert Seen(b) == [b];
    assert [line][1..] == [];
    assert ([a] + [b])[1..] == [b] && [b] + [] == [b];
  }

  lemma {:induction false} PlainSplit(s: string)
    requires Lacks(s, LF)
    ensures SplitLf(s) == [s]
  {
    if s != "" {
      assert s[0] != LF;
      PlainSplit(s[1..]);
      assert [s[0]] + s[1..] == s;
    }
  }

  lemma CutAtCr(a: string, b: string)
    requires OneLine(a) && b != ""
    ensures Seen(a + "\r" + b) == [a] + Seen(b)
  {
    var s := a + "\r" + b;
    CrLen(a, b);
    assert s[..|a|] == a && s[|a| + 1..] == b;
  }

  lemma {:induction false} CrLen(a: string, b: string)
    requires OneLine(a)
    ensures LineLen(a + "\r" + b) == |a|
  {
    var s := a + "\r" + b;
    if a != "" {
      assert s[0] == a[0] && a[0] in a;
      assert s[1..] == a[1..] + "\r" + b;
      CrLen(a[1..], b);
    }
  }

  // Data with a carriage return arrives without what follows it.
  const BROKEN := SseEvent(None, None, None, ["a\rb"], [])

  lemma BrokenData()
    ensures Intended("", [BROKEN]) == [Message("message", "a\rb", "")]
    ensures Decoded(Joined(StreamText([BROKEN]))).messages != Intended("", [BROKEN])
  {
    hide StreamText, Joined, Decoded, AllNoData, Undisturbed;
    var data := ["a\rb"];
    assert data[0][1] == CR;
    assert [BROKEN][0].data == data && !AllLack(data, CR) && !DataLacksCr([BROKEN]);
    SseExactly([BROKEN]);
    assert [BROKEN][1..] == [];
    assert [Message("message", "a\rb", "")] + [] == [Message("message", "a\rb", "")];
  }
}
