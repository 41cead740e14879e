/** What a caller means by a list of events, and what carriage returns in their data do to it. */
module SseExact {
  import opened Results
  import opened Sse
  import opened SseDecoder

  // The data entries of an event, joined by line feeds.
  function Entries(data: seq<string>): string {
    if data == [] then "" else if |data| == 1 then data[0] else data[0] + "\n" + Entries(data[1..])
  }

  // The messages a caller means by these events: their own data, under the id in force.
  function Intended(lastId: string, events: seq<SseEvent>): seq<Message>
    decreases |events|
  {
    if events == [] then []
    else
      var e := events[0];
      var id := IdAfter(lastId, e);
      (if e.data == [] then [] else [Message(TypeOf(e), Entries(e.data), id)]) + Intended(id, events[1..])
  }

  predicate AllLack(data: seq<string>, c: char) {
    forall i :: 0 <= i < |data| ==> Lacks(data[i], c)
  }

  predicate DataLacksCr(events: seq<SseEvent>) {
    forall i :: 0 <= i < |events| ==> AllLack(events[i].data, CR)
  }

  // ----- Data without carriage returns travels unchanged.

  lemma {:induction false} LinesLackCr(s: string)
    requires Lacks(s, CR)
    ensures AllLack(SplitLf(s), CR)
    ensures CleanText(s)
  {
    if s != "" {
      LinesLackCr(s[1..]);
      var lines, rest := SplitLf(s), SplitLf(s[1..]);
      assert forall i :: 0 < i < |lines| ==> lines[i] == if s[0] == LF then rest[i - 1] else rest[i];
      assert Lacks(rest[0], CR);
      assert s[0] != CR;
    }
    forall i | 0 <= i < |SplitLf(s)| ensures Lacks(StripCr(SplitLf(s)[i]), CR) {
      StripNothing(SplitLf(s)[i]);
    }
  }

  lemma StripNothing(line: string)
    requires Lacks(line, CR)
    ensures StripCr(line) == line
  {
  }

  // Splitting at line feeds and joining again is the identity on text without carriage returns.
  lemma {:induction false} CarriedWhole(s: string)
    requires Lacks(s, CR)
    ensures Carried(s) == s
  {
    LinesLackCr(s);
    StripNothing(SplitLf(s)[0]);
    if s != "" {
      CarriedWhole(s[1..]);
      var rest := SplitLf(s[1..]);
      LinesLackCr(s[1..]);
      StripNothing(rest[0]);
      if s[0] == LF {
        assert SplitLf(s)[1..] == rest;
        assert Unbroken(SplitLf(s)) == "" + "\n" + Unbroken(rest);
      } else {
        assert SplitLf(s)[1..] == rest[1..];
        assert Unbroken(SplitLf(s)) == [s[0]] + Unbroken(rest);
      }
    }
  }

  lemma {:induction false} BufferWhole(data: seq<string>)
    requires AllLack(data, CR)
    ensures data != [] ==> DataBuffer(data) == Entries(data) + "\n"
  {
    hide Carried;
    if data != [] {
      CarriedWhole(data[0]);
      BufferWhole(data[1..]);
      if |data| == 1 {
        assert data[1..] == [];
        assert DataBuffer(data) == data[0] + "\n" + "";
      } else {
        assert data[0] + "\n" + (Entries(data[1..]) + "\n") == Entries(data) + "\n";
      }
    }
  }

  // ----- A reader never delivers a carriage return.

  predicate NoCr(r: Reader) {
    Lacks(r.data, CR) && forall i :: 0 <= i < |r.messages| ==> Lacks(r.messages[i].data, CR)
  }

  lemma {:induction false} LineLenStops(s: string)
    ensures OneLine(s[..LineLen(s)])
  {
    if s != "" && s[0] != CR && s[0] != LF {
      LineLenStops(s[1..]);
      assert s[..LineLen(s)] == [s[0]] + s[1..][..LineLen(s[1..])];
    }
  }

  lemma {:induction false} StreamLinesAreLines(s: string)
    ensures OneLines(StreamLines(s))
    decreases |s|
  {
    hide LineLen, OneLine;
    var n := LineLen(s);
    LineLenStops(s);
    if n < |s| {
      var end := if s[n] == CR && n + 1 < |s| && s[n + 1] == LF then n + 2 else n + 1;
      StreamLinesAreLines(s[end..]);
    }
  }

  lemma ReadLineNoCr(r: Reader, line: string)
    requires NoCr(r) && OneLine(line)
    ensures NoCr(ReadLine(r, line))
  {
    hide ColonAt, Number, AllDigits;
    assert Lacks(FieldValue(line), CR);
  }

  lemma {:induction false} ReadLinesNoCr(r: Reader, lines: seq<string>)
    requires NoCr(r) && OneLines(lines)
    ensures NoCr(ReadLines(r, lines))
    decreases |lines|
  {
    hide ReadLine, NoCr, OneLine;
    if lines != [] {
      ReadLineNoCr(r, lines[0]);
      ReadLinesNoCr(ReadLine(r, lines[0]), lines[1..]);
    }
  }

  // Whatever the stream, no message read from it has a carriage return in its data.
  lemma DecodedLacksCr(stream: string)
    ensures NoCr(Decoded(stream))
  {
    hide StreamLines, ReadLines, WithoutMark;
    StreamLinesAreLines(WithoutMark(stream));
    ReadLinesNoCr(FRESH, StreamLines(WithoutMark(stream)));
  }

  lemma {:induction false} EntriesKeepCr(data: seq<string>)
    requires !AllLack(data, CR)
    ensures !Lacks(Entries(data), CR)
  {
    if Lacks(data[0], CR) {
      assert !AllLack(data[1..], CR) by {
        var i :| 0 <= i < |data| && !Lacks(data[i], CR);
        assert data[1..][i - 1] == data[i];
      }
      EntriesKeepCr(data[1..]);
    }
  }

  lemma {:induction false} IntendedKeepsCr(lastId: string, events: seq<SseEvent>)
    requires !DataLacksCr(events)
    ensures exists k :: 0 <= k < |Intended(lastId, events)| && !Lacks(Intended(lastId, events)[k].data, CR)
    decreases |events|
  {
    hide IdAfter, TypeOf, Entries, AllLack, Lacks;
    var e := events[0];
    var all := Intended(lastId, events);
    if !AllLack(e.data, CR) {
      NoneLack();
      EntriesKeepCr(e.data);
      assert !Lacks(all[0].data, CR);
    } else {
      assert !DataLacksCr(events[1..]) by {
        var i :| 0 <= i < |events| && !AllLack(events[i].data, CR);
        assert events[1..][i - 1] == events[i];
      }
      IntendedKeepsCr(IdAfter(lastId, e), events[1..]);
      var rest := Intended(IdAfter(lastId, e), events[1..]);
      var k :| 0 <= k < |rest| && !Lacks(rest[k].data, CR);
      assert all[k + |all| - |rest|] == rest[k];
    }
  }

  lemma NoneLack()
    ensures AllLack([], CR)
  {
  }
}
