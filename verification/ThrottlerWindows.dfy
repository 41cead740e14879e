/** Fixed windows against sliding ones, and how many requests an interval can take at most. */
module ThrottlerWindows {
  import opened Results
  import opened Throttler
  import opened ThrottlerLaws

  // ----- A run grows by a burst of equal calls.

  function Repeat(c: Call, n: nat): (calls: seq<Call>)
    ensures |calls| == n && forall i :: 0 <= i < n ==> calls[i] == c
  {
    seq(n, i => c)
  }

  function Counts(c: Call, from: nat, to: nat): nat {
    if from <= c.now <= to then 1 else 0
  }

  lemma OneMore(calls: seq<Call>, c: Call, from: nat, to: nat)
    requires WindowAllow(Window(Counted(calls), c.key), c).1
    ensures Window(Counted(calls + [c]), c.key) == WindowAllow(Window(Counted(calls), c.key), c).0
    ensures AllowedWithin(calls + [c], c.key, from, to) == AllowedWithin(calls, c.key, from, to) + Counts(c, from, to)
    ensures Decisions(calls + [c]) == Decisions(calls) + [true]
  {
    hide Run, WindowAllow;
    var all := calls + [c];
    assert all[..|all| - 1] == calls;
    RunSplits(all);
  }

  // Calls within the open window, as long as it has room.
  lemma {:induction false} Burst(calls: seq<Call>, c: Call, n: nat, s: nat, m: u32, from: nat, to: nat)
    requires Window(Counted(calls), c.key) == Some(WindowState(s, m)) && m + n <= c.limit
    requires c.limit > 0 && c.ttl > 0 && DurationSince(c.now, s) < c.ttl
    ensures var all := calls + Repeat(c, n);
            && Window(Counted(all), c.key) == Some(WindowState(s, m + n))
            && AllowedWithin(all, c.key, from, to) == AllowedWithin(calls, c.key, from, to) + n * Counts(c, from, to)
    decreases n
  {
    hide Run, AllowedWithin;
    if n == 0 {
      assert calls + Repeat(c, 0) == calls;
    } else {
      Burst(calls, c, n - 1, s, m, from, to);
      var before := calls + Repeat(c, n - 1);
      OneMore(before, c, from, to);
      assert before + [c] == calls + Repeat(c, n);
    }
  }

  // Calls that open a window of their own.
  lemma OpenBurst(calls: seq<Call>, c: Call, n: nat, from: nat, to: nat)
    requires 1 <= n <= c.limit && c.ttl > 0
    requires var w := Window(Counted(calls), c.key); w.Some? ==> DurationSince(c.now, w.value.startedAt) >= c.ttl
    ensures var all := calls + Repeat(c, n);
            && Window(Counted(all), c.key) == Some(WindowState(c.now, n))
            && AllowedWithin(all, c.key, from, to) == AllowedWithin(calls, c.key, from, to) + n * Counts(c, from, to)
  {
    hide Run, AllowedWithin;
    OneMore(calls, c, from, to);
    Burst(calls + [c], c, n - 1, c.now, 1, from, to);
    assert calls + [c] + Repeat(c, n - 1) == calls + Repeat(c, n);
  }

  // ----- Sliding windows.

  function Since(now: nat, ttl: nat): nat {
    if now >= ttl then now - ttl + 1 else 0
  }

  // Every call is let through exactly when fewer than `limit` were during the preceding ttl.
  predicate Slides(calls: seq<Call>, key: string, limit: nat, ttl: nat) {
    forall i :: 0 <= i < |calls| && calls[i].key == key ==>
      (Decisions(calls)[i] <==> AllowedWithin(calls[..i], key, Since(calls[i].now, ttl), calls[i].now) < limit)
  }

  ghost predicate AlwaysSlides(limit: nat, ttl: nat) {
    forall calls: seq<Call>, key: string ::
        Monotone(calls) && Fixed(calls, key, limit, ttl) ==> Slides(calls, key, limit, ttl)
  }

  function CountFrom(times: seq<nat>, from: nat): nat {
    if times == [] then 0 else CountFrom(times[..|times| - 1], from) + (if times[|times| - 1] >= from then 1 else 0)
  }

  lemma {:induction false} CountedTimes(calls: seq<Call>, key: string, from: nat, to: nat)
    requires forall i :: 0 <= i < |calls| ==> calls[i].now <= to
    ensures AllowedWithin(calls, key, from, to) == CountFrom(AllowedTimes(calls, key), from)
    decreases |calls|
  {
    hide AllowedTimes, AllowedWithin, Decisions;
    if calls == [] {
      NoCallsCounted(key, from, to);
    } else {
      var n := |calls| - 1;
      CountedTimes(calls[..n], key, from, to);
      FrontSplits(calls, key, from, to);
      var before := AllowedTimes(calls[..n], key);
      assert (before + [calls[n].now])[..|before|] == before;
    }
  }

  lemma NoCallsCounted(key: string, from: nat, to: nat)
    ensures AllowedWithin([], key, from, to) == 0 && AllowedTimes([], key) == []
  {
  }

  predicate Ordered(times: seq<nat>) {
    forall i, j :: 0 <= i < j < |times| ==> times[i] <= times[j]
  }

  // In ordered times, counting from `from` on counts everything after the last earlier time.
  lemma {:induction false} CountSplit(times: seq<nat>, from: nat, k: nat)
    requires Ordered(times) && k <= |times|
    requires (forall i :: 0 <= i < k ==> times[i] < from) && (forall i :: k <= i < |times| ==> times[i] >= from)
    ensures CountFrom(times, from) == |times| - k
    decreases |times|
  {
    if times != [] {
      var n := |times| - 1;
      CountSplit(times[..n], from, if k <= n then k else n);
    }
  }

  // With a ttl of one tick, a window holds the times of one tick.
  lemma {:induction false} OpeningOfTick(times: seq<nat>)
    requires times != [] && Ordered(times)
    ensures var o := Opening(times, 1);
            (forall k :: 0 <= k < o ==> times[k] < times[o]) && (forall k :: o <= k < |times| ==> times[k] == times[o])
    decreases |times|
  {
    var n := |times| - 1;
    if n > 0 {
      OpeningOfTick(times[..n]);
      var o := Opening(times[..n], 1);
      assert times[..n][o] == times[o];
      assert forall k :: 0 <= k < n ==> times[..n][k] == times[k];
    }
  }

  // The decision on the times alone, in the two cases where the window cannot matter.
  lemma SlidingHistory(times: seq<nat>, limit: nat, ttl: nat, now: nat)
    requires ttl > 0 && Ordered(times) && forall i :: 0 <= i < |times| ==> times[i] <= now
    requires times != [] ==> |times| - Opening(times, ttl) <= limit
    requires limit == 1 || (limit > 0 && ttl == 1)
    ensures HistoryAllows(times, limit, ttl, now) <==> CountFrom(times, Since(now, ttl)) < limit
  {
    hide Opening;
    if times != [] {
      var n := |times| - 1;
      var since := Since(now, ttl);
      if ttl == 1 {
        OpeningOfTick(times);
        var o := Opening(times, 1);
        CountSplit(times, since, if times[o] == now then o else |times|);
      } else if times[n] < since {
        CountSplit(times, since, |times|);
      } else {
        assert CountFrom(times, since) >= 1;
      }
    }
  }

  lemma {:induction false} DecisionsPrefix(calls: seq<Call>, n: nat)
    requires n <= |calls|
    ensures Decisions(calls[..n]) == Decisions(calls)[..n]
    decreases |calls|
  {
    hide Run;
    if n == |calls| {
      assert calls[..n] == calls;
    } else {
      var m := |calls| - 1;
      RunSplits(calls);
      DecisionsPrefix(calls[..m], n);
      assert calls[..m][..n] == calls[..n];
    }
  }

  lemma DecisionsCount(calls: seq<Call>)
    ensures |Decisions(calls)| == |calls|
  {
    hide Run;
  }

  lemma SlidingLast(calls: seq<Call>, key: string, limit: u32, ttl: nat)
    requires Monotone(calls) && Fixed(calls, key, limit, ttl) && limit > 0 && ttl > 0 && (limit <= 1 || ttl <= 1)
    requires calls != [] && calls[|calls| - 1].key == key
    ensures var n := |calls| - 1;
            && |Decisions(calls)| == |calls|
            && (Decisions(calls)[n] <==> AllowedWithin(calls[..n], key, Since(calls[n].now, ttl), calls[n].now) < limit)
  {
    hide Run, Opening, AllowedTimes, AllowedWithin, Decisions;
    var n := |calls| - 1;
    var front, now := calls[..n], calls[n].now;
    DecisionsCount(calls);
    CountersRefineHistory(calls, key, limit, ttl);
    CountersRefineHistory(front, key, limit, ttl);
    var times := AllowedTimes(front, key);
    assert forall j :: 0 <= j < n ==> front[j].now == calls[j].now <= now;
    TimesCounted(front, key, 0, now);
    assert Sorted(times, now);
    CountedTimes(front, key, Since(now, ttl), now);
    SlidingHistory(times, limit, ttl, now);
  }

  lemma SlidingHolds(calls: seq<Call>, key: string, limit: u32, ttl: nat)
    requires Monotone(calls) && Fixed(calls, key, limit, ttl) && limit > 0 && ttl > 0 && (limit <= 1 || ttl <= 1)
    ensures Slides(calls, key, limit, ttl)
  {
    hide AllowedWithin, Decisions;
    DecisionsCount(calls);
    forall i | 0 <= i < |calls| && calls[i].key == key
      ensures Decisions(calls)[i] <==> AllowedWithin(calls[..i], key, Since(calls[i].now, ttl), calls[i].now) < limit
    {
      var upTo := calls[..i + 1];
      assert upTo[..i] == calls[..i] && upTo[i] == calls[i];
      DecisionsPrefix(calls, i + 1);
      SlidingLast(upTo, key, limit, ttl);
    }
  }

  // The first call opens a window that the others fill up just before it turns over.
  function Turning(limit: u32, ttl: nat): seq<Call>
    requires limit >= 2 && ttl >= 2
  {
    [Call("k", limit, ttl, 0)] + Repeat(Call("k", limit, ttl, ttl - 1), limit - 1)
        + Repeat(Call("k", limit, ttl, ttl), 2)
  }

  lemma SlidingFails(limit: u32, ttl: nat)
    requires limit >= 2 && ttl >= 2
    ensures var calls := Turning(limit, ttl);
            Monotone(calls) && Fixed(calls, "k", limit, ttl) && !Slides(calls, "k", limit, ttl)
  {
    hide Run, AllowedWithin, Decisions;
    var first, late, turned := Call("k", limit, ttl, 0), Call("k", limit, ttl, ttl - 1), Call("k", limit, ttl, ttl);
    NoRunYet();
    OpenBurst([], first, 1, 1, ttl);
    assert [] + Repeat(first, 1) == [first];
    Burst([first], late, limit - 1, 0, 1, 1, ttl);
    var filled := [first] + Repeat(late, limit - 1);
    OpenBurst(filled, turned, 1, 1, ttl);
    var before := filled + Repeat(turned, 1);
    OneMore(before, turned, 1, ttl);
    var calls := Turning(limit, ttl);
    assert before + [turned] == calls;
    var n := |calls| - 1;
    assert calls[..n] == before && calls[n] == turned;
    NothingYet(1, ttl);
    assert AllowedWithin(before, "k", Since(ttl, ttl), ttl) == limit;
    DecisionsCount(before);
    DecisionsCount(calls);
    assert Decisions(calls)[n];
  }

  lemma NoRunYet()
    ensures Window(Counted([]), "k") == None
  {
  }

  lemma NothingYet(from: nat, to: nat)
    ensures AllowedWithin([], "k", from, to) == 0
  {
  }

  // Fixed windows decide as sliding ones do, on all runs, exactly when the limit is one request or the
  // ttl is one tick.
  lemma SlidingExactly(limit: u32, ttl: nat)
    requires limit > 0 && ttl > 0
    ensures AlwaysSlides(limit, ttl) <==> limit <= 1 || ttl <= 1
  {
    hide Slides, Turning, Monotone, Fixed;
    if limit <= 1 || ttl <= 1 {
      forall calls: seq<Call>, key: string | Monotone(calls) && Fixed(calls, key, limit, ttl)
        ensures Slides(calls, key, limit, ttl)
      {
        SlidingHolds(calls, key, limit, ttl);
      }
    } else {
      SlidingFails(limit, ttl);
    }
  }

  // ----- The bound of AtMost is reached.

  function LastNow(calls: seq<Call>): nat {
    if calls == [] then 0 else calls[|calls| - 1].now
  }

  lemma MonotoneAppend(calls: seq<Call>, c: Call, n: nat)
    requires Monotone(calls) && LastNow(calls) <= c.now
    ensures Monotone(calls + Repeat(c, n)) && (n > 0 ==> LastNow(calls + Repeat(c, n)) == c.now)
  {
    var all := calls + Repeat(c, n);
    assert forall i :: 0 <= i < |all| ==> all[i] == if i < |calls| then calls[i] else c;
    assert forall i :: 0 <= i < |calls| ==> calls[i].now <= LastNow(calls);
  }

  lemma BoundedAppend(calls: seq<Call>, c: Call, n: nat, key: string, limit: nat, ttl: nat)
    requires Bounded(calls, key, limit, ttl) && c.limit <= limit && c.ttl >= ttl
    ensures Bounded(calls + Repeat(c, n), key, limit, ttl)
  {
    var all := calls + Repeat(c, n);
    assert forall i :: 0 <= i < |all| ==> all[i] == if i < |calls| then calls[i] else c;
  }

  // The calls of `n` full windows, one after the other, the first of them at time `start`.
  function FullWindows(limit: u32, ttl: nat, start: nat, n: nat): seq<Call> {
    if n == 0 then []
    else FullWindows(limit, ttl, start, n - 1) + Repeat(Call("k", limit, ttl, start + (n - 1) * ttl), limit)
  }

  // The window of the run, if any, is over by then.
  predicate WindowOver(calls: seq<Call>, ttl: nat, now: nat) {
    var w := Window(Counted(calls), "k");
    w.Some? ==> w.value.startedAt + ttl <= now
  }

  lemma Products(n: nat, limit: nat, ttl: nat)
    requires n > 0
    ensures n * ttl == (n - 1) * ttl + ttl && limit * n == limit * (n - 1) + limit
    ensures n >= 2 ==> (n - 2) * ttl <= (n - 1) * ttl
  {
  }

  // After any run whose window is over, n full windows let limit * n requests through.
  lemma {:induction false} FullWindowsCount(before: seq<Call>, limit: u32, ttl: nat, start: nat, n: nat, from: nat,
      to: nat)
    requires limit > 0 && ttl > 0 && from <= start && (n > 0 ==> start + (n - 1) * ttl <= to)
    requires Monotone(before) && Bounded(before, "k", limit, ttl) && LastNow(before) <= start
    requires WindowOver(before, ttl, start)
    ensures var all := before + FullWindows(limit, ttl, start, n);
            && Monotone(all) && Bounded(all, "k", limit, ttl)
            && AllowedWithin(all, "k", from, to) == AllowedWithin(before, "k", from, to) + limit * n
            && LastNow(all) <= start + n * ttl
            && WindowOver(all, ttl, start + n * ttl)
    decreases n
  {
    hide Run, AllowedWithin, Monotone, Bounded, LastNow, Window, Counted, WindowAllow;
    if n == 0 {
      assert before + FullWindows(limit, ttl, start, 0) == before;
    } else {
      Products(n, limit, ttl);
      FullWindowsCount(before, limit, ttl, start, n - 1, from, to);
      var calls := before + FullWindows(limit, ttl, start, n - 1);
      var c := Call("k", limit, ttl, start + (n - 1) * ttl);
      assert Counts(c, from, to) == 1;
      OpenBurst(calls, c, limit, from, to);
      MonotoneAppend(calls, c, limit);
      BoundedAppend(calls, c, limit, "k", limit, ttl);
      assert calls + Repeat(c, limit) == before + FullWindows(limit, ttl, start, n);
    }
  }

  // For every limit, ttl and span some run reaches the bound of AtMost: calls with a longer ttl keep an
  // old window open until full windows follow.
  lemma AtMostReached(limit: u32, ttl: nat, span: nat) returns (calls: seq<Call>, from: nat)
    requires limit > 0 && ttl > 0
    ensures Monotone(calls) && Bounded(calls, "k", limit, ttl)
    ensures AllowedWithin(calls, "k", from, from + span) == limit * (span / ttl + 2) - 1
  {
    hide Run, AllowedWithin, Monotone, Bounded;
    from := ttl;
    var to := from + span;
    var first, longer := Call("k", limit, ttl, 0), Call("k", limit, ttl + 1, ttl);
    NoRunYet();
    NothingYet(from, to);
    NothingBounded(limit, ttl);
    OpenBurst([], first, 1, from, to);
    MonotoneAppend([], first, 1);
    BoundedAppend([], first, 1, "k", limit, ttl);
    var begun := [] + Repeat(first, 1);
    Burst(begun, longer, limit - 1, 0, 1, from, to);
    MonotoneAppend(begun, longer, limit - 1);
    BoundedAppend(begun, longer, limit - 1, "k", limit, ttl);
    var held := begun + Repeat(longer, limit - 1);
    assert LastNow(held) <= ttl by {
      if limit == 1 {
        assert held == begun;
      }
    }
    var n := span / ttl + 1;
    assert (n - 1) * ttl <= span by { assert span == (span / ttl) * ttl + span % ttl; }
    FullWindowsCount(held, limit, ttl, ttl, n, from, to);
    calls := held + FullWindows(limit, ttl, ttl, n);
    assert limit * (span / ttl + 2) == limit * n + limit;
  }

  lemma NothingBounded(limit: nat, ttl: nat)
    ensures Monotone([]) && Bounded([], "k", limit, ttl)
  {
  }

  // ----- With one ttl for all calls of the key, the windows fit the interval less well.

  // Number of steps of length d that it takes to cover x.
  function Ceiling(x: nat, d: nat): nat
    requires d > 0
  {
    (x + d - 1) / d
  }

  lemma CeilingStep(x: nat, y: nat, d: nat)
    requires d > 0 && x + d <= y
    ensures Ceiling(y, d) >= Ceiling(x, d) + 1
  {
    NextQuotient(x + d - 1, y + d - 1, 0, d);
  }

  lemma CeilingMono(x: nat, y: nat, d: nat)
    requires d > 0 && x <= y
    ensures Ceiling(x, d) <= Ceiling(y, d)
    ensures x > 0 ==> Ceiling(x, d) >= 1
    ensures Ceiling(0, d) == 0
  {
    DivMono(x + d - 1, y + d - 1, d);
    if x > 0 {
      MulDiv(x + d - 1, 1, d);
    }
    NoCeiling(d);
  }

  lemma MulGrows(a: nat, b: nat, d: nat)
    ensures a <= b ==> a * d <= b * d
  {
    if a <= b {
      MulMono(a, b, d);
    }
  }

  lemma NoCeiling(d: nat)
    requires d > 0
    ensures (d - 1) / d == 0
  {
    assert d - 1 == ((d - 1) / d) * d + (d - 1) % d;
    MulGrows(1, (d - 1) / d, d);
  }

  ghost predicate FixedInvariant(w: Option<WindowState>, allowed: nat, from: nat, limit: nat, ttl: nat)
    requires ttl > 0
  {
    match w
    case None => allowed == 0
    case Some(WindowState(s, c)) =>
      && 1 <= c <= limit
      && (s < from ==> allowed < c && (s + ttl <= from ==> allowed == 0))
      && (s >= from ==> allowed <= c + limit * Ceiling(s - from, ttl))
  }

  lemma FixedStep(w: Option<WindowState>, c: Call, allowed: nat, from: nat)
    requires c.ttl > 0 && c.limit > 0 && FixedInvariant(w, allowed, from, c.limit, c.ttl)
    requires w.Some? ==> w.value.startedAt <= c.now
    requires c.now < from ==> allowed == 0
    ensures var (w', ok) := WindowAllow(w, c);
            && (w'.Some? ==> w'.value.startedAt <= c.now)
            && FixedInvariant(w', allowed + (if ok && from <= c.now then 1 else 0), from, c.limit, c.ttl)
  {
    hide Ceiling;
    if c.now >= from {
      var x := c.now - from;
      CeilingMono(0, x, c.ttl);
      CeilingMono(x, x, c.ttl);
      MulMono(0, Ceiling(x, c.ttl), c.limit);
      if x > 0 {
        MulMono(1, Ceiling(x, c.ttl), c.limit);
      }
      if w.Some? && w.value.startedAt >= from && c.now - w.value.startedAt >= c.ttl {
        var y := w.value.startedAt - from;
        CeilingStep(y, x, c.ttl);
        MulMono(Ceiling(y, c.ttl) + 1, Ceiling(x, c.ttl), c.limit);
        assert c.limit * (Ceiling(y, c.ttl) + 1) == c.limit * Ceiling(y, c.ttl) + c.limit;
      }
    }
  }

  lemma {:induction false} FixedKeeps(calls: seq<Call>, key: string, from: nat, limit: nat, ttl: nat, to: nat)
    requires Monotone(calls) && Fixed(calls, key, limit, ttl) && ttl > 0 && limit > 0
    requires forall i :: 0 <= i < |calls| ==> calls[i].now <= to
    ensures var w := Window(Counted(calls), key);
            && (w.Some? ==> calls != [] && w.value.startedAt <= calls[|calls| - 1].now)
            && FixedInvariant(w, AllowedWithin(calls, key, from, to), from, limit, ttl)
    decreases |calls|
  {
    hide Run, FixedInvariant, AllowedWithin, Decisions;
    if calls == [] {
      NothingFixed(key, from, limit, ttl, to);
    } else {
      var n := |calls| - 1;
      var front, c := calls[..n], calls[n];
      FixedKeeps(front, key, from, limit, ttl, to);
      RunSplits(calls);
      DecisionsCount(front);
      FrontSplits(calls, key, from, to);
      if c.key == key {
        if c.now < from {
          assert forall i :: 0 <= i < n ==> front[i].now == calls[i].now <= c.now;
          NothingBefore(front, key, from, to);
        }
        FixedStep(Window(Counted(front), key), c, AllowedWithin(front, key, from, to), from);
      }
    }
  }

  lemma NothingFixed(key: string, from: nat, limit: nat, ttl: nat, to: nat)
    requires ttl > 0
    ensures Window(Counted([]), key) == None && AllowedWithin([], key, from, to) == 0
        && FixedInvariant(None, 0, from, limit, ttl)
  {
  }

  // The most that an interval of this length takes, with one limit and one ttl for all calls.
  function MostFixed(limit: nat, ttl: nat, span: nat): int
    requires ttl > 0
  {
    if span % ttl == 0 then limit * (span / ttl + 1) else limit * (span / ttl + 2) - 1
  }

  lemma AtMostFixed(calls: seq<Call>, key: string, limit: nat, ttl: nat, from: nat, span: nat)
    requires Monotone(calls) && Fixed(calls, key, limit, ttl) && ttl > 0 && limit > 0
    ensures AllowedWithin(calls, key, from, from + span) <= MostFixed(limit, ttl, span)
  {
    hide Run, AllowedWithin, Ceiling, FixedInvariant;
    if span % ttl == 0 {
      var to := from + span;
      var n := OnlyUntil(calls, key, from, to);
      var front := calls[..n];
      FixedKeeps(front, key, from, limit, ttl, to);
      FixedBound(Window(Counted(front), key), AllowedWithin(front, key, from, to), from, limit, ttl, span);
      CeilingExact(span / ttl, ttl);
      assert span == (span / ttl) * ttl + span % ttl;
    } else {
      AtMost(calls, key, limit, ttl, from, span);
    }
  }

  lemma CeilingExact(q: nat, d: nat)
    requires d > 0
    ensures Ceiling(q * d, d) == q
  {
    var x := q * d + d - 1;
    MulDiv(x, q, d);
    assert x == (x / d) * d + x % d;
    assert (q + 1) * d == q * d + d;
    MulGrows(q + 1, x / d, d);
  }

  lemma FixedBound(w: Option<WindowState>, allowed: nat, from: nat, limit: nat, ttl: nat, span: nat)
    requires ttl > 0 && FixedInvariant(w, allowed, from, limit, ttl)
    requires w.Some? ==> w.value.startedAt <= from + span
    ensures allowed <= limit * (Ceiling(span, ttl) + 1)
  {
    hide Ceiling;
    assert limit * (Ceiling(span, ttl) + 1) == limit * Ceiling(span, ttl) + limit;
    MulMono(0, Ceiling(span, ttl), limit);
    if w.Some? && w.value.startedAt >= from {
      CeilingMono(w.value.startedAt - from, span, ttl);
      MulMono(Ceiling(w.value.startedAt - from, ttl), Ceiling(span, ttl), limit);
    }
  }

  lemma {:induction false} FullWindowsFixed(limit: u32, ttl: nat, start: nat, n: nat)
    ensures Fixed(FullWindows(limit, ttl, start, n), "k", limit, ttl)
    decreases n
  {
    if n > 0 {
      FullWindowsFixed(limit, ttl, start, n - 1);
    }
  }

  lemma FixedAppend(calls: seq<Call>, more: seq<Call>, limit: nat, ttl: nat)
    requires Fixed(calls, "k", limit, ttl) && Fixed(more, "k", limit, ttl)
    ensures Fixed(calls + more, "k", limit, ttl)
  {
    var all := calls + more;
    assert forall i :: 0 <= i < |all| ==> all[i] == if i < |calls| then calls[i] else more[i - |calls|];
  }

  // And that many it does take, for every length: full windows that follow each other at once, and, if the
  // ttl leaves a tick over, the rest of a window that began one tick before they could.
  lemma AtMostFixedReached(limit: u32, ttl: nat, span: nat) returns (calls: seq<Call>, from: nat)
    requires limit > 0 && ttl > 0
    ensures Monotone(calls) && Fixed(calls, "k", limit, ttl)
    ensures AllowedWithin(calls, "k", from, from + span) == MostFixed(limit, ttl, span)
  {
    hide Run, AllowedWithin, Monotone, Bounded, Fixed, FullWindows;
    var n := span / ttl + 1;
    assert span == (n - 1) * ttl + span % ttl;
    NoRunYet();
    NothingBounded(limit, ttl);
    if span % ttl == 0 {
      from := 0;
      NothingYet(0, span);
      FullWindowsCount([], limit, ttl, 0, n, 0, span);
      FullWindowsFixed(limit, ttl, 0, n);
      calls := FullWindows(limit, ttl, 0, n);
      assert [] + calls == calls;
    } else {
      from := ttl;
      var held := HeldWindow(limit, ttl, from + span);
      FullWindowsCount(held, limit, ttl, ttl + 1, n, from, from + span);
      FullWindowsFixed(limit, ttl, ttl + 1, n);
      calls := held + FullWindows(limit, ttl, ttl + 1, n);
      FixedAppend(held, FullWindows(limit, ttl, ttl + 1, n), limit, ttl);
      assert limit * (span / ttl + 2) == limit * n + limit;
    }
  }

  // A window that opens at tick 1 and is filled up at its last tick.
  lemma HeldWindow(limit: u32, ttl: nat, to: nat) returns (held: seq<Call>)
    requires limit > 0 && 1 < ttl <= to
    ensures Monotone(held) && Fixed(held, "k", limit, ttl) && Bounded(held, "k", limit, ttl) && LastNow(held) <= ttl
    ensures AllowedWithin(held, "k", ttl, to) == limit - 1 && WindowOver(held, ttl, ttl + 1)
  {
    hide Run, AllowedWithin, Monotone, Bounded;
    var first, late := Call("k", limit, ttl, 1), Call("k", limit, ttl, ttl);
    NoRunYet();
    NothingYet(ttl, to);
    NothingBounded(limit, ttl);
    OpenBurst([], first, 1, ttl, to);
    MonotoneAppend([], first, 1);
    BoundedAppend([], first, 1, "k", limit, ttl);
    var begun := [] + Repeat(first, 1);
    Burst(begun, late, limit - 1, 1, 1, ttl, to);
    MonotoneAppend(begun, late, limit - 1);
    BoundedAppend(begun, late, limit - 1, "k", limit, ttl);
    held := begun + Repeat(late, limit - 1);
    if limit == 1 {
      assert held == begun;
    }
  }
}
