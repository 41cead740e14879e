/** How many requests a throttled key lets through, over whole runs with a clock that never goes back. */
module ThrottlerLaws {
  import opened Results
  import opened Throttler

  predicate Monotone(calls: seq<Call>) {
    forall i, j :: 0 <= i < j < |calls| ==> calls[i].now <= calls[j].now
  }

  function Decisions(calls: seq<Call>): seq<bool> {
    Run(map[], calls).1
  }

  function Counted(calls: seq<Call>): Counters {
    Run(map[], calls).0
  }

  // Requests for the key let through at times from..to.
  function AllowedWithin(calls: seq<Call>, key: string, from: nat, to: nat): nat
    decreases |calls|
  {
    if calls == [] then 0
    else
      var n := |calls| - 1;
      var c := calls[n];
      AllowedWithin(calls[..n], key, from, to)
      + (if Decisions(calls)[n] && c.key == key && from <= c.now <= to then 1 else 0)
  }

  // Every call for the key asks for at most `limit` requests per window of at least `ttl`.
  predicate Bounded(calls: seq<Call>, key: string, limit: nat, ttl: nat) {
    forall i :: 0 <= i < |calls| && calls[i].key == key ==> calls[i].limit <= limit && calls[i].ttl >= ttl
  }

  lemma RunSplits(calls: seq<Call>)
    requires calls != []
    ensures var n := |calls| - 1;
            var (after, ok) := Step(Counted(calls[..n]), calls[n]);
            && Counted(calls) == after
            && Decisions(calls) == Decisions(calls[..n]) + [ok]
  {
  }

  lemma {:induction false} NothingBefore(calls: seq<Call>, key: string, from: nat, to: nat)
    requires forall i :: 0 <= i < |calls| ==> calls[i].now < from
    ensures AllowedWithin(calls, key, from, to) == 0
    decreases |calls|
  {
    if calls != [] {
      NothingBefore(calls[..|calls| - 1], key, from, to);
    }
  }

  // What the key's window knows about the requests let through since time `from`. Windows open at
  // least `ttl` apart, each lets at most `limit` through, and the first of them is its opening call.
  ghost predicate WindowInvariant(w: Option<WindowState>, allowed: nat, from: nat, limit: nat, ttl: nat)
    requires ttl > 0
  {
    match w
    case None => allowed == 0
    case Some(WindowState(s, c)) =>
      && 1 <= c <= limit
      && (s < from ==> allowed < c)
      && (s >= from ==> allowed < c + limit * ((s - from) / ttl + 1))
  }

  lemma NextQuotient(s: nat, s': nat, from: nat, ttl: nat)
    requires ttl > 0 && from <= s && s + ttl <= s'
    ensures (s' - from) / ttl >= (s - from) / ttl + 1
  {
    var q := (s - from) / ttl;
    assert (s - from) >= q * ttl;
    assert (s' - from) >= (q + 1) * ttl;
    MulDiv(s' - from, q + 1, ttl);
  }

  lemma MulDiv(x: nat, k: nat, d: nat)
    requires d > 0 && x >= k * d
    ensures x / d >= k
  {
    if x / d < k {
      var q := x / d;
      assert x == q * d + x % d;
      assert (q + 1) * d <= k * d by { MulMono(q + 1, k, d); }
      assert false;
    }
  }

  lemma MulMono(a: nat, b: nat, d: nat)
    requires a <= b
    ensures a * d <= b * d && d * a <= d * b
  {
  }

  // A new window opened by an allowed call keeps the count in bounds.
  lemma OpensWindow(old_: WindowState, allowed: nat, now: nat, from: nat, limit: nat, ttl: nat)
    requires ttl > 0 && limit >= 1 && now >= old_.startedAt + ttl && now >= from
    requires WindowInvariant(Some(old_), allowed, from, limit, ttl)
    ensures allowed + 1 < 1 + limit * ((now - from) / ttl + 1)
  {
    var q' := (now - from) / ttl;
    if old_.startedAt < from {
      MulMono(1, q' + 1, limit);
    } else {
      var q := (old_.startedAt - from) / ttl;
      NextQuotient(old_.startedAt, now, from, ttl);
      assert limit * (q + 2) == limit * (q + 1) + limit;
      MulMono(q + 2, q' + 1, limit);
    }
  }

  lemma {:induction false} WindowKeepsCount(calls: seq<Call>, key: string, from: nat, limit: nat, ttl: nat)
    requires Monotone(calls) && Bounded(calls, key, limit, ttl) && ttl > 0
    ensures var w := Window(Counted(calls), key);
            && (w.Some? ==> calls != [] && w.value.startedAt <= calls[|calls| - 1].now)
            && forall to :: (forall i :: 0 <= i < |calls| ==> calls[i].now <= to) ==>
                 WindowInvariant(w, AllowedWithin(calls, key, from, to), from, limit, ttl)
    decreases |calls|
  {
    if calls != [] {
      var n := |calls| - 1;
      var front, c := calls[..n], calls[n];
      WindowKeepsCount(front, key, from, limit, ttl);
      RunSplits(calls);
      forall to | forall i :: 0 <= i < |calls| ==> calls[i].now <= to
        ensures WindowInvariant(Window(Counted(calls), key), AllowedWithin(calls, key, from, to), from, limit, ttl)
      {
        assert forall i :: 0 <= i < |front| ==> front[i].now == calls[i].now;
        if c.key == key {
          if c.now < from {
            NothingBefore(front, key, from, to);
          }
          WindowStep(Window(Counted(front), key), c, AllowedWithin(front, key, from, to), from, limit, ttl);
        }
      }
    }
  }

  lemma StaysOpen(w: WindowState, allowed: nat, from: nat, limit: nat, ttl: nat, more: nat)
    requires ttl > 0 && WindowInvariant(Some(w), allowed, from, limit, ttl) && more <= 1 && w.count + 1 <= limit
    requires w.count + 1 < U32
    ensures WindowInvariant(Some(w.(count := w.count + 1)), allowed + more, from, limit, ttl)
  {
  }

  lemma OpensFirst(now: nat, from: nat, limit: nat, ttl: nat)
    requires ttl > 0 && limit >= 1
    ensures WindowInvariant(Some(WindowState(now, 1)), if from <= now then 1 else 0, from, limit, ttl)
  {
    MulMono(1, (if now >= from then (now - from) / ttl else 0) + 1, limit);
  }

  lemma WindowStep(w: Option<WindowState>, c: Call, allowed: nat, from: nat, limit: nat, ttl: nat)
    requires ttl > 0 && c.limit <= limit && c.ttl >= ttl
    requires w.Some? ==> w.value.startedAt <= c.now
    requires WindowInvariant(w, allowed, from, limit, ttl)
    requires c.now < from ==> allowed == 0
    ensures var (w', ok) := WindowAllow(w, c);
            && (w'.Some? ==> w'.value.startedAt <= c.now)
            && WindowInvariant(w', allowed + (if ok && from <= c.now then 1 else 0), from, limit, ttl)
  {
    if c.limit > 0 && c.ttl > 0 {
      if w.None? {
        OpensFirst(c.now, from, limit, ttl);
      } else if c.now - w.value.startedAt >= c.ttl {
        if c.now >= from {
          OpensWindow(w.value, allowed, c.now, from, limit, ttl);
        }
        assert WindowAllow(w, c) == (Some(WindowState(c.now, 1)), true);
      } else if w.value.count < c.limit {
        StaysOpen(w.value, allowed, from, limit, ttl, if from <= c.now then 1 else 0);
      }
    }
  }

  // ----- The bound.

  lemma {:induction false} OnlyUntil(calls: seq<Call>, key: string, from: nat, to: nat) returns (n: nat)
    requires Monotone(calls)
    ensures n <= |calls| && (forall i :: 0 <= i < n ==> calls[i].now <= to)
    ensures AllowedWithin(calls, key, from, to) == AllowedWithin(calls[..n], key, from, to)
    decreases |calls|
  {
    if calls == [] || calls[|calls| - 1].now <= to {
      n := |calls|;
      assert calls[..n] == calls;
    } else {
      var front := calls[..|calls| - 1];
      n := OnlyUntil(front, key, from, to);
      assert front[..n] == calls[..n];
    }
  }

  // In any closed interval of length `span`, a key lets through fewer than limit * (span / ttl + 2) requests.
  lemma AtMost(calls: seq<Call>, key: string, limit: nat, ttl: nat, from: nat, span: nat)
    requires Monotone(calls) && Bounded(calls, key, limit, ttl) && ttl > 0
    ensures AllowedWithin(calls, key, from, from + span) <= limit * (span / ttl + 2)
    ensures limit > 0 ==> AllowedWithin(calls, key, from, from + span) < limit * (span / ttl + 2)
  {
    hide Window, WindowInvariant, AllowedWithin;
    var to := from + span;
    var n := OnlyUntil(calls, key, from, to);
    var front := calls[..n];
    WindowKeepsCount(front, key, from, limit, ttl);
    InvariantBounds(Window(Counted(front), key), AllowedWithin(front, key, from, to), limit, ttl, from, span);
  }

  lemma InvariantBounds(w: Option<WindowState>, allowed: nat, limit: nat, ttl: nat, from: nat, span: nat)
    requires ttl > 0 && WindowInvariant(w, allowed, from, limit, ttl)
    requires w.Some? ==> w.value.startedAt <= from + span
    ensures allowed <= limit * (span / ttl + 2)
    ensures limit > 0 ==> allowed < limit * (span / ttl + 2)
  {
    assert limit * (span / ttl + 2) == limit * (span / ttl + 1) + limit;
    MulMono(0, span / ttl + 1, limit);
    if w.Some? && w.value.startedAt >= from {
      var s := w.value.startedAt;
      DivMono(s - from, span, ttl);
      MulMono((s - from) / ttl + 1, span / ttl + 1, limit);
    }
  }

  lemma DivMono(x: nat, y: nat, d: nat)
    requires d > 0 && x <= y
    ensures x / d <= y / d
  {
    assert x == (x / d) * d + x % d;
    MulDiv(y, x / d, d);
  }

  // ----- Calls for other keys never matter.

  function OnlyKey(calls: seq<Call>, key: string): seq<Call>
    decreases |calls|
  {
    if calls == [] then []
    else
      var n := |calls| - 1;
      OnlyKey(calls[..n], key) + (if calls[n].key == key then [calls[n]] else [])
  }

  // The decisions taken for one key, in order.
  function DecisionsFor(calls: seq<Call>, key: string): seq<bool>
    decreases |calls|
  {
    if calls == [] then []
    else
      var n := |calls| - 1;
      DecisionsFor(calls[..n], key) + (if calls[n].key == key then [Decisions(calls)[n]] else [])
  }

  lemma {:induction false} OtherKeysDoNotMatter(calls: seq<Call>, key: string)
    ensures DecisionsFor(calls, key) == Decisions(OnlyKey(calls, key))
    ensures Window(Counted(calls), key) == Window(Counted(OnlyKey(calls, key)), key)
    decreases |calls|
  {
    if calls != [] {
      var n := |calls| - 1;
      OtherKeysDoNotMatter(calls[..n], key);
      RunSplits(calls);
      if calls[n].key == key {
        var own := OnlyKey(calls, key);
        assert own[..|own| - 1] == OnlyKey(calls[..n], key);
        RunSplits(own);
      } else {
        assert OnlyKey(calls, key) == OnlyKey(calls[..n], key);
      }
    }
  }

  // ----- A specification by history: only the times at which the key was let through.

  // Index of the first let-through request of the window the last one belongs to.
  function Opening(times: seq<nat>, ttl: nat): (i: nat)
    requires times != []
    ensures i < |times|
    decreases |times|
  {
    var n := |times| - 1;
    if n == 0 then 0
    else
      var i := Opening(times[..n], ttl);
      if DurationSince(times[n], times[i]) >= ttl then n else i
  }

  // The request is let through when no window is open any more, or the open one has room.
  predicate HistoryAllows(times: seq<nat>, limit: nat, ttl: nat, now: nat) {
    || times == []
    || DurationSince(now, times[Opening(times, ttl)]) >= ttl
    || |times| - Opening(times, ttl) < limit
  }

  // Times at which the calls for `key` were let through.
  function AllowedTimes(calls: seq<Call>, key: string): seq<nat>
    decreases |calls|
  {
    if calls == [] then []
    else
      var n := |calls| - 1;
      AllowedTimes(calls[..n], key) + (if calls[n].key == key && Decisions(calls)[n] then [calls[n].now] else [])
  }

  predicate Fixed(calls: seq<Call>, key: string, limit: nat, ttl: nat) {
    forall i :: 0 <= i < |calls| && calls[i].key == key ==> calls[i].limit == limit && calls[i].ttl == ttl
  }

  function HistoryWindow(times: seq<nat>, ttl: nat): Option<(nat, nat)> {
    if times == [] then None
    else
      var i := Opening(times, ttl);
      Some((times[i], |times| - i))
  }

  // The stored window is the one the history determines.
  predicate Agrees(w: Option<WindowState>, times: seq<nat>, ttl: nat) {
    match w
    case None => times == []
    case Some(WindowState(s, c)) => HistoryWindow(times, ttl) == Some((s, c))
  }

  lemma OpeningSnoc(times: seq<nat>, now: nat, ttl: nat)
    requires times != []
    ensures var i := Opening(times, ttl);
            Opening(times + [now], ttl) == if DurationSince(now, times[i]) >= ttl then |times| else i
  {
    assert (times + [now])[..|times|] == times;
  }

  lemma HistoryStep(w: Option<WindowState>, times: seq<nat>, c: Call)
    requires c.limit > 0 && c.ttl > 0 && Agrees(w, times, c.ttl)
    requires w.Some? ==> 1 <= w.value.count <= c.limit
    ensures var (w', ok) := WindowAllow(w, c);
            && ok == HistoryAllows(times, c.limit, c.ttl, c.now)
            && Agrees(w', if ok then times + [c.now] else times, c.ttl)
            && (w'.Some? ==> 1 <= w'.value.count <= c.limit)
  {
    if times != [] {
      OpeningSnoc(times, c.now, c.ttl);
    }
  }

  // The counters refine the history: every window, and with it every decision, is what the let-through
  // times alone determine.
  lemma {:induction false} CountersRefineHistory(calls: seq<Call>, key: string, limit: u32, ttl: nat)
    requires Fixed(calls, key, limit, ttl) && limit > 0 && ttl > 0
    ensures Agrees(Window(Counted(calls), key), AllowedTimes(calls, key), ttl)
    ensures var w := Window(Counted(calls), key); w.Some? ==> 1 <= w.value.count <= limit
    ensures calls != [] && calls[|calls| - 1].key == key ==>
              var n := |calls| - 1;
              Decisions(calls)[n] == HistoryAllows(AllowedTimes(calls[..n], key), limit, ttl, calls[n].now)
    decreases |calls|
  {
    hide Opening, Agrees, HistoryAllows, Run;
    if calls == [] {
      NoCalls(key, ttl);
    } else {
      var n := |calls| - 1;
      CountersRefineHistory(calls[..n], key, limit, ttl);
      RunSplits(calls);
      if calls[n].key == key {
        HistoryStep(Window(Counted(calls[..n]), key), AllowedTimes(calls[..n], key), calls[n]);
      }
      var before := AllowedTimes(calls[..n], key);
      assert before + [] == before;
    }
  }

  lemma NoCalls(key: string, ttl: nat)
    ensures Window(Counted([]), key) == None && AllowedTimes([], key) == [] && Agrees(None, [], ttl)
  {
  }

  // ----- A denial means the limit was used up during the preceding ttl.

  predicate Sorted(times: seq<nat>, to: nat) {
    && (forall i, j :: 0 <= i < j < |times| ==> times[i] <= times[j])
    && (forall i :: 0 <= i < |times| ==> times[i] <= to)
  }

  lemma FrontSplits(calls: seq<Call>, key: string, from: nat, to: nat)
    requires calls != []
    ensures var n := |calls| - 1;
            var front, c := calls[..n], calls[n];
            var passed := c.key == key && Decisions(calls)[n];
            && AllowedTimes(calls, key) == (if passed then AllowedTimes(front, key) + [c.now]
                else AllowedTimes(front, key))
            && AllowedWithin(calls, key, from, to)
               == AllowedWithin(front, key, from, to) + (if passed && from <= c.now <= to then 1 else 0)
  {
    hide Decisions;
    assert AllowedTimes(calls[..|calls| - 1], key) + [] == AllowedTimes(calls[..|calls| - 1], key);
  }

  lemma {:induction false} TimesCounted(calls: seq<Call>, key: string, from: nat, to: nat)
    requires Monotone(calls) && forall i :: 0 <= i < |calls| ==> calls[i].now <= to
    ensures var times := AllowedTimes(calls, key);
            && (forall bound :: (forall i :: 0 <= i < |calls| ==> calls[i].now <= bound) ==> Sorted(times, bound))
            && forall k :: 0 <= k < |times| && from <= times[k] ==> AllowedWithin(calls, key, from, to) >= |times| - k
    decreases |calls|
  {
    hide AllowedTimes, AllowedWithin, Decisions;
    if calls == [] {
      NoCalls(key, 1);
    } else {
      var n := |calls| - 1;
      var front := calls[..n];
      assert forall i :: 0 <= i < n ==> front[i].now == calls[i].now <= calls[n].now;
      TimesCounted(front, key, from, to);
      FrontSplits(calls, key, from, to);
      var times, before := AllowedTimes(calls, key), AllowedTimes(front, key);
      assert Sorted(before, calls[n].now);
      forall k | 0 <= k < |times| && from <= times[k]
        ensures AllowedWithin(calls, key, from, to) >= |times| - k
      {
        if k < |before| {
          assert times[k] == before[k] <= calls[n].now;
        }
      }
    }
  }

  lemma DeniedOnlyWhenUsedUp(calls: seq<Call>, key: string, limit: u32, ttl: nat)
    requires Monotone(calls) && Fixed(calls, key, limit, ttl) && limit > 0 && ttl > 0
    requires calls != [] && calls[|calls| - 1].key == key && !Decisions(calls)[|calls| - 1]
    ensures var n := |calls| - 1;
            var now := calls[n].now;
            var since := if now >= ttl then now - ttl + 1 else 0;
            AllowedWithin(calls[..n], key, since, now) >= limit
  {
    hide Run, AllowedWithin, AllowedTimes;
    var n := |calls| - 1;
    var now := calls[n].now;
    var since := if now >= ttl then now - ttl + 1 else 0;
    CountersRefineHistory(calls, key, limit, ttl);
    assert forall i :: 0 <= i < n ==> calls[..n][i].now == calls[i].now <= now;
    TimesCounted(calls[..n], key, since, now);
    var times := AllowedTimes(calls[..n], key);
    assert times[Opening(times, ttl)] >= since;
  }

  // The converse fails: windows are fixed, so a request can pass right after a window turned over.
  // Two of at most two requests per ten ticks pass at 9 and 10, and a third one passes at 11.
  const TURNOVER := [Call("k", 2, 10, 0), Call("k", 2, 10, 9), Call("k", 2, 10, 10), Call("k", 2, 10, 11)]

  lemma NoRun()
    ensures Run(map[], []) == (map[], []) && AllowedWithin([], "k", 2, 11) == 0
  {
  }

  lemma NotASlidingWindow()
    ensures Monotone(TURNOVER) && Fixed(TURNOVER, "k", 2, 10)
    ensures Decisions(TURNOVER)[3]
    ensures AllowedWithin(TURNOVER[..3], "k", 11 - 10 + 1, 11) == 2
  {
    hide Run, AllowedTimes;
    NoRun();
    var a, b, c, d := TURNOVER[0], TURNOVER[1], TURNOVER[2], TURNOVER[3];
    assert TURNOVER[..3] == [a, b, c] && [a, b, c][..2] == [a, b] && [a, b][..1] == [a] && [a][..0] == [];
    RunSplits([a]);
    RunSplits([a, b]);
    RunSplits([a, b, c]);
    RunSplits(TURNOVER);
    FrontSplits([a, b, c], "k", 2, 11);
    FrontSplits([a, b], "k", 2, 11);
    FrontSplits([a], "k", 2, 11);
  }
}
