/** What the throttling guard makes of a route's overrides, and of a whole run of requests. */
module ThrottlerGuarding {
  import opened Results
  import opened Throttler

  // ----- One request.

  // The window a key holds at this time, if it has one that is not over.
  predicate IsOpen(m: Counters, key: string, ttl: nat, now: nat) {
    key in m && (now < m[key].startedAt || now - m[key].startedAt < ttl)
  }

  // A request with a limit and a ttl in force: a new window lets it through as its first, an open one as
  // long as fewer than the limit went before. Other keys are left alone.
  ghost predicate Counted(key: string, limit: nat, ttl: nat, now: nat, m: Counters, after: Counters, allowed: bool) {
    if limit == 0 || ttl == 0 then !allowed && after == m
    else if IsOpen(m, key, ttl, now) then
      && (allowed <==> m[key].count < limit)
      && key in after && after[key].startedAt == m[key].startedAt
      && after[key].count == m[key].count + (if allowed then 1 else 0)
      && after - {key} == m - {key}
    else
      && allowed
      && key in after && after[key].startedAt == now && after[key].count == 1
      && after - {key} == m - {key}
  }

  // A guard without a limit or a ttl of its own denies everything. Otherwise a skipped route is let through
  // and not counted, and an override takes the place of the guard's own value, cut to 32 bits if a limit.
  ghost predicate Decides(g: ThrottlerGuard, o: Overrides, key: string, now: nat, m: Counters, after: Counters,
      allowed: bool)
  {
    if g.limit == 0 || g.ttl == 0 then !allowed && after == m
    else if o.skip then allowed && after == m
    else
      Counted(key, if o.limit == None then g.limit else o.limit.value % 4294967296,
              if o.ttlSecs == None then g.ttl else o.ttlSecs.value * g.ticksPerSecond, now, m, after, allowed)
  }

  ghost predicate Follows(g: ThrottlerGuard, o: Overrides, key: string, now: nat, m: Counters, after: Counters,
      allowed: bool)
  {
    match g.CallFor(o, key, now)
    case Err(decision) => allowed == decision && after == m
    case Ok(c) => (after, allowed) == Step(m, c)
  }

  lemma SameButFor(m: Counters, after: Counters, key: string)
    requires key in after && after - {key} == m - {key}
    ensures after == m[key := after[key]]
  {
    forall k | k != key ensures (k in after <==> k in m) && (k in m ==> after[k] == m[k]) {
      assert (k in after <==> k in after - {key}) && (k in m <==> k in m - {key});
      assert k in m ==> m[k] == (m - {key})[k] && after[k] == (after - {key})[k];
    }
  }

  lemma CountedExactly(c: Call, m: Counters, after: Counters, allowed: bool)
    ensures (after, allowed) == Step(m, c) <==> Counted(c.key, c.limit, c.ttl, c.now, m, after, allowed)
  {
    var (w, ok) := WindowAllow(Window(m, c.key), c);
    var result := WithWindow(m, c.key, w);
    assert c.key !in m ==> m - {c.key} == m;
    assert c.key in m ==> m[c.key := m[c.key]] == m;
    if c.limit > 0 && c.ttl > 0 {
      assert w.Some? && result == m[c.key := w.value];
      assert result - {c.key} == m - {c.key};
      if c.key in after && after - {c.key} == m - {c.key} {
        SameButFor(m, after, c.key);
      }
    }
  }

  // The guard's decision and the counters after it are these and no others.
  lemma GuardExactly(g: ThrottlerGuard, o: Overrides, key: string, now: nat, m: Counters, after: Counters,
      allowed: bool)
    ensures Follows(g, o, key, now, m, after, allowed) <==> Decides(g, o, key, now, m, after, allowed)
  {
    hide Counted, Step;
    match g.CallFor(o, key, now) {
      case Err(_) =>
      case Ok(c) => CountedExactly(c, m, after, allowed);
    }
  }

  // ----- A run of requests.

  datatype Visit = Visit(overrides: Overrides, key: string, now: nat)

  ghost function Guarded(g: ThrottlerGuard, m: Counters, v: Visit): (r: (Counters, bool))
    ensures Follows(g, v.overrides, v.key, v.now, m, r.0, r.1)
  {
    match g.CallFor(v.overrides, v.key, v.now)
    case Err(decision) => (m, decision)
    case Ok(c) => Step(m, c)
  }

  ghost function GuardedRun(g: ThrottlerGuard, m: Counters, visits: seq<Visit>): (r: (Counters, seq<bool>))
    ensures |r.1| == |visits|
    decreases |visits|
  {
    if visits == [] then (m, [])
    else
      var n := |visits| - 1;
      var before := GuardedRun(g, m, visits[..n]);
      var (after, ok) := Guarded(g, before.0, visits[n]);
      (after, before.1 + [ok])
  }

  // The visits of routes that are not skipped, as calls of the store.
  function Calls(g: ThrottlerGuard, visits: seq<Visit>): seq<Call> {
    if visits == [] then []
    else
      var n := |visits| - 1;
      var v := visits[n];
      Calls(g, visits[..n]) +
      (if v.overrides.skip then []
       else
         [Call(v.key, if v.overrides.limit.None? then g.limit else v.overrides.limit.value % U32,
               if v.overrides.ttlSecs.None? then g.ttl else v.overrides.ttlSecs.value * g.ticksPerSecond, v.now)])
  }

  // The decisions on those visits.
  function Counting(visits: seq<Visit>, decisions: seq<bool>): seq<bool>
    requires |visits| == |decisions|
  {
    if visits == [] then []
    else
      var n := |visits| - 1;
      Counting(visits[..n], decisions[..n]) + (if visits[n].overrides.skip then [] else [decisions[n]])
  }

  lemma RunSnoc(m: Counters, calls: seq<Call>, c: Call)
    ensures var before := Run(m, calls);
            var (after, ok) := Step(before.0, c);
            Run(m, calls + [c]) == (after, before.1 + [ok])
  {
    hide Step;
    assert (calls + [c])[..|calls + [c]| - 1] == calls;
  }

  // With a limit and a ttl the guard lets every skipped route through, and decides on the others as the store
  // does on a run of their calls alone: skipping takes nothing from anyone's limit.
  lemma {:induction false} SkippedDoNotCount(g: ThrottlerGuard, m: Counters, visits: seq<Visit>)
    requires g.limit > 0 && g.ttl > 0
    ensures var r := GuardedRun(g, m, visits);
            && (r.0, Counting(visits, r.1)) == Run(m, Calls(g, visits))
            && forall i :: 0 <= i < |visits| && visits[i].overrides.skip ==> r.1[i]
    decreases |visits|
  {
    hide Step, Run, Counting;
    if visits == [] {
      NothingRun(m);
    } else {
      var n := |visits| - 1;
      SkippedDoNotCount(g, m, visits[..n]);
      var before, r := GuardedRun(g, m, visits[..n]), GuardedRun(g, m, visits);
      var (after, ok) := Guarded(g, before.0, visits[n]);
      assert r == (after, before.1 + [ok]);
      hide GuardedRun;
      CountingSnoc(visits, before.1, ok);
      var earlier := Calls(g, visits[..n]);
      if visits[n].overrides.skip {
        assert after == before.0 && ok;
        assert Calls(g, visits) == earlier + [] == earlier;
        assert Counting(visits[..n], before.1) + [] == Counting(visits[..n], before.1);
      } else {
        var c := g.CallFor(visits[n].overrides, visits[n].key, visits[n].now).value;
        assert Calls(g, visits) == earlier + [c];
        RunSnoc(m, earlier, c);
      }
      assert forall i :: 0 <= i < n ==> visits[..n][i] == visits[i];
    }
  }

  lemma CountingSnoc(visits: seq<Visit>, decisions: seq<bool>, ok: bool)
    requires |visits| == |decisions| + 1
    ensures var n := |decisions|;
            Counting(visits, decisions + [ok]) ==
            Counting(visits[..n], decisions) + if visits[n].overrides.skip then [] else [ok]
  {
    assert (decisions + [ok])[..|decisions|] == decisions;
  }

  lemma NothingRun(m: Counters)
    ensures Run(m, []) == (m, []) && Counting([], []) == []
  {
  }
}
