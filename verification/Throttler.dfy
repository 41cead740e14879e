/** The fixed-window throttling store and guard of nivasa-guards/src/lib.rs. */
module Throttler {
  import opened Results

  const U32: nat := 0x1_0000_0000

  type u32 = n: nat | n < U32

  // Times and durations are counted from a fixed origin.
  datatype WindowState = WindowState(startedAt: nat, count: u32)

  datatype Call = Call(key: string, limit: u32, ttl: nat, now: nat)

  // `Instant::duration_since` saturates at zero.
  function DurationSince(now: nat, earlier: nat): nat {
    if now >= earlier then now - earlier else 0
  }

  function SaturatingAdd(a: u32, b: u32): u32 {
    if a + b < U32 then a + b else U32 - 1
  }

  // A call on one key's window: the window afterwards, and the decision.
  function WindowAllow(w: Option<WindowState>, c: Call): (Option<WindowState>, bool) {
    if c.limit == 0 || c.ttl == 0 then (w, false)
    else
      var entry := if w.Some? then w.value else WindowState(c.now, 0);
      var current := if DurationSince(c.now, entry.startedAt) >= c.ttl then WindowState(c.now, 0) else entry;
      if current.count >= c.limit then (Some(current), false)
      else (Some(current.(count := SaturatingAdd(current.count, 1))), true)
  }

  type Counters = map<string, WindowState>

  function Window(m: Counters, key: string): Option<WindowState> {
    if key in m then Some(m[key]) else None
  }

  function WithWindow(m: Counters, key: string, w: Option<WindowState>): Counters {
    match w
    case None => m - {key}
    case Some(v) => m[key := v]
  }

  function Step(m: Counters, c: Call): (Counters, bool) {
    var (w, ok) := WindowAllow(Window(m, c.key), c);
    (WithWindow(m, c.key, w), ok)
  }

  class InMemoryThrottlerStorage {
    var state: Counters

    constructor ()
      ensures state == map[]
    {
      state := map[];
    }

    // One call, whole under the store's lock.
    method Allow(c: Call) returns (allowed: bool)
      modifies this
      ensures (state, allowed) == Step(old(state), c)
    {
      if c.limit == 0 || c.ttl == 0 {
        assert c.key !in state ==> state - {c.key} == state;
        assert c.key in state ==> state[c.key := state[c.key]] == state;
        return false;
      }
      if c.key !in state {
        state := state[c.key := WindowState(c.now, 0)];
      }
      var entry := state[c.key];
      if DurationSince(c.now, entry.startedAt) >= c.ttl {
        entry := WindowState(c.now, 0);
        state := state[c.key := entry];
      }
      if entry.count >= c.limit {
        assert state == old(state)[c.key := entry];
        return false;
      }
      entry := entry.(count := SaturatingAdd(entry.count, 1));
      state := state[c.key := entry];
      assert state == old(state)[c.key := entry];
      return true;
    }
  }

  // The counters and the decisions after a run.
  function Run(m: Counters, calls: seq<Call>): (r: (Counters, seq<bool>))
    ensures |r.1| == |calls|
    decreases |calls|
  {
    if calls == [] then (m, [])
    else
      var n := |calls| - 1;
      var (before, decisions) := Run(m, calls[..n]);
      var (after, ok) := Step(before, calls[n]);
      (after, decisions + [ok])
  }

  // ----- The guard around the store.

  // Request metadata that overrides the guard's configuration; values are u64 in the source.
  datatype Overrides = Overrides(skip: bool, limit: Option<nat>, ttlSecs: Option<nat>)

  datatype ThrottlerGuard = ThrottlerGuard(limit: u32, ttl: nat, ticksPerSecond: nat) {

    // The call the guard makes, or its decision when it makes none. `as u32` keeps the low 32 bits.
    function CallFor(o: Overrides, key: string, now: nat): Result<Call, bool> {
      if limit == 0 || ttl == 0 then Err(false)
      else if o.skip then Err(true)
      else
        var callLimit := if o.limit.Some? then o.limit.value % U32 else limit;
        var callTtl := if o.ttlSecs.Some? then o.ttlSecs.value * ticksPerSecond else ttl;
        Ok(Call(key, callLimit, callTtl, now))
    }

    method AllowsRequest(storage: InMemoryThrottlerStorage, o: Overrides, key: string, now: nat) returns (allowed: bool)
      modifies storage
      ensures match CallFor(o, key, now)
              case Err(decision) => allowed == decision && storage.state == old(storage.state)
              case Ok(c) => (storage.state, allowed) == Step(old(storage.state), c)
    {
      if limit == 0 || ttl == 0 {
        return false;
      }
      if o.skip {
        return true;
      }
      var callLimit := if o.limit.Some? then o.limit.value % U32 else limit;
      var callTtl := if o.ttlSecs.Some? then o.ttlSecs.value * ticksPerSecond else ttl;
      allowed := storage.Allow(Call(key, callLimit, callTtl, now));
    }
  }
}
