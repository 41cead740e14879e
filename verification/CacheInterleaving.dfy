/** The response cache under concurrent requests: every critical section is one step, in any order. */
module CacheInterleaving {
  import opened Results
  import opened Cache

  // Where a request stands between its critical sections.
  datatype Phase<+T, +E> =
    | Started
    | Checking(entry: Entry<T>)
    | Dropping
    | Calling
    | Storing(value: T)
    | Done(answer: Result<T, E>)

  // `result` is what the request's own handler returned; `checkedAt` is when it judged a cached entry.
  datatype Flight<+T, +E> = Flight(key: string, phase: Phase<T, E>, result: Option<Result<T, E>>,
      checkedAt: Option<nat>)

  // A response put into the store, and the request whose handler produced it.
  datatype Recording<+T> = Recording(owner: nat, key: string, value: T, storedAt: nat)

  datatype World<+T, +E> = World(store: Store<T>, clock: nat, flights: map<nat, Flight<T, E>>, log: seq<Recording<T>>)

  datatype Step<+T, +E> =
    | Tick(to: nat)
    | Arrive(id: nat, key: string)
    | LookUp(id: nat)
    | Check(id: nat)
    | Drop(id: nat)
    | Handle(id: nat, outcome: Result<T, E>)
    | Put(id: nat)

  function Initial<T, E>(): World<T, E> {
    World(map[], 0, map[], [])
  }


  predicate Enabled<T, E>(w: World<T, E>, step: Step<T, E>) {
    match step
    case Tick(to) => w.clock <= to
    case Arrive(id, _) => id !in w.flights
    case LookUp(id) => id in w.flights && w.flights[id].phase.Started?
    case Check(id) => id in w.flights && w.flights[id].phase.Checking?
    case Drop(id) => id in w.flights && w.flights[id].phase.Dropping?
    case Handle(id, _) => id in w.flights && w.flights[id].phase.Calling?
    case Put(id) => id in w.flights && w.flights[id].phase.Storing?
  }

  function Moved<T, E>(w: World<T, E>, id: nat, phase: Phase<T, E>): World<T, E>
    requires id in w.flights
  {
    w.(flights := w.flights[id := w.flights[id].(phase := phase)])
  }

  function Next<T, E>(w: World<T, E>, ttl: Ttl, step: Step<T, E>): World<T, E>
    requires Enabled(w, step)
  {
    match step
    case Tick(to) => w.(clock := to)
    case Arrive(id, key) => w.(flights := w.flights[id := Flight(key, Started, None, None)])
    case LookUp(id) =>
      var key := w.flights[id].key;
      Moved(w, id, if key in w.store then Checking(w.store[key]) else Calling)
    case Check(id) =>
      var f := w.flights[id];
      var entry := f.phase.entry;
      var phase := if Expired(entry, ttl, w.clock) then Dropping else Done(Ok(entry.value));
      w.(flights := w.flights[id := f.(phase := phase, checkedAt := Some(w.clock))])
    case Drop(id) => Moved(w.(store := w.store - {w.flights[id].key}), id, Calling)
    case Handle(id, outcome) =>
      var phase := if outcome.Ok? then Storing(outcome.value) else Done(outcome);
      w.(flights := w.flights[id := w.flights[id].(phase := phase, result := Some(outcome))])
    case Put(id) =>
      var f := w.flights[id];
      w.(store := w.store[f.key := Entry(f.phase.value, w.clock)],
         flights := w.flights[id := f.(phase := Done(Ok(f.phase.value)))],
         log := w.log + [Recording(id, f.key, f.phase.value, w.clock)])
  }

  // The world after a run, as long as every step of it could be taken.
  function After<T, E>(steps: seq<Step<T, E>>, ttl: Ttl): Option<World<T, E>>
    decreases |steps|
  {
    if steps == [] then Some(Initial())
    else
      var n := |steps| - 1;
      match After(steps[..n], ttl)
      case None => None
      case Some(w) => if Enabled(w, steps[n]) then Some(Next(w, ttl, steps[n])) else None
  }

  // ----- What every reachable world satisfies.

  ghost predicate Logged<T>(log: seq<Recording<T>>, key: string, entry: Entry<T>) {
    exists i :: 0 <= i < |log| && log[i].key == key && log[i].value == entry.value
        && log[i].storedAt == entry.insertedAt
  }

  predicate Fresh(storedAt: nat, ttl: Ttl, checkedAt: nat) {
    storedAt <= checkedAt && (ttl.Some? ==> checkedAt - storedAt < ttl.value)
  }

  // The answer is a logged response for the key that was fresh when it was judged.
  ghost predicate FromCache<T, E>(log: seq<Recording<T>>, ttl: Ttl, f: Flight<T, E>, answer: Result<T, E>) {
    && answer.Ok? && f.checkedAt.Some?
    && exists i :: 0 <= i < |log| && log[i].key == f.key && log[i].value == answer.value
                   && Fresh(log[i].storedAt, ttl, f.checkedAt.value)
  }

  ghost predicate FlightOk<T, E>(w: World<T, E>, ttl: Ttl, f: Flight<T, E>) {
    match f.phase
    case Started => f.result == None
    case Checking(entry) => f.result == None && entry.insertedAt <= w.clock && Logged(w.log, f.key, entry)
    case Dropping => f.result == None
    case Calling => f.result == None
    case Storing(value) => f.result == Some(Ok(value))
    case Done(answer) =>
      match f.result
      case Some(own) => answer == own
      case None => FromCache(w.log, ttl, f, answer)
  }

  // Only successful handler runs are ever recorded, each for the key of its own request.
  ghost predicate LogOk<T, E>(w: World<T, E>) {
    forall i :: 0 <= i < |w.log| ==>
      var r := w.log[i];
      r.storedAt <= w.clock && r.owner in w.flights
      && w.flights[r.owner].key == r.key && w.flights[r.owner].result == Some(Ok(r.value))
  }

  ghost predicate StoreOk<T, E>(w: World<T, E>) {
    forall key :: key in w.store ==> w.store[key].insertedAt <= w.clock && Logged(w.log, key, w.store[key])
  }

  ghost predicate Invariant<T, E>(w: World<T, E>, ttl: Ttl) {
    && LogOk(w) && StoreOk(w)
    && forall id :: id in w.flights ==> FlightOk(w, ttl, w.flights[id])
  }

  // A longer log and a later clock keep what was true of a request.
  lemma FlightStays<T, E>(w: World<T, E>, w': World<T, E>, ttl: Ttl, f: Flight<T, E>)
    requires FlightOk(w, ttl, f) && w.clock <= w'.clock && w.log <= w'.log
    ensures FlightOk(w', ttl, f)
  {
    if f.phase.Checking? {
      LoggedStays(w.log, w'.log, f.key, f.phase.entry);
    } else if f.phase.Done? && f.result.None? {
      var i :| 0 <= i < |w.log| && w.log[i].key == f.key && w.log[i].value == f.phase.answer.value
               && Fresh(w.log[i].storedAt, ttl, f.checkedAt.value);
      assert w'.log[i] == w.log[i];
    }
  }

  lemma LoggedStays<T>(log: seq<Recording<T>>, log': seq<Recording<T>>, key: string, entry: Entry<T>)
    requires log <= log' && Logged(log, key, entry)
    ensures Logged(log', key, entry)
  {
    var i :| 0 <= i < |log| && log[i].key == key && log[i].value == entry.value && log[i].storedAt == entry.insertedAt;
    assert log'[i] == log[i];
  }

  // The request that takes the step.
  function Actor<T, E>(step: Step<T, E>): Option<nat> {
    match step
    case Tick(_) => None
    case Arrive(id, _) => Some(id)
    case LookUp(id) => Some(id)
    case Check(id) => Some(id)
    case Drop(id) => Some(id)
    case Handle(id, _) => Some(id)
    case Put(id) => Some(id)
  }

  lemma StepLog<T, E>(w: World<T, E>, ttl: Ttl, step: Step<T, E>)
    requires Invariant(w, ttl) && Enabled(w, step)
    ensures LogOk(Next(w, ttl, step))
  {
    var w' := Next(w, ttl, step);
    forall i | 0 <= i < |w'.log|
      ensures var r := w'.log[i];
              r.storedAt <= w'.clock && r.owner in w'.flights
              && w'.flights[r.owner].key == r.key && w'.flights[r.owner].result == Some(Ok(r.value))
    {
      if i < |w.log| {
        assert w'.log[i] == w.log[i];
        var owner := w.log[i].owner;
        assert FlightOk(w, ttl, w.flights[owner]);
      } else {
        assert FlightOk(w, ttl, w.flights[step.id]);
      }
    }
  }

  lemma StepStore<T, E>(w: World<T, E>, ttl: Ttl, step: Step<T, E>)
    requires Invariant(w, ttl) && Enabled(w, step)
    ensures StoreOk(Next(w, ttl, step))
  {
    hide Logged;
    var w' := Next(w, ttl, step);
    forall key | key in w'.store
      ensures w'.store[key].insertedAt <= w'.clock && Logged(w'.log, key, w'.store[key])
    {
      if step.Put? && key == w.flights[step.id].key {
        assert w'.log[|w.log|] == Recording(step.id, key, w.flights[step.id].phase.value, w.clock);
        LastLogged(w'.log, key, w'.store[key]);
      } else {
        LoggedStays(w.log, w'.log, key, w.store[key]);
      }
    }
  }

  lemma LastLogged<T>(log: seq<Recording<T>>, key: string, entry: Entry<T>)
    requires log != []
    requires var r := log[|log| - 1]; r.key == key && r.value == entry.value && r.storedAt == entry.insertedAt
    ensures Logged(log, key, entry)
  {
  }

  lemma StepActor<T, E>(w: World<T, E>, ttl: Ttl, step: Step<T, E>)
    requires Invariant(w, ttl) && Enabled(w, step) && Actor(step).Some?
    ensures FlightOk(Next(w, ttl, step), ttl, Next(w, ttl, step).flights[Actor(step).value])
  {
    var w' := Next(w, ttl, step);
    if !step.Arrive? {
      var f := w.flights[step.id];
      assert FlightOk(w, ttl, f);
      if step.Check? && w'.flights[step.id].phase.Done? {
        var entry := f.phase.entry;
        var i :| 0 <= i < |w.log| && w.log[i].key == f.key && w.log[i].value == entry.value
                 && w.log[i].storedAt == entry.insertedAt;
        assert Fresh(w.log[i].storedAt, ttl, w.clock);
      }
    }
  }

  lemma StepKeepsInvariant<T, E>(w: World<T, E>, ttl: Ttl, step: Step<T, E>)
    requires Invariant(w, ttl) && Enabled(w, step)
    ensures Invariant(Next(w, ttl, step), ttl)
  {
    hide FlightOk, LogOk, StoreOk;
    var w' := Next(w, ttl, step);
    StepLog(w, ttl, step);
    StepStore(w, ttl, step);
    forall id | id in w'.flights ensures FlightOk(w', ttl, w'.flights[id]) {
      if Actor(step) == Some(id) {
        StepActor(w, ttl, step);
      } else {
        FlightStays(w, w', ttl, w.flights[id]);
      }
    }
  }

  lemma {:induction false} ReachableInvariant<T, E>(steps: seq<Step<T, E>>, ttl: Ttl)
    requires After(steps, ttl).Some?
    ensures Invariant(After(steps, ttl).value, ttl)
    decreases |steps|
  {
    hide Invariant;
    if steps == [] {
      assert Invariant(After(steps, ttl).value, ttl) by {
        StartInvariant<T, E>(ttl);
      }
    } else {
      var n := |steps| - 1;
      ReachableInvariant(steps[..n], ttl);
      StepKeepsInvariant(After(steps[..n], ttl).value, ttl, steps[n]);
    }
  }

  lemma StartInvariant<T, E>(ttl: Ttl)
    ensures Invariant<T, E>(Initial(), ttl)
  {
  }

  // ----- Safety of every answer, in every interleaving.

  // A request is answered by its own handler, or, without calling it, by the response of an earlier
  // successful handler run for the same key that was younger than the ttl when it was judged.
  lemma AnswersAreOwnOrFresh<T, E>(steps: seq<Step<T, E>>, ttl: Ttl, id: nat)
    requires After(steps, ttl).Some?
    requires var w := After(steps, ttl).value; id in w.flights && w.flights[id].phase.Done?
    ensures var w := After(steps, ttl).value;
            var f := w.flights[id];
            match f.result
            case Some(own) => f.phase.answer == own
            case None =>
              && f.phase.answer.Ok? && f.checkedAt.Some?
              && exists i :: 0 <= i < |w.log| && w.log[i].key == f.key && w.log[i].value == f.phase.answer.value
                   && Fresh(w.log[i].storedAt, ttl, f.checkedAt.value)
                   && w.log[i].owner in w.flights && w.flights[w.log[i].owner].result == Some(Ok(w.log[i].value))
  {
    ReachableInvariant(steps, ttl);
    var w := After(steps, ttl).value;
    assert FlightOk(w, ttl, w.flights[id]);
  }

  // Every response in the store is a successful handler's; errors are never stored.
  lemma ErrorsAreNeverStored<T, E>(steps: seq<Step<T, E>>, ttl: Ttl, key: string)
    requires After(steps, ttl).Some? && key in After(steps, ttl).value.store
    ensures var w := After(steps, ttl).value;
            exists id ::
                id in w.flights && w.flights[id].key == key && w.flights[id].result == Some(Ok(w.store[key].value))
  {
    ReachableInvariant(steps, ttl);
    var w := After(steps, ttl).value;
    var i :| 0 <= i < |w.log| && w.log[i].key == key && w.log[i].value == w.store[key].value
             && w.log[i].storedAt == w.store[key].insertedAt;
    assert w.log[i].owner in w.flights;
  }

  // ----- Caching is invisible when the handler's outcome depends only on the key.

  ghost predicate Deterministic<T, E>(steps: seq<Step<T, E>>, ttl: Ttl, outcomes: map<string, Result<T, E>>) {
    forall i :: 0 <= i < |steps| && steps[i].Handle? && After(steps[..i], ttl).Some? ==>
      var w := After(steps[..i], ttl).value;
      steps[i].id in w.flights ==>
        w.flights[steps[i].id].key in outcomes && outcomes[w.flights[steps[i].id].key] == steps[i].outcome
  }

  ghost predicate ResultsFollow<T, E>(w: World<T, E>, outcomes: map<string, Result<T, E>>) {
    forall id :: id in w.flights && w.flights[id].result.Some? ==>
      w.flights[id].key in outcomes && w.flights[id].result.value == outcomes[w.flights[id].key]
  }

  lemma {:induction false} OwnResultsFollow<T, E>(steps: seq<Step<T, E>>, ttl: Ttl, outcomes: map<string, Result<T, E>>)
    requires After(steps, ttl).Some? && Deterministic(steps, ttl, outcomes)
    ensures ResultsFollow(After(steps, ttl).value, outcomes)
    decreases |steps|
  {
    if steps != [] {
      var n := |steps| - 1;
      var front := steps[..n];
      assert forall i :: 0 <= i < n ==> front[..i] == steps[..i] && front[i] == steps[i];
      OwnResultsFollow(front, ttl, outcomes);
      var w, w' := After(front, ttl).value, After(steps, ttl).value;
      forall id | id in w'.flights && w'.flights[id].result.Some?
        ensures w'.flights[id].key in outcomes && w'.flights[id].result.value == outcomes[w'.flights[id].key]
      {
        if id in w.flights && w.flights[id] == w'.flights[id] {
        } else {
          assert Actor(steps[n]) == Some(id);
        }
      }
    }
  }

  lemma CachingIsInvisible<T, E>(steps: seq<Step<T, E>>, ttl: Ttl, outcomes: map<string, Result<T, E>>, id: nat)
    requires After(steps, ttl).Some? && Deterministic(steps, ttl, outcomes)
    requires var w := After(steps, ttl).value; id in w.flights && w.flights[id].phase.Done?
    ensures var f := After(steps, ttl).value.flights[id];
            f.key in outcomes && f.phase.answer == outcomes[f.key]
  {
    ReachableInvariant(steps, ttl);
    OwnResultsFollow(steps, ttl, outcomes);
    var w := After(steps, ttl).value;
    var f := w.flights[id];
    assert FlightOk(w, ttl, f);
    if f.result.None? {
      var i :| 0 <= i < |w.log| && w.log[i].key == f.key && w.log[i].value == f.phase.answer.value;
      var owner := w.log[i].owner;
      assert w.flights[owner].key == f.key && w.flights[owner].result == Some(Ok(w.log[i].value));
    }
  }

  // ----- One request alone takes the same steps as the sequential interceptor.

  function AloneSteps<T, E>(store: Store<T>, ttl: Ttl, id: nat, r: Request<T, E>): seq<Step<T, E>> {
    var called := [Handle(id, r.outcome)] + (if r.outcome.Ok? then [Tick(r.insertedAt), Put(id)] else []);
    if r.key !in store then [LookUp(id)] + called
    else if Expired(store[r.key], ttl, r.checkedAt) then [LookUp(id), Tick(r.checkedAt), Check(id), Drop(id)] + called
    else [LookUp(id), Tick(r.checkedAt), Check(id)]
  }

  // The world after more steps, if each can be taken.
  function Onward<T, E>(w: World<T, E>, ttl: Ttl, steps: seq<Step<T, E>>): Option<World<T, E>>
    decreases |steps|
  {
    if steps == [] then Some(w)
    else if Enabled(w, steps[0]) then Onward(Next(w, ttl, steps[0]), ttl, steps[1..])
    else None
  }

  lemma CalledAlone<T, E>(w: World<T, E>, ttl: Ttl, id: nat, r: Request<T, E>)
    requires id in w.flights && w.flights[id].phase.Calling? && w.flights[id].key == r.key && w.clock <= r.insertedAt
    ensures var steps := [Handle(id, r.outcome)] + (if r.outcome.Ok? then [Tick(r.insertedAt), Put(id)] else []);
            var w' := Onward(w, ttl, steps);
            && w'.Some? && id in w'.value.flights
            && w'.value.flights[id].phase == Done(r.outcome)
            && w'.value.store == (if r.outcome.Ok? then w.store[r.key := Entry(r.outcome.value, r.insertedAt)]
                else w.store)
  {
    var w1 := Next(w, ttl, Handle(id, r.outcome));
    if r.outcome.Ok? {
      var steps := [Handle(id, r.outcome), Tick(r.insertedAt), Put(id)];
      var last: seq<Step<T, E>> := [Put(id)];
      assert [Handle(id, r.outcome)] + [Tick(r.insertedAt), Put(id)] == steps;
      assert steps[1..] == [Tick(r.insertedAt), Put(id)] && steps[1..][1..] == [Put(id)] && last[1..] == [];
      var w2 := Next(w1, ttl, Tick(r.insertedAt));
      assert Onward(w2, ttl, [Put(id)]) == Onward(Next(w2, ttl, Put(id)), ttl, []);
      assert Onward(w1, ttl, steps[1..]) == Onward(w2, ttl, [Put(id)]);
    } else {
      assert [Handle(id, r.outcome)] + [] == [Handle(id, r.outcome)];
      assert [Handle(id, r.outcome)][1..] == [];
      assert Onward(w1, ttl, []) == Some(w1);
    }
  }

  lemma {:induction false} OnwardConcat<T, E>(w: World<T, E>, ttl: Ttl, a: seq<Step<T, E>>, b: seq<Step<T, E>>)
    ensures Onward(w, ttl, a + b) == match Onward(w, ttl, a) case None => None case Some(v) => Onward(v, ttl, b)
    decreases |a|
  {
    if a == [] {
      assert a + b == b;
    } else if Enabled(w, a[0]) {
      assert (a + b)[1..] == a[1..] + b;
      OnwardConcat(Next(w, ttl, a[0]), ttl, a[1..], b);
    }
  }

  lemma AloneIsSequential<T, E>(w: World<T, E>, ttl: Ttl, id: nat, r: Request<T, E>)
    requires id in w.flights && w.flights[id].phase.Started? && w.flights[id].key == r.key
    requires w.clock <= r.checkedAt <= r.insertedAt
    ensures var w' := Onward(w, ttl, AloneSteps(w.store, ttl, id, r));
            var (store, reply) := Intercepted(w.store, ttl, r);
            && w'.Some? && w'.value.store == store
            && id in w'.value.flights && w'.value.flights[id].phase == Done(reply.answer)
  {
    var called := [Handle(id, r.outcome)] + (if r.outcome.Ok? then [Tick(r.insertedAt), Put(id)] else []);
    var w1 := Next(w, ttl, LookUp(id));
    if r.key !in w.store {
      assert w.store - {r.key} == w.store;
      var first: seq<Step<T, E>> := [LookUp(id)];
      assert first[1..] == [];
      assert Onward(w, ttl, [LookUp(id)]) == Onward(w1, ttl, []);
      OnwardConcat(w, ttl, [LookUp(id)], called);
      CalledAlone(w1, ttl, id, r);
    } else {
      var w2 := Next(w1, ttl, Tick(r.checkedAt));
      var w3 := Next(w2, ttl, Check(id));
      var judged: seq<Step<T, E>> := [LookUp(id), Tick(r.checkedAt), Check(id)];
      var last: seq<Step<T, E>> := [Check(id)];
      assert judged[1..] == [Tick(r.checkedAt), Check(id)] && judged[1..][1..] == [Check(id)] && last[1..] == [];
      assert Onward(w2, ttl, [Check(id)]) == Onward(w3, ttl, []);
      assert Onward(w1, ttl, [Tick(r.checkedAt), Check(id)]) == Onward(w2, ttl, [Check(id)]);
      assert Onward(w, ttl, judged) == Some(w3);
      if Expired(w.store[r.key], ttl, r.checkedAt) {
        var w4 := Next(w3, ttl, Drop(id));
        assert [LookUp(id), Tick(r.checkedAt), Check(id), Drop(id)] + called == judged + ([Drop(id)] + called);
        assert ([Drop(id)] + called)[1..] == called;
        OnwardConcat(w, ttl, judged, [Drop(id)] + called);
        CalledAlone(w4, ttl, id, r);
      }
    }
  }
}
