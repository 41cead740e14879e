/** The response cache of nivasa-interceptors/src/lib.rs, one request at a time. */
module Cache {
  import opened Results

  datatype Entry<+T> = Entry(value: T, insertedAt: nat)

  type Store<+T> = map<string, Entry<T>>

  // A time-to-live; None keeps entries for ever.
  type Ttl = Option<nat>

  predicate Expired<T>(entry: Entry<T>, ttl: Ttl, now: nat) {
    ttl.Some? && (if now >= entry.insertedAt then now - entry.insertedAt else 0) >= ttl.value
  }

  /** The deferred handler: a closure that can be taken out and run once. */
  class CallHandler<T, E> {
    var inner: Option<Result<T, E>>

    // The outcome the closure will have when it is run.
    constructor (outcome: Result<T, E>)
      ensures inner == Some(outcome)
    {
      inner := Some(outcome);
    }

    method Handle() returns (outcome: Result<T, E>)
      requires inner.Some?
      modifies this
      ensures inner == None && Some(outcome) == old(inner)
    {
      outcome := inner.value;
      inner := None;
    }
  }

  // One request: when it reads the clock, and what its handler would return.
  datatype Request<+T, +E> = Request(key: string, checkedAt: nat, outcome: Result<T, E>, insertedAt: nat)

  datatype Reply<+T, +E> = Reply(answer: Result<T, E>, handled: bool)

  // The store and the reply after one request.
  function Intercepted<T, E>(store: Store<T>, ttl: Ttl, r: Request<T, E>): (Store<T>, Reply<T, E>) {
    if r.key in store && !Expired(store[r.key], ttl, r.checkedAt) then
      (store, Reply(Ok(store[r.key].value), false))
    else
      var kept := store - {r.key};
      (if r.outcome.Ok? then kept[r.key := Entry(r.outcome.value, r.insertedAt)] else kept, Reply(r.outcome, true))
  }

  class CacheInterceptor<T> {
    var store: Store<T>
    const ttl: Ttl

    constructor (ttl: Ttl)
      ensures store == map[] && this.ttl == ttl
    {
      store := map[];
      this.ttl := ttl;
    }

    // The three critical sections.

    method Get(key: string) returns (entry: Option<Entry<T>>)
      ensures entry == if key in store then Some(store[key]) else None
    {
      if key in store {
        return Some(store[key]);
      }
      return None;
    }

    method Remove(key: string)
      modifies this`store
      ensures store == old(store) - {key}
    {
      store := store - {key};
    }

    method Insert(key: string, entry: Entry<T>)
      modifies this`store
      ensures store == old(store)[key := entry]
    {
      store := store[key := entry];
    }

    method Intercept<E>(key: string, next: CallHandler<T, E>, checkedAt: nat, insertedAt: nat)
      returns (answer: Result<T, E>)
      requires next.inner.Some?
      modifies this`store, next
      ensures var (store', reply) := Intercepted(old(store), ttl,
          Request(key, checkedAt, old(next.inner).value, insertedAt));
              && store == store' && answer == reply.answer
              && reply.handled == (next.inner == None)
    {
      var cached := Get(key);
      if cached.Some? {
        if !Expired(cached.value, ttl, checkedAt) {
          return Ok(cached.value.value);
        }
        Remove(key);
      }
      assert store == old(store) - {key};
      answer := next.Handle();
      if answer.Ok? {
        Insert(key, Entry(answer.value, insertedAt));
      }
    }
  }

  // ----- Sequential runs.

  function Serve<T, E>(requests: seq<Request<T, E>>, ttl: Ttl): (r: (Store<T>, seq<Reply<T, E>>))
    ensures |r.1| == |requests|
    decreases |requests|
  {
    if requests == [] then (map[], [])
    else
      var n := |requests| - 1;
      var (store, replies) := Serve(requests[..n], ttl);
      var (store', reply) := Intercepted(store, ttl, requests[n]);
      (store', replies + [reply])
  }

  // Each request reads the clock after the one before it has finished.
  predicate OneAfterTheOther<T, E>(requests: seq<Request<T, E>>) {
    && (forall i :: 0 <= i < |requests| ==> requests[i].checkedAt <= requests[i].insertedAt)
    && (forall i, j :: 0 <= i < j < |requests| ==> requests[i].insertedAt <= requests[j].checkedAt)
  }

  // The handler ran and its response was recorded.
  predicate Recorded<T, E>(requests: seq<Request<T, E>>, ttl: Ttl, i: nat)
    requires i < |requests|
  {
    Serve(requests, ttl).1[i].handled && requests[i].outcome.Ok?
  }

  predicate Covered<T>(store: Store<T>, ttl: Ttl, key: string, recordedAt: nat, now: nat) {
    || (key in store && (store[key].insertedAt == recordedAt
                         || (ttl.Some? && store[key].insertedAt >= recordedAt + ttl.value)))
    || (ttl.Some? && now >= recordedAt + ttl.value)
  }

  lemma ServeSplits<T, E>(requests: seq<Request<T, E>>, ttl: Ttl)
    requires requests != []
    ensures var n := |requests| - 1;
            var (store', reply) := Intercepted(Serve(requests[..n], ttl).0, ttl, requests[n]);
            Serve(requests, ttl) == (store', Serve(requests[..n], ttl).1 + [reply])
  {
  }

  // Every recorded response still answers for its key, or is at least ttl old.
  lemma {:induction false} RecordsCovered<T, E>(requests: seq<Request<T, E>>, ttl: Ttl, i: nat)
    requires OneAfterTheOther(requests) && i < |requests| && Recorded(requests, ttl, i)
    ensures var last := requests[|requests| - 1];
            Covered(Serve(requests, ttl).0, ttl, requests[i].key, requests[i].insertedAt, last.insertedAt)
    decreases |requests|
  {
    ServeSplits(requests, ttl);
    var n := |requests| - 1;
    if i < n {
      assert requests[..n][i] == requests[i];
      RecordsCovered(requests[..n], ttl, i);
    }
  }

  // Two recorded handler runs for one key are at least ttl apart; without a ttl there is at most one.
  lemma RecordsApart<T, E>(requests: seq<Request<T, E>>, ttl: Ttl, i: nat, j: nat)
    requires OneAfterTheOther(requests) && i < j < |requests| && requests[i].key == requests[j].key
    requires Recorded(requests, ttl, i) && Recorded(requests, ttl, j)
    ensures ttl.Some? && requests[j].insertedAt >= requests[i].insertedAt + ttl.value
  {
    ServePrefix(requests, ttl, j + 1);
    ServePrefix(requests, ttl, j);
    var upTo := requests[..j + 1];
    assert upTo[..j] == requests[..j];
    ServeSplits(upTo, ttl);
    RecordsCovered(requests[..j], ttl, i);
  }

  lemma {:induction false} ServePrefix<T, E>(requests: seq<Request<T, E>>, ttl: Ttl, n: nat)
    requires n <= |requests|
    ensures Serve(requests[..n], ttl).1 == Serve(requests, ttl).1[..n]
    decreases |requests|
  {
    if n == |requests| {
      assert requests[..n] == requests;
    } else {
      var m := |requests| - 1;
      ServeSplits(requests, ttl);
      ServePrefix(requests[..m], ttl, n);
      assert requests[..m][..n] == requests[..n];
    }
  }
}
