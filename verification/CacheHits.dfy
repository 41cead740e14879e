/** When the cache answers for a handler, exactly. */
module CacheHits {
  import opened Results
  import opened Cache

  // Request i recorded a response for the key of request j that is younger than the ttl when j arrives.
  predicate Recent<T, E>(requests: seq<Request<T, E>>, ttl: Ttl, i: int, j: int) {
    && 0 <= i < j < |requests| && requests[i].key == requests[j].key && Recorded(requests, ttl, i)
    && (ttl == None || requests[j].checkedAt < requests[i].insertedAt + ttl.value)
  }

  ghost predicate EntryOf<T, E>(requests: seq<Request<T, E>>, ttl: Ttl, key: string, entry: Entry<T>, i: int) {
    && 0 <= i < |requests| && requests[i].key == key && Recorded(requests, ttl, i)
    && entry == Entry(requests[i].outcome.value, requests[i].insertedAt)
  }

  // Whatever the store holds was recorded by some request.
  lemma {:induction false} StoreIsRecorded<T, E>(requests: seq<Request<T, E>>, ttl: Ttl, key: string)
    requires key in Serve(requests, ttl).0
    ensures exists i :: EntryOf(requests, ttl, key, Serve(requests, ttl).0[key], i)
    decreases |requests|
  {
    if requests != [] {
      var n := |requests| - 1;
      var before, after := Serve(requests[..n], ttl).0, Serve(requests, ttl).0;
      ServeSplits(requests, ttl);
      if Serve(requests, ttl).1[n].handled && requests[n].key == key {
        assert EntryOf(requests, ttl, key, after[key], n);
      } else {
        assert key in before && before[key] == after[key];
        StoreIsRecorded(requests[..n], ttl, key);
        var i :| EntryOf(requests[..n], ttl, key, before[key], i);
        assert requests[..n][i] == requests[i];
        assert EntryOf(requests, ttl, key, after[key], i);
      }
    }
  }

  // What request j finds: the store the requests before it left.
  lemma ReplyIs<T, E>(requests: seq<Request<T, E>>, ttl: Ttl, j: nat)
    requires j < |requests|
    ensures Serve(requests, ttl).1[j] == Intercepted(Serve(requests[..j], ttl).0, ttl, requests[j]).1
  {
    hide Intercepted;
    ServePrefix(requests, ttl, j + 1);
    assert requests[..j + 1][..j] == requests[..j];
    ServeSplits(requests[..j + 1], ttl);
  }

  lemma RecordedBefore<T, E>(requests: seq<Request<T, E>>, ttl: Ttl, i: nat, n: nat)
    requires i < n <= |requests|
    ensures Recorded(requests[..n], ttl, i) <==> Recorded(requests, ttl, i)
  {
    hide Serve;
    ServePrefix(requests, ttl, n);
  }

  // A request is answered from the store exactly when some response for its key was recorded less than the
  // ttl ago; the answer is then that response, and otherwise it is the handler's own.
  lemma HitExactly<T, E>(requests: seq<Request<T, E>>, ttl: Ttl, j: nat)
    requires OneAfterTheOther(requests) && j < |requests|
    ensures var reply := Serve(requests, ttl).1[j];
            && (!reply.handled <==> exists i :: Recent(requests, ttl, i, j))
            && (forall i :: Recent(requests, ttl, i, j) ==> reply.answer == requests[i].outcome)
            && (reply.handled ==> reply.answer == requests[j].outcome)
  {
    hide Serve, OneAfterTheOther, Recorded;
    var before := Serve(requests[..j], ttl).0;
    var r := requests[j];
    ReplyIs(requests, ttl, j);
    if r.key in before {
      StoreIsRecorded(requests[..j], ttl, r.key);
      var i :| EntryOf(requests[..j], ttl, r.key, before[r.key], i);
      RecordedBefore(requests, ttl, i, j);
      Ordered(requests, i, j);
      assert !Expired(before[r.key], ttl, r.checkedAt) ==> Recent(requests, ttl, i, j);
    }
    forall i | Recent(requests, ttl, i, j)
      ensures r.key in before && !Expired(before[r.key], ttl, r.checkedAt)
      ensures requests[i].outcome.Ok? && before[r.key].value == requests[i].outcome.value
    {
      StillThere(requests, ttl, i, j);
    }
  }

  lemma Ordered<T, E>(requests: seq<Request<T, E>>, i: nat, j: nat)
    requires OneAfterTheOther(requests) && i < j < |requests|
    ensures requests[i].insertedAt <= requests[j].checkedAt
    ensures requests[j].checkedAt <= requests[j].insertedAt
  {
  }

  lemma OrderedPrefix<T, E>(requests: seq<Request<T, E>>, n: nat)
    requires OneAfterTheOther(requests) && n <= |requests|
    ensures OneAfterTheOther(requests[..n])
  {
  }

  lemma RecordedIsOk<T, E>(requests: seq<Request<T, E>>, ttl: Ttl, i: nat)
    requires i < |requests| && Recorded(requests, ttl, i)
    ensures requests[i].outcome.Ok?
  {
  }

  // A recent record is what the store holds for its key.
  lemma StillThere<T, E>(requests: seq<Request<T, E>>, ttl: Ttl, i: nat, j: nat)
    requires OneAfterTheOther(requests) && Recent(requests, ttl, i, j)
    ensures var before := Serve(requests[..j], ttl).0;
            var r := requests[j];
            && r.key in before && !Expired(before[r.key], ttl, r.checkedAt)
            && requests[i].outcome.Ok? && before[r.key].value == requests[i].outcome.value
  {
    hide Serve, OneAfterTheOther, Recorded;
    var front, r := requests[..j], requests[j];
    RecordedBefore(requests, ttl, i, j);
    RecordedIsOk(requests, ttl, i);
    OrderedPrefix(requests, j);
    assert front[i] == requests[i] && front[j - 1] == requests[j - 1];
    RecordsCovered(front, ttl, i);
    Ordered(requests, j - 1, j);
    StoreIsRecorded(front, ttl, r.key);
    var k :| EntryOf(front, ttl, r.key, Serve(front, ttl).0[r.key], k);
    assert front[k] == requests[k];
    Ordered(requests, k, j);
    Ordered(requests, i, j);
    if k < i {
      RecordsApart(front, ttl, k, i);
    } else if i < k {
      RecordsApart(front, ttl, i, k);
    }
  }
}
