/** What the parts of a dispatch do, told from the outside: which requests, values and outcomes are
    handed on, which filter takes an exception, and which headers an answer leaves with. */
module DispatchMeaning {
  import opened Results
  import opened HttpTypes
  import opened RequestChart
  import opened InterceptorChain
  import opened Dispatch

  // ----- Pipes: each one gets what the one before it returned.

  predicate IsText(codec: Codec, b: Body, text: string) {
    || b == Text(text)
    || b == Html(text)
    || (b.Raw? && codec.decodeUtf8(b.items) == Some(text))
  }

  // The value the first pipe gets.
  ghost predicate IsValueOf(codec: Codec, request: Request, v: Json) {
    || (request.body == Empty && v == Null)
    || request.body == JsonBody(v)
    || (exists text :: IsText(codec, request.body, text)
          && (if codec.looksJson(request) then codec.parseJson(text) == Some(v) else v == Str(text)))
  }

  // Why there is no such value.
  ghost predicate HasNoValue(codec: Codec, request: Request, e: HttpException) {
    || (request.body.Raw? && codec.decodeUtf8(request.body.items) == None
          && e == HttpException(400, "global pipe requires a UTF-8 request body"))
    || (exists text :: IsText(codec, request.body, text) && codec.looksJson(request) && codec.parseJson(text) == None
          && e == HttpException(400, "global pipe could not parse request body as JSON"))
  }

  // The body made of what the last pipe returned.
  predicate IsBodyOf(v: Json, body: Body) {
    || (v == Null && body == Empty)
    || (v.Str? && body == Text(v.text))
    || (!v.Null? && !v.Str? && body == JsonBody(v))
  }

  // `vs` are values handed from pipe to pipe, beginning at the first one.
  predicate HandedOn(pipes: seq<Pipe>, vs: seq<Json>) {
    && 0 < |vs| <= |pipes| + 1
    && forall i :: 0 <= i < |vs| - 1 ==> pipes[i](vs[i]) == Ok(vs[i + 1])
  }

  lemma HandedFront(pipes: seq<Pipe>, v: Json, vs: seq<Json>)
    requires pipes != [] && vs != []
    ensures HandedOn(pipes, [v] + vs) <==> pipes[0](v) == Ok(vs[0]) && HandedOn(pipes[1..], vs)
  {
    var all := [v] + vs;
    if HandedOn(pipes, all) {
      assert pipes[0](all[0]) == Ok(all[1]);
      forall i | 0 <= i < |vs| - 1 ensures pipes[1..][i](vs[i]) == Ok(vs[i + 1]) {
        assert pipes[i + 1](all[i + 1]) == Ok(all[i + 2]);
      }
    }
    if pipes[0](v) == Ok(vs[0]) && HandedOn(pipes[1..], vs) {
      forall i | 0 <= i < |all| - 1 ensures pipes[i](all[i]) == Ok(all[i + 1]) {
        if i > 0 {
          assert pipes[1..][i - 1](vs[i - 1]) == Ok(vs[i]);
        }
      }
    }
  }

  // Values handed on to the last pipe are what the pipes make of the first.
  lemma {:induction false} HandedToTheEnd(pipes: seq<Pipe>, vs: seq<Json>, at: Option<State>, index: nat)
    requires HandedOn(pipes, vs)
    ensures |vs| == |pipes| + 1 ==> Piped(pipes, vs[0]) == Ok(vs[|pipes|])
    ensures |vs| <= |pipes| && pipes[|vs| - 1](vs[|vs| - 1]).Err? ==>
              Piped(pipes, vs[0]) == Err(pipes[|vs| - 1](vs[|vs| - 1]).error)
    ensures |vs| == |pipes| + 1 || pipes[|vs| - 1](vs[|vs| - 1]).Err? ==>
              PipedTrace(at, pipes, vs[0], index) == PipeLog(at, index, |vs|, |pipes|)
    decreases |vs|
  {
    if |vs| > 1 {
      assert vs == [vs[0]] + vs[1..];
      HandedFront(pipes, vs[0], vs[1..]);
      HandedToTheEnd(pipes[1..], vs[1..], at, index + 1);
      assert pipes[0](vs[0]) == Ok(vs[1]);
      assert PipeLog(at, index, |vs|, |pipes|) ==
          [PipeRan(at, index, true)] + PipeLog(at, index + 1, |vs| - 1, |pipes| - 1);
    }
  }

  // The events of `reached` values handed on: one for each pipe, and the last one failing if not all ran.
  function PipeLog(at: Option<State>, index: nat, reached: nat, pipes: nat): seq<Event> {
    seq(if reached <= pipes then reached else pipes, i requires 0 <= i => PipeRan(at, index + i, i + 1 < reached))
  }

  // The values as far as they come.
  function Values(pipes: seq<Pipe>, v: Json): (vs: seq<Json>)
    ensures vs != [] && vs[0] == v
  {
    if pipes == [] || pipes[0](v).Err? then [v] else [v] + Values(pipes[1..], pipes[0](v).value)
  }

  lemma {:induction false} ValuesAreHandedOn(pipes: seq<Pipe>, v: Json)
    ensures var vs := Values(pipes, v);
            HandedOn(pipes, vs) && (|vs| == |pipes| + 1 || pipes[|vs| - 1](vs[|vs| - 1]).Err?)
  {
    if pipes != [] && pipes[0](v).Ok? {
      ValuesAreHandedOn(pipes[1..], pipes[0](v).value);
      HandedFront(pipes, v, Values(pipes[1..], pipes[0](v).value));
    }
  }

  ghost predicate PipesMake(cfg: Config, request: Request, body: Body) {
    exists vs :: HandedOn(cfg.pipes, vs) && |vs| == |cfg.pipes| + 1
        && IsValueOf(cfg.codec, request, vs[0]) && IsBodyOf(vs[|cfg.pipes|], body)
  }

  // The first pipe that fails, on the values that came so far.
  ghost predicate PipesFail(cfg: Config, request: Request, e: HttpException) {
    exists vs :: HandedOn(cfg.pipes, vs) && 0 < |vs| <= |cfg.pipes|
        && IsValueOf(cfg.codec, request, vs[0]) && cfg.pipes[|vs| - 1](vs[|vs| - 1]) == Err(e)
  }

  lemma ValueExactly(codec: Codec, request: Request, v: Json)
    ensures BodyToPipeValue(codec, request) == Ok(v) <==> IsValueOf(codec, request, v)
  {
    match request.body {
      case Text(text) => assert IsText(codec, request.body, text);
      case Html(text) => assert IsText(codec, request.body, text);
      case Raw(items) =>
        if codec.decodeUtf8(items).Some? {
          assert IsText(codec, request.body, codec.decodeUtf8(items).value);
        }
      case _ =>
    }
  }

  lemma NoValueExactly(codec: Codec, request: Request, e: HttpException)
    ensures BodyToPipeValue(codec, request) == Err(e) <==> HasNoValue(codec, request, e)
  {
    match request.body {
      case Text(text) => assert IsText(codec, request.body, text);
      case Html(text) => assert IsText(codec, request.body, text);
      case Raw(items) =>
        if codec.decodeUtf8(items).Some? {
          assert IsText(codec, request.body, codec.decodeUtf8(items).value);
        }
      case _ =>
    }
  }

  lemma BodyExactly(v: Json, body: Body)
    ensures PipeValueToBody(v) == body <==> IsBodyOf(v, body)
  {
  }

  // The pipes give a body exactly when values lead through all of them from the request's own body.
  lemma PipesExactly(cfg: Config, request: Request, body: Body)
    ensures PipedBody(cfg, request) == Ok(body) <==>
            if cfg.pipes == [] then body == request.body else PipesMake(cfg, request, body)
  {
    hide BodyToPipeValue, PipeValueToBody, IsValueOf, IsBodyOf, HandedOn, Piped, PipedTrace;
    if cfg.pipes != [] {
      if PipesMake(cfg, request, body) {
        var vs :| HandedOn(cfg.pipes, vs) && |vs| == |cfg.pipes| + 1
            && IsValueOf(cfg.codec, request, vs[0]) && IsBodyOf(vs[|cfg.pipes|], body);
        HandedToTheEnd(cfg.pipes, vs, None, 0);
        ValueExactly(cfg.codec, request, vs[0]);
        BodyExactly(vs[|cfg.pipes|], body);
      }
      if PipedBody(cfg, request) == Ok(body) {
        var v := BodyToPipeValue(cfg.codec, request).value;
        ReachesAll(cfg.pipes, v);
        var vs := Values(cfg.pipes, v);
        ValueExactly(cfg.codec, request, v);
        BodyExactly(vs[|cfg.pipes|], body);
      }
    }
  }

  lemma ReachesAll(pipes: seq<Pipe>, v: Json)
    ensures var vs := Values(pipes, v);
            && HandedOn(pipes, vs)
            && (Piped(pipes, v).Ok? ==> |vs| == |pipes| + 1 && Piped(pipes, v) == Ok(vs[|pipes|]))
            && (Piped(pipes, v).Err? ==> |vs| <= |pipes| && pipes[|vs| - 1](vs[|vs| - 1]) == Piped(pipes, v))
  {
    hide Piped, PipedTrace;
    ValuesAreHandedOn(pipes, v);
    HandedToTheEnd(pipes, Values(pipes, v), None, 0);
  }

  // They fail exactly with the failure of the first pipe that fails, or for want of a value.
  lemma PipesFailExactly(cfg: Config, request: Request, e: HttpException)
    ensures PipedBody(cfg, request) == Err(e) <==>
            cfg.pipes != [] && (HasNoValue(cfg.codec, request, e) || PipesFail(cfg, request, e))
  {
    hide BodyToPipeValue, PipeValueToBody, IsValueOf, HasNoValue, IsBodyOf, HandedOn, Piped, PipedTrace;
    if cfg.pipes != [] {
      NoValueExactly(cfg.codec, request, e);
      if PipesFail(cfg, request, e) {
        var vs :| HandedOn(cfg.pipes, vs) && 0 < |vs| <= |cfg.pipes|
            && IsValueOf(cfg.codec, request, vs[0]) && cfg.pipes[|vs| - 1](vs[|vs| - 1]) == Err(e);
        HandedToTheEnd(cfg.pipes, vs, None, 0);
        ValueExactly(cfg.codec, request, vs[0]);
      }
      if PipedBody(cfg, request) == Err(e) && BodyToPipeValue(cfg.codec, request).Ok? {
        var v := BodyToPipeValue(cfg.codec, request).value;
        ReachesAll(cfg.pipes, v);
        ValueExactly(cfg.codec, request, v);
      }
    }
  }

  // The events the pipes leave behind: one for each value that was handed to a pipe.
  lemma PipesLogged(cfg: Config, request: Request, vs: seq<Json>, at: Option<State>)
    requires HandedOn(cfg.pipes, vs) && IsValueOf(cfg.codec, request, vs[0])
    requires |vs| == |cfg.pipes| + 1 || cfg.pipes[|vs| - 1](vs[|vs| - 1]).Err?
    ensures PipeTrace(at, cfg, request) == PipeLog(at, 0, |vs|, |cfg.pipes|)
  {
    hide BodyToPipeValue, IsValueOf, Piped, PipedTrace, PipeLog;
    ValueExactly(cfg.codec, request, vs[0]);
    HandedToTheEnd(cfg.pipes, vs, at, 0);
  }

  // ----- Middleware: each one gets the last request the one before it passed on.

  predicate PassesOn(m: Middleware, request: Request, next: Request) {
    var passed := m(request).passed;
    passed != [] && passed[|passed| - 1] == next
  }

  predicate PassedAlong(ms: seq<Middleware>, rs: seq<Request>) {
    && 0 < |rs| <= |ms| + 1
    && forall i :: 0 <= i < |rs| - 1 ==> PassesOn(ms[i], rs[i], rs[i + 1])
  }

  ghost predicate ForwardedTo(ms: seq<Middleware>, start: Request, end: Request) {
    exists rs :: PassedAlong(ms, rs) && |rs| == |ms| + 1 && rs[0] == start && rs[|ms|] == end
  }

  // Some middleware passes nothing on, and the answer is its own.
  ghost predicate AnsweredWith(ms: seq<Middleware>, start: Request, response: Response) {
    exists rs :: PassedAlong(ms, rs) && 0 < |rs| <= |ms| && rs[0] == start
        && ms[|rs| - 1](rs[|rs| - 1]) == Conduct([], response)
  }

  lemma PassedFront(ms: seq<Middleware>, r: Request, rs: seq<Request>)
    requires ms != [] && rs != []
    ensures PassedAlong(ms, [r] + rs) <==> PassesOn(ms[0], r, rs[0]) && PassedAlong(ms[1..], rs)
  {
    hide PassesOn;
    var all := [r] + rs;
    if PassedAlong(ms, all) {
      assert PassesOn(ms[0], all[0], all[1]);
      forall i | 0 <= i < |rs| - 1 ensures PassesOn(ms[1..][i], rs[i], rs[i + 1]) {
        assert PassesOn(ms[i + 1], all[i + 1], all[i + 2]);
      }
    }
    if PassesOn(ms[0], r, rs[0]) && PassedAlong(ms[1..], rs) {
      forall i | 0 <= i < |all| - 1 ensures PassesOn(ms[i], all[i], all[i + 1]) {
        if i > 0 {
          assert PassesOn(ms[1..][i - 1], rs[i - 1], rs[i]);
        }
      }
    }
  }

  lemma {:induction false} PassedToTheEnd(ms: seq<Middleware>, rs: seq<Request>, at: Option<State>, level: Level,
      index: nat)
    requires PassedAlong(ms, rs)
    ensures |rs| == |ms| + 1 ==> ThroughSequence(ms, rs[0]) == Forwarded(rs[|ms|])
    ensures |rs| <= |ms| && ms[|rs| - 1](rs[|rs| - 1]).passed == [] ==>
              ThroughSequence(ms, rs[0]) == Answered(rs[|rs| - 1], ms[|rs| - 1](rs[|rs| - 1]).response)
    ensures |rs| == |ms| + 1 || ms[|rs| - 1](rs[|rs| - 1]).passed == [] ==>
              SequenceTrace(at, ms, rs[0], level, index) == SequenceLog(at, level, index, |rs|, |ms|)
    decreases |rs|
  {
    if |rs| > 1 {
      assert rs == [rs[0]] + rs[1..];
      PassedFront(ms, rs[0], rs[1..]);
      PassedToTheEnd(ms[1..], rs[1..], at, level, index + 1);
      assert SequenceLog(at, level, index, |rs|, |ms|) ==
          [MiddlewareRan(at, level, index, true)] + SequenceLog(at, level, index + 1, |rs| - 1, |ms| - 1);
    } else if ms != [] && ms[0](rs[0]).passed == [] {
      assert SequenceLog(at, level, index, 1, |ms|) == [MiddlewareRan(at, level, index, false)];
    }
  }

  function SequenceLog(at: Option<State>, level: Level, index: nat, reached: nat, middlewares: nat): seq<Event> {
    seq(if reached <= middlewares then reached else middlewares,
        i requires 0 <= i => MiddlewareRan(at, level, index + i, i + 1 < reached))
  }

  function Requests(ms: seq<Middleware>, r: Request): (rs: seq<Request>)
    ensures rs != [] && rs[0] == r
  {
    if ms == [] || ms[0](r).passed == [] then [r]
    else [r] + Requests(ms[1..], ms[0](r).passed[|ms[0](r).passed| - 1])
  }

  lemma {:induction false} RequestsArePassedAlong(ms: seq<Middleware>, r: Request)
    ensures var rs := Requests(ms, r);
            PassedAlong(ms, rs) && (|rs| == |ms| + 1 || ms[|rs| - 1](rs[|rs| - 1]).passed == [])
  {
    if ms != [] && ms[0](r).passed != [] {
      var next := ms[0](r).passed[|ms[0](r).passed| - 1];
      RequestsArePassedAlong(ms[1..], next);
      PassedFront(ms, r, Requests(ms[1..], next));
    }
  }

  lemma SequenceReaches(ms: seq<Middleware>, r: Request)
    ensures var rs, p := Requests(ms, r), ThroughSequence(ms, r);
            && PassedAlong(ms, rs)
            && (p.Forwarded? ==> |rs| == |ms| + 1 && p == Forwarded(rs[|ms|]))
            && (p.Answered? ==> |rs| <= |ms| && ms[|rs| - 1](rs[|rs| - 1]) == Conduct([], p.response))
  {
    hide ThroughSequence, SequenceTrace, PassedAlong;
    RequestsArePassedAlong(ms, r);
    PassedToTheEnd(ms, Requests(ms, r), None, Module, 0);
  }

  lemma ForwardedExactly(ms: seq<Middleware>, start: Request, end: Request)
    ensures ThroughSequence(ms, start) == Forwarded(end) <==> ForwardedTo(ms, start, end)
  {
    hide ThroughSequence, SequenceTrace, PassedAlong;
    SequenceReaches(ms, start);
    if ForwardedTo(ms, start, end) {
      var rs :| PassedAlong(ms, rs) && |rs| == |ms| + 1 && rs[0] == start && rs[|ms|] == end;
      PassedToTheEnd(ms, rs, None, Module, 0);
    }
  }

  lemma AnsweredExactly(ms: seq<Middleware>, start: Request, response: Response)
    ensures var p := ThroughSequence(ms, start);
            p.Answered? && p.response == response <==> AnsweredWith(ms, start, response)
  {
    hide ThroughSequence, SequenceTrace, PassedAlong;
    SequenceReaches(ms, start);
    if AnsweredWith(ms, start, response) {
      var rs :| PassedAlong(ms, rs) && 0 < |rs| <= |ms| && rs[0] == start
          && ms[|rs| - 1](rs[|rs| - 1]) == Conduct([], response);
      PassedToTheEnd(ms, rs, None, Module, 0);
    }
  }

  lemma GlobalExactly(m: Middleware, request: Request)
    ensures forall next :: ThroughMiddleware(m, request) == Forwarded(next) <==> PassesOn(m, request, next)
    ensures forall response :: ThroughMiddleware(m, request) == Answered(request, response) <==>
                               m(request) == Conduct([], response)
    ensures var p := ThroughMiddleware(m, request);
            p.Answered? ==> p == Answered(request, p.response)
  {
  }

  // ----- Which route middlewares run.

  predicate Selects(b: RouteMiddleware, path: string) {
    b.applies(path) && forall i :: 0 <= i < |b.excluded| ==> !b.excluded[i](path)
  }

  predicate Increasing(ids: seq<nat>) {
    forall i, j :: 0 <= i < j < |ids| ==> ids[i] < ids[j]
  }

  // The middlewares run are those whose bindings select the path, in the order of the bindings.
  ghost predicate PickedBy(bindings: seq<RouteMiddleware>, path: string, ids: seq<nat>, picked: seq<Middleware>) {
    && Increasing(ids)
    && (forall i :: 0 <= i < |bindings| ==> (i in ids <==> Selects(bindings[i], path)))
    && |picked| == |ids|
    && forall k :: 0 <= k < |ids| ==> ids[k] < |bindings| && picked[k] == bindings[ids[k]].middleware
  }

  function SelectedIds(bindings: seq<RouteMiddleware>, path: string): (ids: seq<nat>) {
    if bindings == [] then []
    else
      var n := |bindings| - 1;
      SelectedIds(bindings[..n], path) + (if Selects(bindings[n], path) then [n] else [])
  }

  lemma {:induction false} MatchingConcat(a: seq<RouteMiddleware>, b: seq<RouteMiddleware>, path: string)
    ensures MatchingMiddlewares(a + b, path) == MatchingMiddlewares(a, path) + MatchingMiddlewares(b, path)
  {
    if a == [] {
      assert a + b == b;
    } else {
      assert (a + b)[1..] == a[1..] + b;
      MatchingConcat(a[1..], b, path);
    }
  }

  lemma PickedStep(before: seq<RouteMiddleware>, b: RouteMiddleware, path: string, ids: seq<nat>,
      picked: seq<Middleware>)
    requires PickedBy(before, path, ids, picked)
    ensures Selects(b, path) ==> PickedBy(before + [b], path, ids + [|before|], picked + [b.middleware])
    ensures !Selects(b, path) ==> PickedBy(before + [b], path, ids, picked)
  {
    hide Selects;
    var after := before + [b];
    assert forall i :: 0 <= i < |before| ==> after[i] == before[i];
    assert |before| !in ids;
    if Selects(b, path) {
      var longer := ids + [|before|];
      assert forall i :: i in longer <==> i in ids || i == |before|;
      assert forall k :: 0 <= k < |ids| ==> longer[k] == ids[k];
    }
  }

  lemma {:induction false} MatchingExactly(bindings: seq<RouteMiddleware>, path: string)
    ensures PickedBy(bindings, path, SelectedIds(bindings, path), MatchingMiddlewares(bindings, path))
    decreases |bindings|
  {
    hide Selects, PickedBy, MatchingMiddlewares;
    if bindings == [] {
      NothingPicked(path);
    } else {
      var n := |bindings| - 1;
      var before := bindings[..n];
      MatchingExactly(before, path);
      assert bindings == before + [bindings[n]];
      MatchingConcat(before, [bindings[n]], path);
      OneBinding(bindings[n], path);
      PickedStep(before, bindings[n], path, SelectedIds(before, path), MatchingMiddlewares(before, path));
      assert SelectedIds(before, path) + [] == SelectedIds(before, path);
      assert MatchingMiddlewares(before, path) + [] == MatchingMiddlewares(before, path);
    }
  }

  lemma NothingPicked(path: string)
    ensures PickedBy([], path, [], MatchingMiddlewares([], path))
  {
  }

  lemma OneBinding(b: RouteMiddleware, path: string)
    ensures MatchingMiddlewares([b], path) == if Selects(b, path) then [b.middleware] else []
  {
    assert [b][1..] == [];
  }

  // ----- Guards: the first that does not pass decides.

  predicate PassUpTo(guards: seq<Guard>, context: Request, n: nat)
    requires n <= |guards|
  {
    forall i :: 0 <= i < n ==> guards[i](context) == Ok(true)
  }

  lemma {:induction false} GuardsPassedExactly(guards: seq<Guard>, context: Request, at: Option<State>, index: nat,
      n: nat)
    requires n <= |guards| && PassUpTo(guards, context, n)
    ensures n == |guards| ==> Guarded(guards, context) == Passed
    ensures n < |guards| && guards[n](context) == Ok(false) ==> Guarded(guards, context) == Denied
    ensures n < |guards| && guards[n](context).Err? ==>
              Guarded(guards, context) == Error(guards[n](context).error)
    ensures n == |guards| || guards[n](context) != Ok(true) ==>
              GuardTrace(at, guards, context, index) ==
              GuardLog(at, index, n) + Deciding(at, index + n, guards, context, n)
    decreases n
  {
    if n > 0 {
      assert forall i :: 0 <= i < n - 1 ==> guards[1..][i] == guards[i + 1];
      GuardsPassedExactly(guards[1..], context, at, index + 1, n - 1);
      assert guards[0](context) == Ok(true);
      assert GuardLog(at, index, n) == [GuardRan(at, index, Pass)] + GuardLog(at, index + 1, n - 1);
    } else {
      assert GuardLog(at, index, n) == [];
    }
  }

  function GuardLog(at: Option<State>, index: nat, n: nat): seq<Event> {
    seq(n, i requires 0 <= i => GuardRan(at, index + i, Pass))
  }

  function Deciding(at: Option<State>, index: nat, guards: seq<Guard>, context: Request, n: nat): seq<Event>
    requires n <= |guards|
  {
    if n == |guards| then []
    else [GuardRan(at, index, if guards[n](context).Err? then Fail else Deny)]
  }

  function PassCount(guards: seq<Guard>, context: Request): (n: nat)
    ensures n <= |guards| && (n < |guards| ==> guards[n](context) != Ok(true))
  {
    if guards == [] || guards[0](context) != Ok(true) then 0 else 1 + PassCount(guards[1..], context)
  }

  lemma {:induction false} PassCountPasses(guards: seq<Guard>, context: Request)
    ensures PassUpTo(guards, context, PassCount(guards, context))
  {
    if guards != [] && guards[0](context) == Ok(true) {
      PassCountPasses(guards[1..], context);
      assert forall i :: 0 < i < |guards| ==> guards[1..][i - 1] == guards[i];
    }
  }

  ghost predicate DeniedAt(guards: seq<Guard>, context: Request) {
    exists n :: 0 <= n < |guards| && PassUpTo(guards, context, n) && guards[n](context) == Ok(false)
  }

  ghost predicate FailedAt(guards: seq<Guard>, context: Request, e: HttpException) {
    exists n :: 0 <= n < |guards| && PassUpTo(guards, context, n) && guards[n](context) == Err(e)
  }

  lemma GuardsExactly(guards: seq<Guard>, context: Request)
    ensures Guarded(guards, context) == Passed <==> PassUpTo(guards, context, |guards|)
    ensures Guarded(guards, context) == Denied <==> DeniedAt(guards, context)
    ensures forall e :: Guarded(guards, context) == Error(e) <==> FailedAt(guards, context, e)
  {
    hide Guarded, GuardTrace, PassUpTo;
    var m := PassCount(guards, context);
    PassCountPasses(guards, context);
    GuardsPassedExactly(guards, context, None, 0, m);
    if m < |guards| {
      match guards[m](context) {
        case Ok(pass) => assert !pass && DeniedAt(guards, context);
        case Err(e) => assert FailedAt(guards, context, e);
      }
    }
    if PassUpTo(guards, context, |guards|) {
      GuardsPassedExactly(guards, context, None, 0, |guards|);
    }
    if DeniedAt(guards, context) {
      var n :| 0 <= n < |guards| && PassUpTo(guards, context, n) && guards[n](context) == Ok(false);
      GuardsPassedExactly(guards, context, None, 0, n);
    }
    forall e | FailedAt(guards, context, e) ensures Guarded(guards, context) == Error(e) {
      var n :| 0 <= n < |guards| && PassUpTo(guards, context, n) && guards[n](context) == Err(e);
      GuardsPassedExactly(guards, context, None, 0, n);
    }
  }

  // ----- Interceptors: the outcome goes back through those that called on, the last one first.

  // A handler that panics counts as a server error inside the chain.
  ghost predicate IsOutcomeOf(ran: Option<Response>, outcome: Outcome) {
    || (ran.Some? && outcome == Ok(ran.value))
    || (ran.None? && outcome == Err(HttpException(500, "request handler failed")))
  }

  lemma OutcomeExactly(ran: Option<Response>, outcome: Outcome)
    ensures HandlerOutcome(ran) == outcome <==> IsOutcomeOf(ran, outcome)
  {
  }

  // What each interceptor does with the request's method and path.
  ghost predicate IsChain(interceptors: seq<Interceptor>, request: Request, chain: seq<Interception>) {
    && |chain| == |interceptors|
    && forall i :: 0 <= i < |chain| ==> Does(interceptors[i], request, chain[i])
  }

  ghost predicate Does(interceptor: Interceptor, request: Request, done: Interception) {
    interceptor(InterceptorContext(request.method_, request.path)) == done
  }

  lemma ChainForExactly(interceptors: seq<Interceptor>, request: Request, chain: seq<Interception>)
    ensures ChainFor(interceptors, request) == chain <==> IsChain(interceptors, request, chain)
  {
    if IsChain(interceptors, request, chain) {
      assert forall i :: 0 <= i < |chain| ==> Does(interceptors[i], request, chain[i]);
    }
  }

  // `os` are the outcomes on the way back: os[i] is what the interceptor i returns.
  predicate WaysBack(chain: seq<Interception>, os: seq<Outcome>) {
    && 0 < |os| <= |chain| + 1
    && forall i :: 0 <= i < |os| - 1 ==> chain[i].Around? && os[i] == chain[i].finish(os[i + 1])
  }

  ghost predicate ReturnedAll(chain: seq<Interception>, handler: Outcome, outcome: Outcome) {
    exists os :: WaysBack(chain, os) && |os| == |chain| + 1 && os[|chain|] == handler && os[0] == outcome
  }

  ghost predicate ReturnedEarly(chain: seq<Interception>, outcome: Outcome) {
    exists os :: WaysBack(chain, os) && 0 < |os| <= |chain|
        && chain[|os| - 1] == Early(os[|os| - 1]) && os[0] == outcome
  }

  lemma WaysFront(chain: seq<Interception>, o: Outcome, os: seq<Outcome>)
    requires chain != [] && os != []
    ensures WaysBack(chain, [o] + os) <==>
            chain[0].Around? && o == chain[0].finish(os[0]) && WaysBack(chain[1..], os)
  {
    var all := [o] + os;
    if WaysBack(chain, all) {
      assert chain[0].Around? && all[0] == chain[0].finish(all[1]);
      forall i | 0 <= i < |os| - 1 ensures chain[1..][i].Around? && os[i] == chain[1..][i].finish(os[i + 1]) {
        assert chain[i + 1].Around? && all[i + 1] == chain[i + 1].finish(all[i + 2]);
      }
    }
    if chain[0].Around? && o == chain[0].finish(os[0]) && WaysBack(chain[1..], os) {
      forall i | 0 <= i < |all| - 1 ensures chain[i].Around? && all[i] == chain[i].finish(all[i + 1]) {
        if i > 0 {
          assert chain[1..][i - 1].Around? && os[i - 1] == chain[1..][i - 1].finish(os[i]);
        }
      }
    }
  }

  lemma {:induction false} BackToTheFront(chain: seq<Interception>, handler: Outcome, os: seq<Outcome>)
    requires WaysBack(chain, os)
    requires if |os| == |chain| + 1 then os[|chain|] == handler else chain[|os| - 1] == Early(os[|os| - 1])
    ensures Folded(chain, handler) == os[0] && (AllForward(chain) <==> |os| == |chain| + 1)
    decreases |os|
  {
    if |os| > 1 {
      assert os == [os[0]] + os[1..];
      WaysFront(chain, os[0], os[1..]);
      BackToTheFront(chain[1..], handler, os[1..]);
      ForwardSplits(chain);
    }
  }

  function Outcomes(chain: seq<Interception>, handler: Outcome): (os: seq<Outcome>)
    ensures os != []
  {
    if chain == [] then [handler]
    else
      match chain[0]
      case Early(outcome) => [outcome]
      case Around(finish) => var os := Outcomes(chain[1..], handler); [finish(os[0])] + os
  }

  lemma {:induction false} OutcomesComeBack(chain: seq<Interception>, handler: Outcome)
    ensures var os := Outcomes(chain, handler);
            && WaysBack(chain, os)
            && (if |os| == |chain| + 1 then os[|chain|] == handler else chain[|os| - 1] == Early(os[|os| - 1]))
  {
    if chain != [] && chain[0].Around? {
      OutcomesComeBack(chain[1..], handler);
      var os := Outcomes(chain[1..], handler);
      WaysFront(chain, chain[0].finish(os[0]), os);
    }
  }

  predicate RunsBack(chain: seq<Interception>, handler: Outcome, os: seq<Outcome>) {
    && WaysBack(chain, os)
    && 0 < |os| <= |chain| + 1
    && (if |os| == |chain| + 1 then os[|chain|] == handler else chain[|os| - 1] == Early(os[|os| - 1]))
  }

  lemma OnlyOneWay(chain: seq<Interception>, handler: Outcome)
    ensures RunsBack(chain, handler, Outcomes(chain, handler))
    ensures forall os :: RunsBack(chain, handler, os) ==>
              Folded(chain, handler) == os[0] && (AllForward(chain) <==> |os| == |chain| + 1)
  {
    hide Folded, AllForward;
    OutcomesComeBack(chain, handler);
    forall os | RunsBack(chain, handler, os)
      ensures Folded(chain, handler) == os[0] && (AllForward(chain) <==> |os| == |chain| + 1)
    {
      BackToTheFront(chain, handler, os);
    }
  }

  // A run of the chain is completed, cut short or failed by what comes back to the front, and by whether
  // it started at the handler or at an interceptor that answered early.
  lemma ChainExactly(chain: seq<Interception>, handler: Outcome)
    ensures forall r :: Executed(chain, handler) == Completed(r) <==> ReturnedAll(chain, handler, Ok(r))
    ensures forall r :: Executed(chain, handler) == ShortCircuited(r) <==> ReturnedEarly(chain, Ok(r))
    ensures forall e :: Executed(chain, handler) == Failed(e, true) <==> ReturnedAll(chain, handler, Err(e))
    ensures forall e :: Executed(chain, handler) == Failed(e, false) <==> ReturnedEarly(chain, Err(e))
  {
    hide Folded, AllForward;
    OnlyOneWay(chain, handler);
    var os := Outcomes(chain, handler);
    assert RunsBack(chain, handler, os);
    assert AllForward(chain) ==> ReturnedAll(chain, handler, os[0]);
    assert !AllForward(chain) ==> ReturnedEarly(chain, os[0]);
    forall outcome | ReturnedAll(chain, handler, outcome)
      ensures AllForward(chain) && Folded(chain, handler) == outcome
    {
      var all :| WaysBack(chain, all) && |all| == |chain| + 1 && all[|chain|] == handler && all[0] == outcome;
      assert RunsBack(chain, handler, all);
    }
    forall outcome | ReturnedEarly(chain, outcome)
      ensures !AllForward(chain) && Folded(chain, handler) == outcome
    {
      var all :| WaysBack(chain, all) && 0 < |all| <= |chain| && chain[|all| - 1] == Early(all[|all| - 1])
          && all[0] == outcome;
      assert RunsBack(chain, handler, all);
    }
  }

  // ----- Exception filters.

  predicate IsSpecific(f: Filter) {
    f.exceptionType == Some("nivasa_common::exceptions::HttpException")
  }

  predicate IsCatchAll(f: Filter) {
    f.exceptionType == None && f.catchAll
  }

  predicate NoneTakes(filters: seq<Filter>) {
    forall i :: 0 <= i < |filters| ==> !IsSpecific(filters[i]) && !IsCatchAll(filters[i])
  }

  // The last one for this exception, and without any, the last one for every exception.
  ghost predicate Takes(filters: seq<Filter>, f: Filter) {
    || (exists i :: 0 <= i < |filters| && filters[i] == f && IsSpecific(f)
          && forall j :: i < j < |filters| ==> !IsSpecific(filters[j]))
    || (exists i :: 0 <= i < |filters| && filters[i] == f && IsCatchAll(f)
          && (forall j :: 0 <= j < |filters| ==> !IsSpecific(filters[j]))
          && forall j :: i < j < |filters| ==> !IsCatchAll(filters[j]))
  }

  // A handler's own filters come first, then those of its controller, then the global ones.
  ghost predicate TakesFor(cfg: Config, binding: Binding, f: Filter) {
    || Takes(binding.handlerFilters, f)
    || (NoneTakes(binding.handlerFilters) && Takes(binding.controllerFilters, f))
    || (NoneTakes(binding.handlerFilters) && NoneTakes(binding.controllerFilters) && Takes(cfg.filters, f))
  }

  predicate NoneTakesFor(cfg: Config, binding: Binding) {
    NoneTakes(binding.handlerFilters) && NoneTakes(binding.controllerFilters) && NoneTakes(cfg.filters)
  }

  predicate LastOf(filters: seq<Filter>, n: nat, best: Option<nat>)
    requires n <= |filters|
  {
    match best
    case None => forall j :: 0 <= j < n ==> !IsSpecific(filters[j]) && !IsCatchAll(filters[j])
    case Some(i) =>
      && i < n
      && (IsSpecific(filters[i]) || (IsCatchAll(filters[i]) && forall j :: 0 <= j < n ==> !IsSpecific(filters[j])))
      && forall j :: i < j < n ==> !IsSpecific(filters[j]) && (IsCatchAll(filters[i]) ==> !IsCatchAll(filters[j]))
  }

  lemma {:induction false} ChosenIsLast(filters: seq<Filter>, n: nat)
    requires n <= |filters|
    ensures LastOf(filters, n, Chosen(filters, n))
  {
    if n > 0 {
      ChosenIsLast(filters, n - 1);
    }
  }

  lemma SelectedExactly(filters: seq<Filter>)
    ensures SelectedFilter(filters) == None <==> NoneTakes(filters)
    ensures forall f :: SelectedFilter(filters) == Some(f) <==> Takes(filters, f)
  {
    hide Chosen;
    ChosenIsLast(filters, |filters|);
    assert filters == filters[..|filters|];
  }

  lemma FilterExactly(cfg: Config, binding: Binding)
    ensures FilterFor(cfg, binding) == None <==> NoneTakesFor(cfg, binding)
    ensures forall f :: FilterFor(cfg, binding) == Some(f) <==> TakesFor(cfg, binding, f)
  {
    hide SelectedFilter, Takes, NoneTakes;
    SelectedExactly(binding.handlerFilters);
    SelectedExactly(binding.controllerFilters);
    SelectedExactly(cfg.filters);
  }

  // The summary of an exception, as a JSON response.
  predicate IsSummary(r: Response, status: nat, message: string) {
    r == Response(status, JsonBody(Summary(status, message)), map["content-type" := "application/json"])
  }

  lemma SummaryExactly(e: HttpException, r: Response)
    ensures SummaryResponse(e) == r <==> IsSummary(r, e.status, e.message)
  {
  }

  // The answer to an exception: the filter's, a plain server error when the filter panics, or the
  // summary of the exception when no filter takes it.
  ghost predicate AnswersException(cfg: Config, binding: Binding, e: HttpException, request: Request, r: Response) {
    || (exists f :: TakesFor(cfg, binding, f)
          && (f.handle(e, request) == Some(r)
              || (f.handle(e, request) == None && IsSummary(r, 500, "request handler failed"))))
    || (NoneTakesFor(cfg, binding) && IsSummary(r, e.status, e.message))
  }

  lemma ExceptionExactly(cfg: Config, binding: Binding, e: HttpException, request: Request, r: Response)
    ensures ExceptionResponse(cfg, binding, e, request) == r <==> AnswersException(cfg, binding, e, request, r)
  {
    hide FilterFor, TakesFor, NoneTakesFor;
    FilterExactly(cfg, binding);
    var f := FilterFor(cfg, binding);
    assert f.Some? ==> TakesFor(cfg, binding, f.value);
    assert IsSummary(SummaryResponse(e), e.status, e.message);
    assert IsSummary(SummaryResponse(HttpException(500, "request handler failed")), 500, "request handler failed");
  }

  // ----- Headers.

  predicate Printable(v: string) {
    forall i :: 0 <= i < |v| ==> v[i] == '\t' || ' ' <= v[i] <= '~'
  }

  // A header set to a value, if that is a printable one.
  predicate HeaderSet(before: Headers, name: string, value: Option<string>, after: Headers) {
    if value.Some? && Printable(value.value) then after == before[name := value.value] else after == before
  }

  function MaybeHeader(before: Headers, name: string, value: Option<string>): Headers {
    match value
    case None => before
    case Some(v) => WithHeader(before, name, v)
  }

  lemma HeaderExactly(before: Headers, name: string, value: Option<string>, after: Headers)
    ensures MaybeHeader(before, name, value) == after <==> HeaderSet(before, name, value, after)
  {
  }

  // The headers of a finalized response: the request's id, then what cross-origin access allows.
  ghost predicate IsFinal(r: Response, cors: Option<Cors>, incoming: Request, id: string, final: Response) {
    var origin := if "origin" in incoming.headers then Some(incoming.headers["origin"]) else None;
    var allowed := if cors == None then None else cors.value.allowOrigin(origin);
    var credentials := if cors == None then None else cors.value.allowCredentials;
    exists h1, h2 ::
      && HeaderSet(r.headers, "x-request-id", Some(id), h1)
      && HeaderSet(h1, "access-control-allow-origin", allowed, h2)
      && HeaderSet(h2, "access-control-allow-credentials", credentials, final.headers)
      && final.status == r.status && final.body == r.body
  }

  lemma FinalExactly(r: Response, cors: Option<Cors>, incoming: Request, id: string, final: Response)
    ensures Finalized(r, cors, Origin(incoming), id) == final <==> IsFinal(r, cors, incoming, id, final)
  {
    hide WithHeader, HeaderSet;
    var origin := if "origin" in incoming.headers then Some(incoming.headers["origin"]) else None;
    var allowed := if cors == None then None else cors.value.allowOrigin(origin);
    var credentials := if cors == None then None else cors.value.allowCredentials;
    var h1 := MaybeHeader(r.headers, "x-request-id", Some(id));
    var h2 := MaybeHeader(h1, "access-control-allow-origin", allowed);
    forall a, b | HeaderSet(r.headers, "x-request-id", Some(id), a)
        && HeaderSet(a, "access-control-allow-origin", allowed, b)
      ensures a == h1 && b == h2
    {
      HeaderExactly(r.headers, "x-request-id", Some(id), a);
      HeaderExactly(a, "access-control-allow-origin", allowed, b);
    }
    HeaderExactly(r.headers, "x-request-id", Some(id), h1);
    HeaderExactly(h1, "access-control-allow-origin", allowed, h2);
    HeaderExactly(h2, "access-control-allow-credentials", credentials, final.headers);
    assert Finalized(r, cors, Origin(incoming), id).headers ==
        MaybeHeader(h2, "access-control-allow-credentials", credentials);
  }

  // ----- The envelope around what interceptors let out.

  predicate IsDataOf(b: Body, v: Json) {
    || (b == Empty && v == Null)
    || (b.Text? && v == Str(b.text))
    || (b.Html? && v == Str(b.text))
    || (b.JsonBody? && v == b.value)
    || (b.Raw? && v == Numbers(b.items))
  }

  // The body as data in a JSON response, with the status and all printable headers but the content type.
  ghost predicate IsEnveloped(r: Response, e: Response) {
    && e.status == r.status
    && e.body.JsonBody? && e.body.value.Data? && IsDataOf(r.body, e.body.value.value)
    && "content-type" in e.headers && e.headers["content-type"] == "application/json"
    && forall name :: name != "content-type" ==>
         && (name in e.headers <==> name in r.headers && Printable(r.headers[name]))
         && (name in e.headers ==> e.headers[name] == r.headers[name])
  }

  lemma EnvelopeExactly(r: Response, e: Response)
    ensures Mapped(r) == e <==> IsEnveloped(r, e)
  {
    if IsEnveloped(r, e) {
      assert Mapped(r).headers == e.headers;
    }
  }
}
