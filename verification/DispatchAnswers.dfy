/** A whole dispatch told from the outside: the way of a request to its handler, and where each answer
    comes from. */
module DispatchAnswers {
  import opened Results
  import opened HttpTypes
  import opened RequestChart
  import opened InterceptorChain
  import opened Dispatch
  import opened DispatchLaws
  import opened DispatchChart
  import opened DispatchMeaning

  // ----- The way in.

  // A request with one header set, if there is a printable value for it.
  predicate WithHeaderSet(before: Request, name: string, value: Option<string>, after: Request) {
    HeaderSet(before.headers, name, value, after.headers) && after == before.(headers := after.headers)
  }

  // The request as the global middleware gets it: with the id, and with the name of its module.
  ghost predicate Enters(s: Server, incoming: Request, r: Request) {
    exists identified :: WithHeaderSet(incoming, "x-request-id", Some(s.id), identified)
        && WithHeaderSet(identified, "x-module-name", s.cfg.moduleNameFor(identified), r)
  }

  // What the global middleware lets through to the routes.
  ghost predicate Arrives(s: Server, incoming: Request, r: Request) {
    exists first :: Enters(s, incoming, first)
        && (if s.cfg.middleware == None then r == first else PassesOn(s.cfg.middleware.value, first, r))
  }

  // A request on a matched route: as it arrived, with the captures and the module's name of the route,
  // and the middlewares of the route.
  datatype Entry = Entry(arrived: Request, binding: Binding, captures: Option<map<string, string>>, named: Request,
      own: seq<Middleware>, ids: seq<nat>)

  ghost predicate OnRoute(s: Server, incoming: Request, at: Entry) {
    && Arrives(s, incoming, at.arrived)
    && s.cfg.route(at.arrived) == Matched(at.binding, at.captures)
    && WithHeaderSet(at.arrived.(params := at.captures), "x-module-name", at.binding.moduleName, at.named)
    && PickedBy(s.cfg.routeMiddlewares, at.named.path, at.ids, at.own)
  }

  // Through the middlewares of the application, then of the route's module, then of the route.
  ghost predicate LetInside(s: Server, at: Entry, context: Request) {
    exists second, third ::
      && ForwardedTo(s.cfg.moduleMiddlewares, at.named, second)
      && ForwardedTo(at.binding.moduleMiddlewares, second, third)
      && ForwardedTo(at.own, third, context)
  }

  ghost predicate AnsweredInside(s: Server, at: Entry, r: Response) {
    || AnsweredWith(s.cfg.moduleMiddlewares, at.named, r)
    || (exists second :: ForwardedTo(s.cfg.moduleMiddlewares, at.named, second)
          && AnsweredWith(at.binding.moduleMiddlewares, second, r))
    || (exists second, third :: ForwardedTo(s.cfg.moduleMiddlewares, at.named, second)
          && ForwardedTo(at.binding.moduleMiddlewares, second, third) && AnsweredWith(at.own, third, r))
  }

  ghost predicate HasBody(cfg: Config, context: Request, body: Body) {
    if cfg.pipes == [] then body == context.body else PipesMake(cfg, context, body)
  }

  ghost predicate HasNoBody(cfg: Config, context: Request, e: HttpException) {
    cfg.pipes != [] && (HasNoValue(cfg.codec, context, e) || PipesFail(cfg, context, e))
  }

  // Every guard passes the request, and the pipes make a body of its own.
  ghost predicate Admitted(cfg: Config, context: Request, body: Body) {
    PassUpTo(cfg.guards, context, |cfg.guards|) && HasBody(cfg, context, body)
  }

  ghost predicate AllCallOn(interceptors: seq<Interceptor>, r: Request) {
    exists chain: seq<Interception> :: IsChain(interceptors, r, chain)
        && forall i :: 0 <= i < |chain| ==> chain[i].Around?
  }

  // The way to the handler, which runs on `r`.
  ghost predicate Journey(s: Server, incoming: Request, r: Request) {
    exists at, context :: OnRoute(s, incoming, at) && LetInside(s, at, context)
        && Admitted(s.cfg, context, r.body) && r == context.(body := r.body) && AllCallOn(s.cfg.interceptors, r)
  }

  // ----- The way out.

  predicate IsPage(r: Response, status: nat, text: string) {
    r == Response(status, Text(text), map["content-type" := "text/plain; charset=utf-8"])
  }

  ghost predicate RouteRefuses(outcome: RouteOutcome, r: Response) {
    || (outcome.NotFound? && IsPage(r, 404, "not found"))
    || (outcome.MethodNotAllowed?
          && exists page :: IsPage(page, 405, "method not allowed")
               && HeaderSet(page.headers, "allow", Some(outcome.allowed), r.headers)
               && r == page.(headers := r.headers))
  }

  // The response of the interceptors in its envelope; only the live server writes the request id on it here.
  ghost predicate LetOut(s: Server, page: Response, r: Response) {
    exists e :: IsEnveloped(page, e)
        && HeaderSet(e.headers, "x-request-id", if s.live then Some(s.id) else None, r.headers)
        && r == e.(headers := r.headers)
  }

  ghost predicate ChainReturns(s: Server, binding: Binding, request: Request, outcome: Outcome) {
    exists chain, handler ::
      && IsChain(s.cfg.interceptors, request, chain)
      && IsOutcomeOf(binding.handler(request), handler)
      && (ReturnedAll(chain, handler, outcome) || ReturnedEarly(chain, outcome))
  }

  ghost predicate HandlerAnswers(s: Server, binding: Binding, request: Request, r: Response) {
    if s.cfg.interceptors == [] then
      || binding.handler(request) == Some(r)
      || (binding.handler(request) == None && IsPage(r, 500, "request handler failed"))
    else
      || (exists page :: ChainReturns(s, binding, request, Ok(page)) && LetOut(s, page, r))
      || (exists e :: ChainReturns(s, binding, request, Err(e)) && AnswersException(s.cfg, binding, e, request, r))
  }

  // What the guards, the pipes and the handler make of a request.
  ghost predicate AnswersTo(s: Server, binding: Binding, context: Request, r: Response) {
    || (DeniedAt(s.cfg.guards, context) && IsSummary(r, 403, "request denied by guard"))
    || (exists e :: FailedAt(s.cfg.guards, context, e) && AnswersException(s.cfg, binding, e, context, r))
    || (PassUpTo(s.cfg.guards, context, |s.cfg.guards|)
          && exists e :: HasNoBody(s.cfg, context, e) && AnswersException(s.cfg, binding, e, context, r))
    || (exists body :: Admitted(s.cfg, context, body) && HandlerAnswers(s, binding, context.(body := body), r))
  }

  // What a request that has arrived at the routes is answered.
  ghost predicate ArrivedAnswer(s: Server, incoming: Request, r: Response) {
    || (exists arrived :: Arrives(s, incoming, arrived) && RouteRefuses(s.cfg.route(arrived), r))
    || (exists at :: OnRoute(s, incoming, at) && AnsweredInside(s, at, r))
    || (exists at, context :: OnRoute(s, incoming, at) && LetInside(s, at, context)
          && AnswersTo(s, at.binding, context, r))
  }

  // Where the answer to a request comes from.
  ghost predicate Answer(s: Server, incoming: Request, r: Response) {
    || (exists first :: Enters(s, incoming, first)
          && s.cfg.middleware != None && s.cfg.middleware.value(first) == Conduct([], r))
    || ArrivedAnswer(s, incoming, r)
  }

  // ----- Each station is the one the stages compute.

  lemma NamedExactly(before: Request, name: Option<string>, after: Request)
    ensures WithModuleName(before, name) == after <==> WithHeaderSet(before, "x-module-name", name, after)
  {
  }

  lemma SeededExactly(s: Server, incoming: Request, r: Request)
    ensures Seeded(s, incoming) == r <==> Enters(s, incoming, r)
  {
    hide WithModuleName, WithHeaderSet;
    var identified := incoming.(headers := WithHeader(incoming.headers, "x-request-id", s.id));
    NamedExactly(identified, s.cfg.moduleNameFor(identified), r);
    forall i ensures WithHeaderSet(incoming, "x-request-id", Some(s.id), i) <==> i == identified {
      IdentifiedExactly(incoming, s.id, i);
    }
  }

  lemma IdentifiedExactly(before: Request, id: string, after: Request)
    ensures before.(headers := WithHeader(before.headers, "x-request-id", id)) == after <==>
            WithHeaderSet(before, "x-request-id", Some(id), after)
  {
  }

  lemma ArrivesExactly(s: Server, incoming: Request, r: Request)
    ensures GlobalInput(s, incoming) == Some(r) <==> Arrives(s, incoming, r)
  {
    hide Seeded, Enters, PassesOn, ThroughMiddleware;
    var first := Seeded(s, incoming);
    SeededExactly(s, incoming, first);
    forall f | Enters(s, incoming, f) ensures f == first {
      SeededExactly(s, incoming, f);
    }
    if s.cfg.middleware.Some? {
      GlobalExactly(s.cfg.middleware.value, first);
    }
  }

  // The middlewares picked are the only ones that fit the description.
  lemma OnlyPicked(s: Server, path: string, ids: seq<nat>, picked: seq<Middleware>)
    ensures PickedBy(s.cfg.routeMiddlewares, path, ids, picked) <==>
            ids == SelectedIds(s.cfg.routeMiddlewares, path)
            && picked == MatchingMiddlewares(s.cfg.routeMiddlewares, path)
  {
    hide MatchingMiddlewares, SelectedIds, Selects;
    MatchingExactly(s.cfg.routeMiddlewares, path);
    var bindings := s.cfg.routeMiddlewares;
    var theirs := SelectedIds(bindings, path);
    if PickedBy(bindings, path, ids, picked) {
      assert forall i :: i in ids ==> 0 <= i < |bindings|;
      assert forall i :: i in theirs ==> 0 <= i < |bindings|;
      SameIds(ids, theirs);
      assert picked == MatchingMiddlewares(bindings, path);
    }
  }

  // Two increasing lists of the same numbers are the same list.
  lemma {:induction false} SameIds(a: seq<nat>, b: seq<nat>)
    requires Increasing(a) && Increasing(b) && (forall i: nat :: i in a <==> i in b)
    ensures a == b
    decreases |a|
  {
    if b != [] {
      assert b[0] in a;
    }
    if a != [] {
      assert a[0] in b && b != [] && b[0] in a;
      assert a[0] == b[0];
      var x, y := a[1..], b[1..];
      forall i: nat ensures i in x <==> i in y {
        assert i in x ==> i in a && i > a[0];
        assert i in y ==> i in b && i > b[0];
      }
      SameIds(x, y);
      assert a == [a[0]] + x && b == [b[0]] + y;
    }
  }

  function EntryOf(s: Server, arrived: Request, binding: Binding, captures: Option<map<string, string>>): Entry {
    var named := WithModuleName(arrived.(params := captures), binding.moduleName);
    Entry(arrived, binding, captures, named, MatchingMiddlewares(s.cfg.routeMiddlewares, named.path),
          SelectedIds(s.cfg.routeMiddlewares, named.path))
  }

  lemma OnRouteExactly(s: Server, incoming: Request, at: Entry)
    ensures OnRoute(s, incoming, at) <==>
            && GlobalInput(s, incoming) == Some(at.arrived)
            && s.cfg.route(at.arrived) == Matched(at.binding, at.captures)
            && at == EntryOf(s, at.arrived, at.binding, at.captures)
  {
    hide GlobalInput, Arrives, WithModuleName, WithHeaderSet, PickedBy, MatchingMiddlewares, SelectedIds;
    ArrivesExactly(s, incoming, at.arrived);
    NamedExactly(at.arrived.(params := at.captures), at.binding.moduleName, at.named);
    OnlyPicked(s, at.named.path, at.ids, at.own);
  }

  // The passage through the three sequences of a route.
  function Inside(s: Server, at: Entry): Passage {
    match ThroughSequence(s.cfg.moduleMiddlewares, at.named)
    case Answered(r, response) => Answered(r, response)
    case Forwarded(second) =>
      match ThroughSequence(at.binding.moduleMiddlewares, second)
      case Answered(r, response) => Answered(r, response)
      case Forwarded(third) => ThroughSequence(at.own, third)
  }

  lemma LetInsideExactly(s: Server, at: Entry, context: Request)
    ensures Inside(s, at) == Forwarded(context) <==> LetInside(s, at, context)
  {
    hide ThroughSequence, ForwardedTo, AnsweredWith;
    var first := ThroughSequence(s.cfg.moduleMiddlewares, at.named);
    forall second ensures first == Forwarded(second) <==> ForwardedTo(s.cfg.moduleMiddlewares, at.named, second) {
      ForwardedExactly(s.cfg.moduleMiddlewares, at.named, second);
    }
    forall second, third
      ensures ThroughSequence(at.binding.moduleMiddlewares, second) == Forwarded(third) <==>
              ForwardedTo(at.binding.moduleMiddlewares, second, third)
    {
      ForwardedExactly(at.binding.moduleMiddlewares, second, third);
    }
    forall third ensures ThroughSequence(at.own, third) == Forwarded(context) <==> ForwardedTo(at.own, third, context) {
      ForwardedExactly(at.own, third, context);
    }
  }

  lemma AnsweredInsideExactly(s: Server, at: Entry, r: Response)
    ensures Inside(s, at).Answered? && Inside(s, at).response == r <==> AnsweredInside(s, at, r)
  {
    hide ThroughSequence, ForwardedTo, AnsweredWith;
    var first := ThroughSequence(s.cfg.moduleMiddlewares, at.named);
    AnsweredExactly(s.cfg.moduleMiddlewares, at.named, r);
    forall second ensures first == Forwarded(second) <==> ForwardedTo(s.cfg.moduleMiddlewares, at.named, second) {
      ForwardedExactly(s.cfg.moduleMiddlewares, at.named, second);
    }
    if first.Forwarded? {
      AnsweredExactly(at.binding.moduleMiddlewares, first.request, r);
      forall third
        ensures ThroughSequence(at.binding.moduleMiddlewares, first.request) == Forwarded(third) <==>
                ForwardedTo(at.binding.moduleMiddlewares, first.request, third)
      {
        ForwardedExactly(at.binding.moduleMiddlewares, first.request, third);
      }
      var second := ThroughSequence(at.binding.moduleMiddlewares, first.request);
      if second.Forwarded? {
        AnsweredExactly(at.own, second.request, r);
      }
    }
  }

  // ----- The handler is reached exactly along a journey.

  lemma HasBodyExactly(cfg: Config, context: Request)
    ensures forall body :: PipedBody(cfg, context) == Ok(body) <==> HasBody(cfg, context, body)
    ensures forall e :: PipedBody(cfg, context) == Err(e) <==> HasNoBody(cfg, context, e)
  {
    hide PipedBody, PipesMake, PipesFail, HasNoValue;
    forall body ensures PipedBody(cfg, context) == Ok(body) <==> HasBody(cfg, context, body) {
      PipesExactly(cfg, context, body);
    }
    forall e ensures PipedBody(cfg, context) == Err(e) <==> HasNoBody(cfg, context, e) {
      PipesFailExactly(cfg, context, e);
    }
  }

  lemma AllCallOnExactly(s: Server, r: Request)
    ensures AllForward(ChainFor(s.cfg.interceptors, r)) <==> AllCallOn(s.cfg.interceptors, r)
  {
    hide ChainFor, IsChain;
    var chain := ChainFor(s.cfg.interceptors, r);
    ChainForExactly(s.cfg.interceptors, r, chain);
    forall c | IsChain(s.cfg.interceptors, r, c) ensures c == chain {
      ChainForExactly(s.cfg.interceptors, r, c);
    }
  }

  lemma HandlerInputExactly(s: Server, context: Request, r: Request)
    ensures HandlerInput(s, context) == Some(r) <==>
            Admitted(s.cfg, context, r.body) && r == context.(body := r.body) && AllCallOn(s.cfg.interceptors, r)
  {
    hide PipedBody, HasBody, HasNoBody, AllForward, AllCallOn, ChainFor;
    HasBodyExactly(s.cfg, context);
    AllCallOnExactly(s, r);
    assert AllPass(s.cfg.guards, context) <==> PassUpTo(s.cfg.guards, context, |s.cfg.guards|);
  }

  lemma GuardInputIsInside(s: Server, arrived: Request, binding: Binding, captures: Option<map<string, string>>)
    ensures GuardInput(s, binding, WithParams(arrived, Matched(binding, captures))) ==
            Onward(Inside(s, EntryOf(s, arrived, binding, captures)))
  {
    hide ThroughSequence, WithModuleName, MatchingMiddlewares, SelectedIds;
  }

  lemma JourneyExactly(s: Server, incoming: Request, r: Request)
    ensures Reaches(s, incoming) == Some(r) <==> Journey(s, incoming, r)
  {
    hide GlobalInput, GuardInput, HandlerInput, Inside, LetInside, OnRoute, EntryOf, Admitted, AllCallOn, WithParams;
    forall at ensures OnRoute(s, incoming, at) <==>
            && GlobalInput(s, incoming) == Some(at.arrived)
            && s.cfg.route(at.arrived) == Matched(at.binding, at.captures)
            && at == EntryOf(s, at.arrived, at.binding, at.captures)
    {
      OnRouteExactly(s, incoming, at);
    }
    var arrived := GlobalInput(s, incoming);
    if arrived.Some? && s.cfg.route(arrived.value).Matched? {
      var outcome := s.cfg.route(arrived.value);
      var at := EntryOf(s, arrived.value, outcome.binding, outcome.captures);
      EntryKeeps(s, arrived.value, outcome.binding, outcome.captures);
      assert OnRoute(s, incoming, at);
      GuardInputIsInside(s, arrived.value, outcome.binding, outcome.captures);
      forall context ensures Inside(s, at) == Forwarded(context) <==> LetInside(s, at, context) {
        LetInsideExactly(s, at, context);
      }
      forall context
        ensures HandlerInput(s, context) == Some(r) <==>
                Admitted(s.cfg, context, r.body) && r == context.(body := r.body) && AllCallOn(s.cfg.interceptors, r)
      {
        HandlerInputExactly(s, context, r);
      }
    }
  }

  lemma EntryKeeps(s: Server, arrived: Request, binding: Binding, captures: Option<map<string, string>>)
    ensures var at := EntryOf(s, arrived, binding, captures);
            at.arrived == arrived && at.binding == binding && at.captures == captures
  {
    hide WithModuleName, MatchingMiddlewares, SelectedIds;
  }

  // On the shipped chart the handler runs, once, exactly when there is a journey, and on the request it leads to.
  lemma HandlerCalledExactly(s: Server, incoming: Request)
    requires Shipped(s)
    ensures forall r :: Calls(Dispatched(s, incoming).trace) == [r] <==> Journey(s, incoming, r)
    ensures Calls(Dispatched(s, incoming).trace) == [] <==> forall r :: !Journey(s, incoming, r)
  {
    hide Dispatched, Reaches, Journey, Calls;
    HandlerRunsExactlyWhenReached(s, incoming);
    forall r ensures Reaches(s, incoming) == Some(r) <==> Journey(s, incoming, r) {
      JourneyExactly(s, incoming, r);
    }
  }

  // ----- And so is every answer.

  lemma LetOutExactly(s: Server, page: Response, r: Response)
    ensures FromInterceptors(s, page) == r <==> LetOut(s, page, r)
  {
    hide Mapped, IsEnveloped, WithHeader, HeaderSet;
    var e := Mapped(page);
    EnvelopeExactly(page, e);
    forall x | IsEnveloped(page, x) ensures x == e {
      EnvelopeExactly(page, x);
    }
    HeaderExactly(e.headers, "x-request-id", if s.live then Some(s.id) else None, r.headers);
  }

  lemma ChainReturnsExactly(s: Server, binding: Binding, request: Request, outcome: Outcome)
    ensures Folded(ChainFor(s.cfg.interceptors, request), HandlerOutcome(binding.handler(request))) == outcome <==>
            ChainReturns(s, binding, request, outcome)
  {
    hide ChainFor, HandlerOutcome, IsChain, IsOutcomeOf, Folded, AllForward, ReturnedAll, ReturnedEarly;
    var chain, handler := ChainFor(s.cfg.interceptors, request), HandlerOutcome(binding.handler(request));
    ChainForExactly(s.cfg.interceptors, request, chain);
    OutcomeExactly(binding.handler(request), handler);
    ChainExactly(chain, handler);
    assert Executed(chain, handler).Failed? ==> Executed(chain, handler) == Failed(Executed(chain, handler).error,
        AllForward(chain));
    forall c, h | IsChain(s.cfg.interceptors, request, c) && IsOutcomeOf(binding.handler(request), h)
      ensures c == chain && h == handler
    {
      ChainForExactly(s.cfg.interceptors, request, c);
      OutcomeExactly(binding.handler(request), h);
    }
    match outcome {
      case Ok(r) =>
      case Err(e) =>
    }
  }

  lemma HandlerStageResponds(s: Server, binding: Binding, request: Request, trace: seq<Event>)
    requires Shipped(s) && s.cfg.interceptors != []
    ensures HandlerStage(s, binding, request, HandlerExecution, trace).response ==
            match Folded(ChainFor(s.cfg.interceptors, request), HandlerOutcome(binding.handler(request)))
            case Ok(page) => FromInterceptors(s, page)
            case Err(e) => ExceptionResponse(s.cfg, binding, e, request)
  {
    hide Advanced, ExceptionResponse, FromInterceptors, HandlerEvents, Folded, AllForward, ChainFor, HandlerOutcome;
    ChartSteps(s.chart);
  }

  lemma HandlerStageAnswers(s: Server, binding: Binding, request: Request, trace: seq<Event>, r: Response)
    requires Shipped(s)
    ensures HandlerStage(s, binding, request, HandlerExecution, trace).response == r <==>
            HandlerAnswers(s, binding, request, r)
  {
    hide ExceptionResponse, FromInterceptors, HandlerEvents, LetOut, ChainReturns, AnswersException, Folded,
        ChainFor, HandlerOutcome, Advanced;
    if s.cfg.interceptors == [] {
      ChartSteps(s.chart);
    } else {
      hide HandlerStage;
      HandlerStageResponds(s, binding, request, trace);
      var back := Folded(ChainFor(s.cfg.interceptors, request), HandlerOutcome(binding.handler(request)));
      forall o ensures back == o <==> ChainReturns(s, binding, request, o) {
        ChainReturnsExactly(s, binding, request, o);
      }
      match back {
        case Ok(page) => LetOutExactly(s, page, r);
        case Err(e) => ExceptionExactly(s.cfg, binding, e, request, r);
      }
    }
  }

  lemma PipeStageAnswers(s: Server, binding: Binding, context: Request, trace: seq<Event>, r: Response)
    requires Shipped(s)
    ensures PipeStage(s, binding, context, PipeTransform, trace).response == r <==>
            || (exists e :: HasNoBody(s.cfg, context, e) && AnswersException(s.cfg, binding, e, context, r))
            || (exists body :: HasBody(s.cfg, context, body)
                  && HandlerAnswers(s, binding, context.(body := body), r))
  {
    hide Advanced, ExceptionResponse, HandlerStage, PipedBody, PipeTrace, HasBody, HasNoBody, AnswersException,
        HandlerAnswers;
    ChartSteps(s.chart);
    HasBodyExactly(s.cfg, context);
    match PipedBody(s.cfg, context) {
      case Err(e) => ExceptionExactly(s.cfg, binding, e, context, r);
      case Ok(body) =>
        var piped := if s.cfg.pipes == [] then trace else trace + PipeTrace(Some(PipeTransform), s.cfg, context);
        HandlerStageAnswers(s, binding, context.(body := body), piped, r);
    }
  }

  lemma GuardStageResponds(s: Server, binding: Binding, context: Request, trace: seq<Event>)
    requires Shipped(s)
    ensures var response := GuardStage(s, binding, context, GuardChain, trace).response;
            match Guarded(s.cfg.guards, context)
            case Denied => response == SummaryResponse(HttpException(403, "request denied by guard"))
            case Error(e) => response == ExceptionResponse(s.cfg, binding, e, context)
            case Passed =>
              response == PipeStage(s, binding, context, PipeTransform,
                                    trace + GuardTrace(Some(GuardChain), s.cfg.guards, context, 0)).response
  {
    hide ExceptionResponse, PipeStage, Guarded, GuardTrace, SummaryResponse, ErrorPage;
  }

  lemma GuardStageAnswers(s: Server, binding: Binding, context: Request, trace: seq<Event>, r: Response)
    requires Shipped(s)
    ensures GuardStage(s, binding, context, GuardChain, trace).response == r <==> AnswersTo(s, binding, context, r)
  {
    hide ExceptionResponse, GuardStage, PipeStage, Guarded, GuardTrace, HasBody, HasNoBody, AnswersException,
        HandlerAnswers, DeniedAt, FailedAt, PassUpTo, SummaryResponse, IsSummary, Shipped;
    GuardsExactly(s.cfg.guards, context);
    GuardStageResponds(s, binding, context, trace);
    match Guarded(s.cfg.guards, context) {
      case Denied => SummaryExactly(HttpException(403, "request denied by guard"), r);
      case Error(e) => ExceptionExactly(s.cfg, binding, e, context, r);
      case Passed =>
        PipeStageAnswers(s, binding, context, trace + GuardTrace(Some(GuardChain), s.cfg.guards, context, 0), r);
    }
  }

  lemma MiddlewareStageAnswers(s: Server, at: Entry, trace: seq<Event>, r: Response)
    requires Shipped(s)
    requires s.cfg.route(at.arrived) == Matched(at.binding, at.captures)
    requires at == EntryOf(s, at.arrived, at.binding, at.captures)
    ensures MiddlewareStage(s, at.binding, WithParams(at.arrived, s.cfg.route(at.arrived)), GuardChain, trace).response
            == r <==>
            AnsweredInside(s, at, r)
            || (exists context :: LetInside(s, at, context) && AnswersTo(s, at.binding, context, r))
  {
    hide GuardStage, ThroughSequence, SequenceTrace, MatchingMiddlewares, SelectedIds, WithModuleName, AnsweredInside,
        LetInside, AnswersTo;
    AnsweredInsideExactly(s, at, r);
    forall context ensures Inside(s, at) == Forwarded(context) <==> LetInside(s, at, context) {
      LetInsideExactly(s, at, context);
    }
    if Inside(s, at).Forwarded? {
      forall t ensures GuardStage(s, at.binding, Inside(s, at).request, GuardChain, t).response == r <==>
                       AnswersTo(s, at.binding, Inside(s, at).request, r)
      {
        GuardStageAnswers(s, at.binding, Inside(s, at).request, t, r);
      }
    }
  }

  lemma RouteRefusesExactly(outcome: RouteOutcome, r: Response)
    ensures outcome.NotFound? ==> (NewResponse(404, Text("not found")) == r <==> RouteRefuses(outcome, r))
    ensures outcome.MethodNotAllowed? ==>
              var page := NewResponse(405, Text("method not allowed"));
              page.(headers := WithHeader(page.headers, "allow", outcome.allowed)) == r <==> RouteRefuses(outcome, r)
    ensures outcome.Matched? ==> !RouteRefuses(outcome, r)
  {
    hide WithHeader, HeaderSet;
    if outcome.MethodNotAllowed? {
      var page := NewResponse(405, Text("method not allowed"));
      assert IsPage(page, 405, "method not allowed");
      HeaderExactly(page.headers, "allow", Some(outcome.allowed), r.headers);
    }
  }

  lemma ParseStageAnswers(s: Server, incoming: Request, arrived: Request, trace: seq<Event>, r: Response)
    requires Shipped(s) && GlobalInput(s, incoming) == Some(arrived)
    ensures ParseStage(s, arrived, trace).response == r <==> ArrivedAnswer(s, incoming, r)
  {
    hide GlobalInput, Arrives, OnRoute, EntryOf, AnsweredInside, LetInside, AnswersTo, RouteRefuses, MiddlewareStage,
        NewResponse, WithHeader, WithParams;
    forall a ensures GlobalInput(s, incoming) == Some(a) <==> Arrives(s, incoming, a) {
      ArrivesExactly(s, incoming, a);
    }
    forall at ensures OnRoute(s, incoming, at) <==>
            && GlobalInput(s, incoming) == Some(at.arrived)
            && s.cfg.route(at.arrived) == Matched(at.binding, at.captures)
            && at == EntryOf(s, at.arrived, at.binding, at.captures)
    {
      OnRouteExactly(s, incoming, at);
    }
    var outcome := s.cfg.route(arrived);
    RouteRefusesExactly(outcome, r);
    if outcome.Matched? {
      var at := EntryOf(s, arrived, outcome.binding, outcome.captures);
      EntryKeeps(s, arrived, outcome.binding, outcome.captures);
      assert OnRoute(s, incoming, at);
      MiddlewareStageAnswers(s, at, trace + [Routed(Some(RouteMatching), true)], r);
    }
  }

  // On the shipped chart a dispatch is answered with `r` exactly when one of the parts of the server
  // answers so, on the request as it has come to it.
  lemma AnsweredExactlyBy(s: Server, incoming: Request, r: Response)
    requires Shipped(s)
    ensures Dispatched(s, incoming).response == r <==> Answer(s, incoming, r)
  {
    hide ParseStage, Seeded, Enters, ThroughMiddleware, Arrives, OnRoute, AnsweredInside, LetInside, AnswersTo,
        RouteRefuses, Advanced, ErrorPage;
    ChartSteps(s.chart);
    forall a ensures GlobalInput(s, incoming) == Some(a) <==> Arrives(s, incoming, a) {
      ArrivesExactly(s, incoming, a);
    }
    forall first ensures Seeded(s, incoming) == first <==> Enters(s, incoming, first) {
      SeededExactly(s, incoming, first);
    }
    forall at ensures OnRoute(s, incoming, at) ==> GlobalInput(s, incoming) == Some(at.arrived) {
      OnRouteExactly(s, incoming, at);
    }
    var first := Seeded(s, incoming);
    match s.cfg.middleware {
      case None => ParseStageAnswers(s, incoming, first, [], r);
      case Some(m) =>
        GlobalExactly(m, first);
        match ThroughMiddleware(m, first) {
          case Forwarded(next) => ParseStageAnswers(s, incoming, next, [MiddlewareRan(None, Global, 0, true)], r);
          case Answered(_, _) =>
        }
    }
  }

  // The response a caller gets: that answer, with the request's id and the headers for cross-origin access.
  lemma FinalAnswerExactly(s: Server, incoming: Request, final: Response)
    requires Shipped(s)
    ensures FinalResponse(s, incoming) == final <==>
            exists r :: Answer(s, incoming, r) && IsFinal(r, s.cfg.cors, incoming, s.id, final)
  {
    hide Dispatched, Answer, Finalized, IsFinal, Origin;
    forall r ensures Dispatched(s, incoming).response == r <==> Answer(s, incoming, r) {
      AnsweredExactlyBy(s, incoming, r);
    }
    FinalExactly(Dispatched(s, incoming).response, s.cfg.cors, incoming, s.id, final);
  }
}
