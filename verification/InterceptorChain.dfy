/** The recursive interceptor chain around a route handler. */
module InterceptorChain {
  import opened Results
  import opened HttpTypes

  datatype ChainEvent = Enter(index: nat) | Leave(index: nat) | HandlerRan

  // ----- What the chain means: the interceptors folded around the handler, from the right.

  function Folded(chain: seq<Interception>, handler: Outcome): Outcome {
    if chain == [] then handler
    else
      match chain[0]
      case Early(outcome) => outcome
      case Around(finish) => finish(Folded(chain[1..], handler))
  }

  predicate AllForward(chain: seq<Interception>) {
    forall i :: 0 <= i < |chain| ==> chain[i].Around?
  }

  // Events of the chain from its interceptor number `index` on.
  function ChainTrace(chain: seq<Interception>, index: nat): seq<ChainEvent> {
    if chain == [] then [HandlerRan]
    else if chain[0].Early? then [Enter(index), Leave(index)]
    else [Enter(index)] + ChainTrace(chain[1..], index + 1) + [Leave(index)]
  }

  // A panicking handler becomes an exception inside the chain.
  function HandlerOutcome(run: Option<Response>): Outcome {
    match run
    case Some(response) => Ok(response)
    case None => Err(HttpException(500, "request handler failed"))
  }

  /** One request's walk through the chain: the flag the innermost call sets, and the events so far. */
  class ChainRun {
    const chain: seq<Interception>
    const handler: Handler
    const request: Request
    var handlerCalled: bool
    var trace: seq<ChainEvent>

    constructor (chain: seq<Interception>, handler: Handler, request: Request)
      ensures this.chain == chain && this.handler == handler && this.request == request
      ensures !handlerCalled && trace == []
    {
      this.chain, this.handler, this.request := chain, handler, request;
      handlerCalled, trace := false, [];
    }

    // The call handler at `index`: the next interceptor, or the route handler after the last one.
    method Handle(index: nat) returns (outcome: Outcome)
      requires index <= |chain|
      modifies this
      ensures outcome == Folded(chain[index..], HandlerOutcome(handler(request)))
      ensures trace == old(trace) + ChainTrace(chain[index..], index)
      ensures handlerCalled == (old(handlerCalled) || AllForward(chain[index..]))
      decreases |chain| - index
    {
      hide AllForward, Folded, ChainTrace;
      ghost var rest := chain[index..];
      ghost var answer := HandlerOutcome(handler(request));
      EmptyChain(answer, index);
      if index == |chain| {
        assert rest == [];
        handlerCalled := true;
        trace := trace + [HandlerRan];
        return HandlerOutcome(handler(request));
      }
      assert rest[0] == chain[index] && rest[1..] == chain[index + 1..];
      ForwardSplits(rest);
      ChainStep(rest, answer, index);
      trace := trace + [Enter(index)];
      match chain[index] {
        case Early(early) =>
          outcome := early;
        case Around(finish) =>
          var inner := Handle(index + 1);
          outcome := finish(inner);
      }
      trace := trace + [Leave(index)];
    }
  }

  function Interceptions(interceptors: seq<Interceptor>, context: InterceptorContext): (chain: seq<Interception>)
    ensures |chain| == |interceptors|
    ensures forall i :: 0 <= i < |chain| ==> chain[i] == interceptors[i](context)
  {
    seq(|interceptors|, i requires 0 <= i < |interceptors| => interceptors[i](context))
  }

  lemma EmptyForwards()
    ensures AllForward([])
  {
  }

  lemma EmptyChain(handler: Outcome, index: nat)
    ensures AllForward([]) && Folded([], handler) == handler && ChainTrace([], index) == [HandlerRan]
  {
  }

  lemma ChainStep(chain: seq<Interception>, handler: Outcome, index: nat)
    requires chain != []
    ensures chain[0].Early? ==>
              Folded(chain, handler) == chain[0].outcome && ChainTrace(chain, index) == [Enter(index)] + [Leave(index)]
    ensures chain[0].Around? ==>
              && Folded(chain, handler) == chain[0].finish(Folded(chain[1..], handler))
              && ChainTrace(chain, index) == [Enter(index)] + ChainTrace(chain[1..], index + 1) + [Leave(index)]
  {
  }

  lemma ForwardSplits(chain: seq<Interception>)
    requires chain != []
    ensures AllForward(chain) <==> chain[0].Around? && AllForward(chain[1..])
  {
    assert forall i :: 0 < i < |chain| ==> chain[i] == chain[1..][i - 1];
  }

  // ----- How the run is classified.

  datatype Execution =
    | Completed(response: Response)
    | ShortCircuited(response: Response)
    | Failed(error: HttpException, handlerCalled: bool)

  function Executed(chain: seq<Interception>, handler: Outcome): Execution {
    match Folded(chain, handler)
    case Ok(response) => if AllForward(chain) then Completed(response) else ShortCircuited(response)
    case Err(error) => Failed(error, AllForward(chain))
  }

  function ChainFor(interceptors: seq<Interceptor>, request: Request): seq<Interception> {
    Interceptions(interceptors, InterceptorContext(request.method_, request.path))
  }

  method ExecuteInterceptors(interceptors: seq<Interceptor>, request: Request, handler: Handler)
    returns (execution: Execution, trace: seq<ChainEvent>)
    ensures execution == Executed(ChainFor(interceptors, request), HandlerOutcome(handler(request)))
    ensures trace == ChainTrace(ChainFor(interceptors, request), 0)
  {
    var chain := ChainFor(interceptors, request);
    var run := new ChainRun(chain, handler, request);
    assert chain[0..] == chain;
    var outcome := run.Handle(0);
    trace := run.trace;
    match outcome {
      case Ok(response) =>
        execution := if run.handlerCalled then Completed(response) else ShortCircuited(response);
      case Err(error) =>
        execution := Failed(error, run.handlerCalled);
    }
  }

  // ----- Nesting.

  function Enters(from: nat, n: nat): seq<ChainEvent>
    decreases n
  {
    if n == 0 then [] else [Enter(from)] + Enters(from + 1, n - 1)
  }

  function Leaves(from: nat, n: nat): seq<ChainEvent>
    decreases n
  {
    if n == 0 then [] else Leaves(from + 1, n - 1) + [Leave(from)]
  }

  // How many interceptors are entered: all up to and including the first that does not call next.
  function Entered(chain: seq<Interception>): (n: nat)
    ensures n <= |chain|
  {
    if chain == [] then 0 else if chain[0].Early? then 1 else 1 + Entered(chain[1..])
  }

  // Entered in order, left in reverse, and the handler in the middle exactly when all forwarded.
  lemma {:induction false} WellNested(chain: seq<Interception>, index: nat)
    ensures ChainTrace(chain, index) ==
            Enters(index, Entered(chain))
            + (if AllForward(chain) then [HandlerRan] else [])
            + Leaves(index, Entered(chain))
    decreases |chain|
  {
    hide AllForward;
    EmptyForwards();
    if chain != [] {
      ForwardSplits(chain);
      var n := Entered(chain);
      var middle := if AllForward(chain) then [HandlerRan] else [];
      if chain[0].Early? {
        NestingStep(index, 0, middle, [Enter(index)] + [] + [Leave(index)]);
      } else {
        WellNested(chain[1..], index + 1);
        NestingStep(index, n - 1, middle, ChainTrace(chain, index));
      }
    }
  }

  lemma NestingStep(index: nat, n: nat, middle: seq<ChainEvent>, trace: seq<ChainEvent>)
    requires trace == [Enter(index)] + (Enters(index + 1, n) + middle + Leaves(index + 1, n)) + [Leave(index)]
    ensures trace == Enters(index, n + 1) + middle + Leaves(index, n + 1)
  {
  }

  function HandlerRuns(trace: seq<ChainEvent>): nat {
    if trace == [] then 0 else (if trace[0].HandlerRan? then 1 else 0) + HandlerRuns(trace[1..])
  }

  lemma {:induction false} HandlerRunsConcat(a: seq<ChainEvent>, b: seq<ChainEvent>)
    ensures HandlerRuns(a + b) == HandlerRuns(a) + HandlerRuns(b)
  {
    if a == [] {
      assert a + b == b;
    } else {
      assert (a + b)[1..] == a[1..] + b;
      HandlerRunsConcat(a[1..], b);
    }
  }

  // The handler runs once when every interceptor forwarded, and otherwise not at all.
  lemma {:induction false} HandlerRunsOnce(chain: seq<Interception>, index: nat)
    ensures HandlerRuns(ChainTrace(chain, index)) == if AllForward(chain) then 1 else 0
    decreases |chain|
  {
    if chain == [] {
      assert [HandlerRan][1..] == [];
    } else {
      ForwardSplits(chain);
      if chain[0].Early? {
        HandlerRunsConcat([Enter(index)], [Leave(index)]);
        assert [Enter(index), Leave(index)] == [Enter(index)] + [Leave(index)];
        assert [Enter(index)][1..] == [] && [Leave(index)][1..] == [];
      } else {
        HandlerRunsOnce(chain[1..], index + 1);
        var inner := ChainTrace(chain[1..], index + 1);
        HandlerRunsConcat([Enter(index)], inner);
        HandlerRunsConcat([Enter(index)] + inner, [Leave(index)]);
        assert [Enter(index)][1..] == [] && [Leave(index)][1..] == [];
      }
    }
  }

  // A short circuit is an answer given without the handler; a completion is one given after it.
  lemma ClassifiedByHandler(chain: seq<Interception>, handler: Outcome)
    ensures var e := Executed(chain, handler);
            var runs := HandlerRuns(ChainTrace(chain, 0));
            && (e.Completed? ==> runs == 1)
            && (e.ShortCircuited? ==> runs == 0)
            && (e.Failed? ==> (e.handlerCalled <==> runs == 1))
            && (e.Failed? <==> Folded(chain, handler).Err?)
  {
    HandlerRunsOnce(chain, 0);
  }

  // With interceptors that only pass the result on, the answer is the handler's own.
  lemma {:induction false} TransparentChain(chain: seq<Interception>, handler: Outcome)
    requires forall i :: 0 <= i < |chain| ==> chain[i].Around? && chain[i].finish(handler) == handler
    ensures Folded(chain, handler) == handler
  {
    if chain != [] {
      TransparentChain(chain[1..], handler);
    }
  }

  // The interceptors before an early answer work on that answer; those after it do not matter.
  lemma {:induction false} AfterEarly(front: seq<Interception>, early: Outcome, rest: seq<Interception>,
      handler: Outcome)
    ensures Folded(front + [Early(early)] + rest, handler) == Folded(front, early)
    decreases |front|
  {
    if front == [] {
      assert (front + [Early(early)] + rest)[0] == Early(early);
    } else {
      assert (front + [Early(early)] + rest)[1..] == front[1..] + [Early(early)] + rest;
      AfterEarly(front[1..], early, rest, handler);
    }
  }
}
