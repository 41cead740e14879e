/** The request statechart (statecharts/nivasa.request.scxml) and the engine that follows it. */
module RequestChart {
  import opened Results

  datatype State =
    | Received
    | MiddlewareChain
    | RouteMatching
    | GuardChain
    | InterceptorPre
    | PipeTransform
    | HandlerExecution
    | InterceptorPost
    | ErrorHandling
    | SendingResponse
    | Finished

  datatype ChartEvent =
    | RequestParsed
    | ErrorParse
    | MiddlewareComplete
    | ErrorMiddleware
    | RouteMatched
    | RouteNotFound
    | RouteMethodNotAllowed
    | GuardsPassed
    | GuardDenied
    | ErrorGuard
    | InterceptorsPreComplete
    | ErrorInterceptor
    | PipesComplete
    | ErrorValidation
    | ErrorPipe
    | HandlerComplete
    | ErrorHandler
    | InterceptorsPostComplete
    | ErrorInterceptorPost
    | FilterHandled
    | ErrorFilterUnhandled
    | ResponseSent
    | ErrorSend

  // A transition table; None is a transition the engine refuses.
  type Chart = (State, ChartEvent) -> Option<State>

  function Transition(s: State, e: ChartEvent): Option<State> {
    match (s, e)
    case (Received, RequestParsed) => Some(MiddlewareChain)
    case (Received, ErrorParse) => Some(ErrorHandling)
    case (MiddlewareChain, MiddlewareComplete) => Some(RouteMatching)
    case (MiddlewareChain, ErrorMiddleware) => Some(ErrorHandling)
    case (RouteMatching, RouteMatched) => Some(GuardChain)
    case (RouteMatching, RouteNotFound) => Some(ErrorHandling)
    case (RouteMatching, RouteMethodNotAllowed) => Some(ErrorHandling)
    case (GuardChain, GuardsPassed) => Some(InterceptorPre)
    case (GuardChain, GuardDenied) => Some(ErrorHandling)
    case (GuardChain, ErrorGuard) => Some(ErrorHandling)
    case (InterceptorPre, InterceptorsPreComplete) => Some(PipeTransform)
    case (InterceptorPre, ErrorInterceptor) => Some(ErrorHandling)
    case (PipeTransform, PipesComplete) => Some(HandlerExecution)
    case (PipeTransform, ErrorValidation) => Some(ErrorHandling)
    case (PipeTransform, ErrorPipe) => Some(ErrorHandling)
    case (HandlerExecution, HandlerComplete) => Some(InterceptorPost)
    case (HandlerExecution, ErrorInterceptor) => Some(ErrorHandling)
    case (HandlerExecution, ErrorHandler) => Some(ErrorHandling)
    case (InterceptorPost, InterceptorsPostComplete) => Some(SendingResponse)
    case (InterceptorPost, ErrorInterceptorPost) => Some(ErrorHandling)
    case (ErrorHandling, FilterHandled) => Some(SendingResponse)
    case (ErrorHandling, ErrorFilterUnhandled) => Some(SendingResponse)
    case (SendingResponse, ResponseSent) => Some(Finished)
    case (SendingResponse, ErrorSend) => Some(Finished)
    case _ => None
  }
}
