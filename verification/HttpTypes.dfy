/** Requests, responses and the pluggable parts of the server. Library calls (JSON, UTF-8, route
    tables, header syntax) are fields of the configuration. */
module HttpTypes {
  import opened Results

  // JSON values stay opaque, except for those the dispatcher builds or takes apart itself.
  datatype Json =
    | Null
    | Str(text: string)
    | Other(text: string)
    | Numbers(items: seq<nat>)
    | Data(value: Json)
    | Summary(statusCode: nat, message: string)

  datatype Body = Empty | Text(text: string) | Html(text: string) | JsonBody(value: Json) | Raw(items: seq<nat>)

  type Headers = map<string, string>

  datatype Request = Request(
    method_: string,
    path: string,
    headers: Headers,
    body: Body,
    params: Option<map<string, string>>)

  datatype Response = Response(status: nat, body: Body, headers: Headers)

  datatype HttpException = HttpException(status: nat, message: string)

  type Outcome = Result<Response, HttpException>

  const REQUEST_ID := "x-request-id"
  const MODULE_NAME := "x-module-name"
  const CONTENT_TYPE := "content-type"
  const ALLOW := "allow"
  const ORIGIN := "origin"
  const ALLOW_ORIGIN := "access-control-allow-origin"
  const ALLOW_CREDENTIALS := "access-control-allow-credentials"

  // `HeaderValue::from_str`: visible ASCII, spaces and tabs.
  predicate ValidHeaderValue(v: string) {
    forall i :: 0 <= i < |v| ==> v[i] == '\t' || 32 <= v[i] as int < 127
  }

  // Insert replaces; an invalid value leaves the headers as they are.
  function WithHeader(h: Headers, name: string, value: string): Headers {
    if ValidHeaderValue(value) then h[name := value] else h
  }

  function DefaultContentType(b: Body): Option<string> {
    match b
    case Empty => None
    case Text(_) => Some("text/plain; charset=utf-8")
    case Html(_) => Some("text/html; charset=utf-8")
    case JsonBody(_) => Some("application/json")
    case Raw(_) => Some("application/octet-stream")
  }

  // `NivasaResponse::new`
  function NewResponse(status: nat, body: Body): Response {
    match DefaultContentType(body)
    case None => Response(status, body, map[])
    case Some(t) => Response(status, body, map[CONTENT_TYPE := t])
  }

  function ErrorPage(text: string): Response {
    NewResponse(500, Text(text))
  }

  // `HttpExceptionSummary::into_response`
  function SummaryResponse(e: HttpException): Response {
    NewResponse(e.status, JsonBody(Summary(e.status, e.message)))
  }

  // ----- Pluggable parts. Each is a function of what it is given.

  // What a middleware does with a request: the requests it passes to `next`, in order, and its response.
  datatype Conduct = Conduct(passed: seq<Request>, response: Response)

  type Middleware = Request -> Conduct

  type Guard = Request -> Result<bool, HttpException>

  type Pipe = Json -> Result<Json, HttpException>

  // An interceptor answers at once, or calls next once and works on what it returns.
  datatype Interception = Early(outcome: Outcome) | Around(finish: Outcome -> Outcome)

  datatype InterceptorContext = InterceptorContext(method_: string, path: string)

  type Interceptor = InterceptorContext -> Interception

  // None: the handler panicked.
  type Handler = Request -> Option<Response>

  // None from `handle`: the filter panicked.
  datatype Filter = Filter(
    exceptionType: Option<string>,
    catchAll: bool,
    handle: (HttpException, Request) -> Option<Response>)

  datatype Binding = Binding(
    handler: Handler,
    moduleName: Option<string>,
    moduleMiddlewares: seq<Middleware>,
    handlerFilters: seq<Filter>,
    controllerFilters: seq<Filter>)

  datatype RouteOutcome =
    | Matched(binding: Binding, captures: Option<map<string, string>>)
    | NotFound
    | MethodNotAllowed(allowed: string)

  datatype RouteMiddleware = RouteMiddleware(applies: string -> bool, excluded: seq<string -> bool>,
      middleware: Middleware)

  datatype Cors = Cors(allowOrigin: Option<string> -> Option<string>, allowCredentials: Option<string>)

  datatype Codec = Codec(
    looksJson: Request -> bool,
    parseJson: string -> Option<Json>,
    decodeUtf8: seq<nat> -> Option<string>)

  datatype Config = Config(
    middleware: Option<Middleware>,
    moduleMiddlewares: seq<Middleware>,
    routeMiddlewares: seq<RouteMiddleware>,
    guards: seq<Guard>,
    pipes: seq<Pipe>,
    interceptors: seq<Interceptor>,
    filters: seq<Filter>,
    cors: Option<Cors>,
    route: Request -> RouteOutcome,
    moduleNameFor: Request -> Option<string>,
    codec: Codec)
}
