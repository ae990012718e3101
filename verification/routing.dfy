/** The router object `Velix` (Velix.php:144-249): routes are registered per
    HTTP method and compiled at once; `dispatch` normalises the request path,
    tries the method's routes in registration order, binds the first
    matching handler's parameters and sends its result as JSON, or falls back
    to the index page or a 404. */
module Routing {
  import opened Text
  import opened Templates
  import opened UrlCodec
  import opened Matching
  import opened Http

  /** A declared parameter type: its name and whether PHP calls it built in. */
  datatype TypeDecl = TypeDecl(name: string, builtin: bool)

  /** One parameter of a handler, as reflection reports it. */
  datatype ParamDecl = ParamDecl(name: string, typ: Option<TypeDecl>)

  /** What the binder passes for one parameter. */
  datatype Arg = ReqArg(req: Request) | ResArg | StrArg(s: string) | NullArg

  /** A call a handler makes on the response it was given. */
  datatype ResOp =
    | OpHeader(name: string, text: string)
    | OpCookie(cname: string, value: Value, opts: CookieOptions)
    | OpStatus(code: int)
    | OpJson(data: Value)
    | OpSend(body: string)

  /** What running a handler body does: its calls on the response, in order,
      and the value it returns. */
  datatype HandlerRun = HandlerRun(ops: seq<ResOp>, result: Value)

  /** A handler: its declared parameters and its body, taken as a function of
      the arguments it receives. */
  datatype Handler = Handler(params: seq<ParamDecl>, body: seq<Arg> -> HandlerRun)

  datatype Route = Route(pattern: seq<Token>, handler: Handler)

  /** `$this->routes`: the route list of each HTTP method. */
  type Routes = map<string, seq<Route>>

  function RoutesFor(routes: Routes, m: string): seq<Route> {
    if m in routes then routes[m] else []
  }

  /** `handlerRouter`: compile the template and append the route to its
      method's list. */
  function Register(routes: Routes, m: string, path: string, h: Handler): (r: Routes)
    ensures |RoutesFor(r, m)| == |RoutesFor(routes, m)| + 1
    ensures RoutesFor(r, m)[..|RoutesFor(routes, m)|] == RoutesFor(routes, m)
    ensures RoutesFor(r, m)[|RoutesFor(routes, m)|] == Route(Compile(path), h)
    ensures forall m' :: m' != m ==> RoutesFor(r, m') == RoutesFor(routes, m')
  {
    routes[m := RoutesFor(routes, m) + [Route(Compile(path), h)]]
  }

  // ---- Dispatch, as a specification ----

  /** The request as `dispatch` reads it. `uriPath` is the path component
      that `parse_url` extracted from `REQUEST_URI` ("/" when it is unset);
      `decoded` is what `json_decode` made of the request body; `index` holds
      the index page's contents when that file exists. */
  datatype Env = Env(
    requestMethod: Option<string>,
    uriPath: string,
    query: map<string, Value>,
    post: map<string, Value>,
    headers: seq<(string, string)>,
    decoded: Value,
    index: Option<string>)

  /** What the script ends with: a transcript written through `http_response_code`,
      `header`, `setcookie` and `echo`, or nothing when the handler returns null
      without sending. */
  datatype Outcome = Sent(t: Transcript) | Silent

  function MethodOf(env: Env): string {
    if env.requestMethod.Some? then env.requestMethod.value else "GET"
  }

  /** The captures of a match pair up with the placeholder names, which are
      distinct; each capture is a non-empty run of non-`/` bytes. */
  lemma CaptureArity(ts: seq<Token>, path: string)
    requires Match(ts, path).Some?
    ensures |Match(ts, path).value| == |Names(ts)| && Distinct(Names(ts))
    ensures forall i :: 0 <= i < |Names(ts)| ==> ValidCapture(Match(ts, path).value[i])
  {
    MatchSound(Atoms(ts), path);
    AtomsNames(ts);
  }

  /** The first route, from position `i` on, whose pattern matches `path`. */
  function FirstMatchFrom(rs: seq<Route>, path: string, i: nat): (r: Option<(nat, seq<string>)>)
    requires i <= |rs|
    ensures r.Some? ==> i <= r.value.0 < |rs| && Match(rs[r.value.0].pattern, path) == Some(r.value.1)
    ensures r.Some? ==> |r.value.1| == |Names(rs[r.value.0].pattern)| && Distinct(Names(rs[r.value.0].pattern))
    ensures r.Some? ==> forall j :: i <= j < r.value.0 ==> Match(rs[j].pattern, path).None?
    ensures r.None? ==> forall j :: i <= j < |rs| ==> Match(rs[j].pattern, path).None?
    decreases |rs| - i
  {
    if i == |rs| then None
    else match Match(rs[i].pattern, path)
      case Some(vs) => CaptureArity(rs[i].pattern, path); Some((i, vs))
      case None => FirstMatchFrom(rs, path, i + 1)
  }

  /** The path-parameter map built from the named groups, in group order. */
  function ToMap(names: seq<string>, vals: seq<string>): (m: map<string, string>)
    requires |names| == |vals|
    ensures m.Keys == set n | n in names
    decreases |names|
  {
    if names == [] then map[]
    else
      var k := |names| - 1;
      ToMap(names[..k], vals[..k])[names[k] := vals[k]]
  }

  /** With distinct names, each name maps to its own capture. */
  lemma {:induction false} ToMapAt(names: seq<string>, vals: seq<string>, i: nat)
    requires |names| == |vals| && Distinct(names) && i < |names|
    ensures ToMap(names, vals)[names[i]] == vals[i]
    decreases |names|
  {
    var k := |names| - 1;
    if i < k {
      assert names[..k][i] == names[i] && vals[..k][i] == vals[i];
      ToMapAt(names[..k], vals[..k], i);
    }
  }

  function IsRequestName(n: string): bool {
    n == "req" || n == "request"
  }

  function IsResponseName(n: string): bool {
    n == "res" || n == "response"
  }

  /** The argument bound to one parameter (Velix.php:203-223). */
  function BindOne(p: ParamDecl, req: Request, params: map<string, string>): Arg {
    if p.typ.Some? && !p.typ.value.builtin && p.typ.value.name == "Request" then ReqArg(req)
    else if p.typ.Some? && !p.typ.value.builtin && p.typ.value.name == "Response" then ResArg
    else if IsRequestName(p.name) then ReqArg(req)
    else if IsResponseName(p.name) then ResArg
    else if p.name in params then StrArg(params[p.name])
    else NullArg
  }

  /** One argument per declared parameter, in declaration order. */
  function Bind(ps: seq<ParamDecl>, req: Request, params: map<string, string>): seq<Arg> {
    seq(|ps|, i requires 0 <= i < |ps| => BindOne(ps[i], req, params))
  }

  /** A call that only changes the response (`header`, `cookie`, `status`). */
  predicate Ends(op: ResOp) {
    op.OpJson? || op.OpSend?
  }

  function Step(st: ResState, op: ResOp): ResState
    requires !Ends(op)
  {
    match op
    case OpHeader(n, v) => st.(headers := SetHeader(st.headers, n, v))
    case OpCookie(n, v, o) => st.(cookies := st.cookies + [MakeCookie(n, v, o)])
    case OpStatus(c) => st.(status := c)
  }

  /** The handler's calls on the response, then its result: the first `json`
      or `send` ends the script; otherwise a non-null result is sent as JSON. */
  function RunOps(ops: seq<ResOp>, st: ResState, result: Value): Outcome
    decreases |ops|
  {
    if ops == [] then
      if result != Null then Sent(EmitJson(st, result)) else Silent
    else match ops[0]
      case OpJson(d) => Sent(EmitJson(st, d))
      case OpSend(b) => Sent(Emit(st, Raw(b)))
      case _ => RunOps(ops[1..], Step(st, ops[0]), result)
  }

  function Invoke(h: Handler, req: Request, params: map<string, string>): Outcome {
    var run := h.body(Bind(h.params, req, params));
    RunOps(run.ops, Fresh(), run.result)
  }

  /** No route matched: the index page with 200, or a 404. */
  function Fallback(index: Option<string>): Outcome {
    match index
    case Some(page) => Sent(Transcript(200, [], [], Raw(page)))
    case None => Sent(Transcript(404, [], [], Raw("404 Not Found")))
  }

  /** What `dispatch` does with the request `env`. */
  function DispatchSpec(routes: Routes, env: Env): Outcome {
    var m := MethodOf(env);
    var path := NormalizePath(env.uriPath);
    var rs := RoutesFor(routes, m);
    match FirstMatchFrom(rs, path, 0)
    case None => Fallback(env.index)
    case Some((i, vs)) =>
      var params := ToMap(Names(rs[i].pattern), vs);
      Invoke(rs[i].handler, NewRequest(m, path, params, env.query, env.post, env.headers, env.decoded), params)
  }

  // ---- The imperative router ----

  /** Applies one `header`, `cookie` or `status` call to the response object. */
  method Apply(res: Response, op: ResOp)
    requires res.Valid() && !res.sent && !Ends(op)
    modifies res
    ensures res.Valid() && !res.sent
    ensures res.State() == Step(old(res.State()), op)
  {
    match op {
      case OpHeader(n, v) =>
        var _ := res.Header(n, v);
      case OpCookie(n, v, o) =>
        var _ := res.Cookie(n, v, o);
      case OpStatus(c) =>
        var _ := res.Status(c);
    }
  }

  /** The handler's calls from the `k`-th on: that call first. */
  lemma RunOpsAt(ops: seq<ResOp>, k: nat, st: ResState, result: Value)
    requires k < |ops|
    ensures RunOps(ops[k..], st, result) ==
      match ops[k]
      case OpJson(d) => Sent(EmitJson(st, d))
      case OpSend(b) => Sent(Emit(st, Raw(b)))
      case _ => RunOps(ops[k + 1..], Step(st, ops[k]), result)
  {
    assert ops[k..][0] == ops[k] && ops[k..][1..] == ops[k + 1..];
  }

  /** Applies a handler's calls to the response object, one at a time. */
  method Run(res: Response, ops: seq<ResOp>, result: Value) returns (out: Outcome)
    requires res.Valid() && !res.sent
    modifies res
    ensures out == RunOps(ops, old(res.State()), result)
    ensures out.Sent? <==> res.sent
  {
    var k := 0;
    while k < |ops|
      invariant 0 <= k <= |ops|
      invariant res.Valid() && !res.sent
      invariant RunOps(ops, old(res.State()), result) == RunOps(ops[k..], res.State(), result)
    {
      RunOpsAt(ops, k, res.State(), result);
      if ops[k].OpJson? {
        var t := res.Json(ops[k].data);
        out := Sent(t);
        return;
      } else if ops[k].OpSend? {
        var t := res.Send(Raw(ops[k].body));
        out := Sent(t);
        return;
      }
      Apply(res, ops[k]);
      k := k + 1;
    }
    if result != Null {
      var t := res.Json(result);
      out := Sent(t);
    } else {
      out := Silent;
    }
  }

  /** Builds `$params` from the named groups, one at a time. */
  method CollectParams(names: seq<string>, vs: seq<string>) returns (params: map<string, string>)
    requires |names| == |vs|
    ensures params == ToMap(names, vs)
  {
    params := map[];
    var j := 0;
    while j < |names|
      invariant 0 <= j <= |names|
      invariant params == ToMap(names[..j], vs[..j])
    {
      assert names[..j + 1][..j] == names[..j] && vs[..j + 1][..j] == vs[..j];
      params := params[names[j] := vs[j]];
      j := j + 1;
    }
    assert names[..j] == names && vs[..j] == vs;
  }

  /** Builds `$args`, one argument per declared parameter. */
  method BindArgs(ps: seq<ParamDecl>, req: Request, params: map<string, string>) returns (args: seq<Arg>)
    ensures args == Bind(ps, req, params)
  {
    args := [];
    var k := 0;
    while k < |ps|
      invariant 0 <= k <= |ps|
      invariant |args| == k
      invariant forall q :: 0 <= q < k ==> args[q] == BindOne(ps[q], req, params)
    {
      args := args + [BindOne(ps[k], req, params)];
      k := k + 1;
    }
  }

  /** Calls the handler with a fresh response and finishes the script. */
  method Handle(h: Handler, req: Request, params: map<string, string>) returns (out: Outcome)
    ensures out == Invoke(h, req, params)
  {
    var res := new Response();
    var args := BindArgs(h.params, req, params);
    var run := h.body(args);
    out := Run(res, run.ops, run.result);
  }

  class Velix {
    var routes: Routes

    constructor ()
      ensures routes == map[]
    {
      routes := map[];
    }

    method HandlerRouter(m: string, path: string, h: Handler)
      modifies this
      ensures routes == Register(old(routes), m, path, h)
    {
      var route := Compile(path);
      routes := routes[m := RoutesFor(routes, m) + [Route(route, h)]];
    }

    method Get(path: string, h: Handler)
      modifies this
      ensures routes == Register(old(routes), "GET", path, h)
    {
      HandlerRouter("GET", path, h);
    }

    method Post(path: string, h: Handler)
      modifies this
      ensures routes == Register(old(routes), "POST", path, h)
    {
      HandlerRouter("POST", path, h);
    }

    method Put(path: string, h: Handler)
      modifies this
      ensures routes == Register(old(routes), "PUT", path, h)
    {
      HandlerRouter("PUT", path, h);
    }

    method Head(path: string, h: Handler)
      modifies this
      ensures routes == Register(old(routes), "HEAD", path, h)
    {
      HandlerRouter("HEAD", path, h);
    }

    method Delete(path: string, h: Handler)
      modifies this
      ensures routes == Register(old(routes), "DELETE", path, h)
    {
      HandlerRouter("DELETE", path, h);
    }

    method Patch(path: string, h: Handler)
      modifies this
      ensures routes == Register(old(routes), "PATCH", path, h)
    {
      HandlerRouter("PATCH", path, h);
    }

    /** `dispatch()`: the first matching route of the request's method
        handles it; otherwise the fallback page is sent. */
    method Dispatch(env: Env) returns (out: Outcome)
      ensures out == DispatchSpec(routes, env)
    {
      var m := MethodOf(env);
      var path := NormalizePath(env.uriPath);
      var rs := RoutesFor(routes, m);
      var i := 0;
      while i < |rs|
        invariant 0 <= i <= |rs|
        invariant FirstMatchFrom(rs, path, 0) == FirstMatchFrom(rs, path, i)
      {
        var found := Match(rs[i].pattern, path);
        if found.Some? {
          assert FirstMatchFrom(rs, path, i) == Some((i, found.value));
          CaptureArity(rs[i].pattern, path);
          var params := CollectParams(Names(rs[i].pattern), found.value);
          var req := NewRequest(m, path, params, env.query, env.post, env.headers, env.decoded);
          out := Handle(rs[i].handler, req, params);
          return;
        }
        i := i + 1;
      }
      out := Fallback(env.index);
    }
  }

  // ---- Properties of dispatch ----

  /** When no route of the request's method matches, or the method has none,
      the index page is sent with 200 if it exists, else `404 Not Found`. */
  lemma NoMatchFallsBack(routes: Routes, env: Env)
    requires forall j :: 0 <= j < |RoutesFor(routes, MethodOf(env))| ==>
      Match(RoutesFor(routes, MethodOf(env))[j].pattern, NormalizePath(env.uriPath)).None?
    ensures env.index.Some? ==> DispatchSpec(routes, env) == Sent(Transcript(200, [], [], Raw(env.index.value)))
    ensures env.index.None? ==> DispatchSpec(routes, env) == Sent(Transcript(404, [], [], Raw("404 Not Found")))
  {
    var rs := RoutesFor(routes, MethodOf(env));
  }

  /** When the first route of the request's method matches, its handler is
      invoked with the captures as the path parameters. */
  lemma FirstRouteAnswers(routes: Routes, env: Env, vs: seq<string>)
    requires |RoutesFor(routes, MethodOf(env))| > 0
    requires Match(RoutesFor(routes, MethodOf(env))[0].pattern, NormalizePath(env.uriPath)) == Some(vs)
    ensures var rt := RoutesFor(routes, MethodOf(env))[0];
      |vs| == |Names(rt.pattern)| &&
      DispatchSpec(routes, env) == Invoke(rt.handler,
        NewRequest(MethodOf(env), NormalizePath(env.uriPath), ToMap(Names(rt.pattern), vs), env.query, env.post, env.headers, env.decoded),
        ToMap(Names(rt.pattern), vs))
  {
    CaptureArity(RoutesFor(routes, MethodOf(env))[0].pattern, NormalizePath(env.uriPath));
  }

  lemma {:induction false} FirstMatchExtend(rs: seq<Route>, extra: seq<Route>, path: string, i: nat)
    requires i <= |rs| && FirstMatchFrom(rs, path, i).Some?
    ensures FirstMatchFrom(rs + extra, path, i) == FirstMatchFrom(rs, path, i)
    decreases |rs| - i
  {
    assert (rs + extra)[i] == rs[i];
    if Match(rs[i].pattern, path).None? {
      FirstMatchExtend(rs, extra, path, i + 1);
    }
  }

  /** Once a route of the request's method matches, routes registered later
      never change the outcome: no later route is tried. */
  lemma LaterRoutesIgnored(routes: Routes, env: Env, m: string, template: string, h: Handler)
    requires FirstMatchFrom(RoutesFor(routes, MethodOf(env)), NormalizePath(env.uriPath), 0).Some?
    ensures DispatchSpec(Register(routes, m, template, h), env) == DispatchSpec(routes, env)
  {
    var me := MethodOf(env);
    var rs := RoutesFor(routes, me);
    var path := NormalizePath(env.uriPath);
    if m == me {
      var rs' := RoutesFor(Register(routes, m, template, h), me);
      assert rs' == rs + [Route(Compile(template), h)];
      FirstMatchExtend(rs, [Route(Compile(template), h)], path, 0);
      var i := FirstMatchFrom(rs, path, 0).value.0;
      assert rs'[i] == rs[i];
    }
  }

  /** Routes registered under another method never change the outcome. */
  lemma OtherMethodsIgnored(routes: Routes, env: Env, m: string, template: string, h: Handler)
    requires m != MethodOf(env)
    ensures DispatchSpec(Register(routes, m, template, h), env) == DispatchSpec(routes, env)
  {
    assert RoutesFor(Register(routes, m, template, h), MethodOf(env)) == RoutesFor(routes, MethodOf(env));
  }

  /** On a match, the path-parameter map has exactly the template's
      placeholder names as keys, each bound to its non-empty, `/`-free capture. */
  lemma MatchParams(ts: seq<Token>, path: string, vs: seq<string>)
    requires Match(ts, path) == Some(vs)
    ensures |vs| == |Names(ts)| && ToMap(Names(ts), vs).Keys == set n | n in Names(ts)
    ensures |vs| == |Names(ts)| &&
      forall i :: 0 <= i < |Names(ts)| ==> ToMap(Names(ts), vs)[Names(ts)[i]] == vs[i] && ValidCapture(vs[i])
  {
    CaptureArity(ts, path);
    forall i | 0 <= i < |Names(ts)|
      ensures ToMap(Names(ts), vs)[Names(ts)[i]] == vs[i]
    {
      ToMapAt(Names(ts), vs, i);
    }
  }

  /** A parameter typed with the class `Request` or `Response` gets that object
      whatever its name; a built-in type is ignored. */
  lemma TypeBindsFirst(name: string, req: Request, params: map<string, string>)
    ensures BindOne(ParamDecl(name, Some(TypeDecl("Request", false))), req, params) == ReqArg(req)
    ensures BindOne(ParamDecl(name, Some(TypeDecl("Response", false))), req, params) == ResArg
    ensures forall t :: BindOne(ParamDecl(name, Some(TypeDecl(t, true))), req, params) == BindOne(ParamDecl(name, None), req, params)
  {
  }

  /** Untyped (or otherwise typed) parameters bind by name: `req`/`request`
      get the request and `res`/`response` the response, even when a
      placeholder has that name; any other name gets its path parameter, or
      null when there is none. */
  lemma NameBindsNext(p: ParamDecl, req: Request, params: map<string, string>)
    requires p.typ.None? || p.typ.value.builtin || (p.typ.value.name != "Request" && p.typ.value.name != "Response")
    ensures IsRequestName(p.name) ==> BindOne(p, req, params) == ReqArg(req)
    ensures IsResponseName(p.name) ==> BindOne(p, req, params) == ResArg
    ensures !IsRequestName(p.name) && !IsResponseName(p.name) && p.name in params ==> BindOne(p, req, params) == StrArg(params[p.name])
    ensures !IsRequestName(p.name) && !IsResponseName(p.name) && p.name !in params ==> BindOne(p, req, params) == NullArg
  {
  }

  /** A handler parameter named after the template's `k`-th placeholder (and
      not claimed by type or reserved name) receives the `k`-th capture. */
  lemma CaptureReachesHandler(ts: seq<Token>, path: string, vs: seq<string>, ps: seq<ParamDecl>, req: Request, i: nat, k: nat)
    requires Match(ts, path) == Some(vs)
    requires k < |Names(ts)| && i < |ps| && ps[i].name == Names(ts)[k]
    requires ps[i].typ.None? || ps[i].typ.value.builtin ||
      (ps[i].typ.value.name != "Request" && ps[i].typ.value.name != "Response")
    requires !IsRequestName(ps[i].name) && !IsResponseName(ps[i].name)
    ensures |vs| == |Names(ts)| && Bind(ps, req, ToMap(Names(ts), vs))[i] == StrArg(vs[k])
  {
    CaptureArity(ts, path);
    ToMapAt(Names(ts), vs, k);
  }

  /** A handler that makes no calls on the response and returns a non-null
      value answers 200 with exactly the JSON content-type header. */
  lemma ResultSentAsJson(result: Value)
    requires result != Null
    ensures RunOps([], Fresh(), result) ==
      Sent(Transcript(200, [HeaderLine(("Content-Type", JsonType))], [], JsonOf(result)))
  {
    FreshJson(result);
  }

  /** The first `send` or `json` a handler makes ends it: later calls and its
      result have no effect. */
  lemma SendEndsHandler(pre: seq<ResOp>, op: ResOp, post: seq<ResOp>, st: ResState, r1: Value, r2: Value)
    requires Ends(op)
    ensures RunOps(pre + [op] + post, st, r1) == RunOps(pre + [op], st, r2)
    decreases |pre|
  {
    if pre == [] {
      assert ([op] + post)[0] == op;
      assert [] + [op] + post == [op] + post;
    } else {
      assert (pre + [op] + post)[0] == pre[0] && (pre + [op] + post)[1..] == pre[1..] + [op] + post;
      assert (pre + [op])[0] == pre[0] && (pre + [op])[1..] == pre[1..] + [op];
      if !Ends(pre[0]) {
        SendEndsHandler(pre[1..], op, post, Step(st, pre[0]), r1, r2);
      }
    }
  }
}
