/** The example application `public/app.php` and two further scenarios,
    worked through the model: the users route greets by name, an
    earlier route shadows a later one, and an unknown method gets the 404.
    Templates and paths are built from their parts (`PrefixRoute("api/users/",
    "name")` is `/api/users/{name}`), so that every fact here follows from the
    general lemmas about those parts. */
module Example {
  import opened Text
  import opened Templates
  import opened UrlCodec
  import opened Matching
  import opened Segments
  import opened Http
  import opened Routing

  /** The text of a bound string argument. Every call made in this module
      binds a string here; for any other argument the empty string stands in,
      where PHP would raise a `TypeError` for a `string` parameter. */
  function ArgText(args: seq<Arg>, i: nat): string {
    if i < |args| && args[i].StrArg? then args[i].s else ""
  }

  /** `function (Response $res, string $name) { $res->json(['message' => 'Hello ' . $name]); }` */
  function GreetBody(args: seq<Arg>): HandlerRun {
    HandlerRun([OpJson(Arr(map["message" := Str("Hello " + ArgText(args, 1))]))], Null)
  }

  function GreetHandler(): Handler {
    Handler([ParamDecl("res", Some(TypeDecl("Response", false))), ParamDecl("name", Some(TypeDecl("string", true)))],
            GreetBody)
  }

  /** A request with no query, form body, headers or JSON body. */
  function SimpleEnv(m: string, uriPath: string, index: Option<string>): Env {
    Env(Some(m), uriPath, map[], map[], [], Null, index)
  }

  /** The answer the example application gives for `name`. */
  function Greeting(name: string): Outcome {
    Sent(Transcript(200, [HeaderLine(("Content-Type", JsonType))], [], JsonOf(Arr(map["message" := Str("Hello " + name)]))))
  }

  // ---- Templates made of a literal prefix and at most one placeholder ----

  /** The template `/<lit>{<n>}`. */
  function PrefixRoute(lit: string, n: string): string {
    "/" + lit + "{" + n + "}"
  }

  /** A literal route prefix: starts with a non-trim byte, opens no placeholder. */
  predicate RoutePrefix(lit: string) {
    lit != [] && !IsTrimChar(lit[0]) && forall i :: 0 <= i < |lit| ==> lit[i] != '{'
  }

  /** `/<lit>{<n>}` compiles to the literal and one parameter. */
  lemma CompilePrefixRoute(lit: string, n: string)
    requires RoutePrefix(lit) && IsIdent(n)
    ensures Compile(PrefixRoute(lit, n)) == [Lit(lit), Param(n)]
  {
    var s := lit + ("{" + n + "}");
    PrefixRouteParts(lit, n);
    ScanLitParam(lit, n);
    TrimLeadingSlash(s);
  }

  lemma PrefixRouteParts(lit: string, n: string)
    requires lit != [] && !IsTrimChar(lit[0])
    ensures var s := lit + ("{" + n + "}");
      PrefixRoute(lit, n) == "/" + s && s != [] && s[0] == lit[0] && s[|s| - 1] == '}'
  {
  }

  /** `/<t>` for placeholder-free `t` compiles to one literal. */
  lemma CompileLiteralRoute(t: string)
    requires RoutePrefix(t) && !IsTrimChar(t[|t| - 1])
    ensures Compile("/" + t) == [Lit(t)]
  {
    TrimLeadingSlash(t);
    ScanNoBrace(t);
  }

  /** A path segment the normaliser leaves alone and the matcher captures whole. */
  predicate SegmentName(v: string) {
    v != [] && NoSlash(v) && Plain(v) && !IsTrimChar(v[|v| - 1])
  }

  /** `/<lit><v>` normalises to `<lit><v>` when nothing in it is encoded. */
  lemma PrefixPath(lit: string, v: string)
    requires lit != [] && !IsTrimChar(lit[0]) && Plain(lit) && SegmentName(v)
    ensures NormalizePath("/" + lit + v) == lit + v
  {
    var p := lit + v;
    SlashParts(lit, v);
    PlainConcat(lit, v);
    TrimLeadingSlash(p);
    DecodePlain(p);
  }

  lemma SlashParts(lit: string, v: string)
    requires lit != [] && v != []
    ensures "/" + lit + v == "/" + (lit + v)
    ensures (lit + v)[0] == lit[0] && (lit + v)[|lit + v| - 1] == v[|v| - 1]
  {
  }

  /** A literal prefix followed by one placeholder captures the rest of a
      slash-free tail. */
  lemma MatchLitParam(t: string, n: string, v: string)
    requires SegmentName(v)
    ensures Match([Lit(t), Param(n)], t + v) == Some([v])
    ensures Names([Lit(t), Param(n)]) == [n]
  {
    var ts := [Lit(t), Param(n)];
    assert ts[1..] == [Param(n)] && ts[1..][1..] == [];
    assert Names(ts) == [n] by {
      assert Names(ts) == Names([Param(n)]);
      assert Names([Param(n)]) == [n] + Names([]);
    }
    assert Atoms(ts) == Chars(t) + [Cap(n)] by {
      assert Atoms(ts[1..]) == [Cap(n)] + Atoms([]);
    }
    var s := t + v;
    MatchChars(t, [Cap(n)], s);
    assert s[..|t|] == t && s[|t|..] == v;
    RunLenAtLeast(v, |v|);
    assert v[..|v|] == v;
    assert [Cap(n)][1..] == [];
    TryCapEnd(v, |v|);
  }

  lemma SingleParam(n: string, v: string)
    ensures ToMap([n], [v]) == map[n := v]
  {
    assert [n][..0] == [] && [v][..0] == [];
  }

  /** A table whose first route for the method is `ts` with handler `h`,
      matching the path with the one capture `v` for `n`. */
  lemma Answered(routes: Routes, env: Env, ts: seq<Token>, h: Handler, path: string, n: string, v: string)
    requires |RoutesFor(routes, MethodOf(env))| > 0 && RoutesFor(routes, MethodOf(env))[0] == Route(ts, h)
    requires NormalizePath(env.uriPath) == path && Match(ts, path) == Some([v]) && Names(ts) == [n]
    ensures DispatchSpec(routes, env)
         == Invoke(h, NewRequest(MethodOf(env), path, map[n := v], env.query, env.post, env.headers, env.decoded), map[n := v])
  {
    SingleParam(n, v);
    FirstRouteAnswers(routes, env, [v]);
  }

  /** A route `/<lit>{<n>}` registered first for GET answers `GET /<lit><v>`
      with its handler and `n = v`. */
  lemma PrefixRouteAnswers(routes: Routes, lit: string, n: string, h: Handler, v: string, index: Option<string>)
    requires RoutePrefix(lit) && Plain(lit) && IsIdent(n) && SegmentName(v)
    requires |RoutesFor(routes, "GET")| > 0 && RoutesFor(routes, "GET")[0] == Route(Compile(PrefixRoute(lit, n)), h)
    ensures DispatchSpec(routes, SimpleEnv("GET", "/" + lit + v, index))
         == Invoke(h, NewRequest("GET", lit + v, map[n := v], map[], map[], [], Null), map[n := v])
  {
    CompilePrefixRoute(lit, n);
    PrefixPath(lit, v);
    MatchLitParam(lit, n, v);
    Answered(routes, SimpleEnv("GET", "/" + lit + v, index), [Lit(lit), Param(n)], h, lit + v, n, v);
  }

  // ---- The example application ----

  /** The table of public/app.php: `$app->get('/api/users/{name}', ...)`. */
  function AppRoutes(): Routes {
    Register(map[], "GET", PrefixRoute("api/users/", "name"), GreetHandler())
  }

  /** The greeting handler, given the parameter `name`, answers with the greeting. */
  lemma GreetInvoke(req: Request, name: string)
    ensures Invoke(GreetHandler(), req, map["name" := name]) == Greeting(name)
  {
    var args := Bind(GreetHandler().params, req, map["name" := name]);
    assert args == [ResArg, StrArg(name)];
    FreshJson(Arr(map["message" := Str("Hello " + name)]));
  }

  lemma UsersPrefix()
    ensures RoutePrefix("api/users/") && Plain("api/users/") && IsIdent("name")
  {
  }

  /** `GET /api/users/<name>` answers 200 with `{"message":"Hello <name>"}` and
      the JSON content type, for every name that is one plain path segment
      (public/app.php:7-13). */
  lemma GreetsAnyName(name: string)
    requires SegmentName(name)
    ensures DispatchSpec(AppRoutes(), SimpleEnv("GET", "/" + "api/users/" + name, None)) == Greeting(name)
  {
    UsersPrefix();
    PrefixRouteAnswers(AppRoutes(), "api/users/", "name", GreetHandler(), name, None);
    GreetInvoke(NewRequest("GET", "api/users/" + name, map["name" := name], map[], map[], [], Null), name);
  }

  lemma AdaName()
    ensures SegmentName("Ada")
  {
  }

  /** The example application built with the router object itself:
      `GET /api/users/Ada` answers `{"message":"Hello Ada"}`. */
  method GreetApp() returns (out: Outcome)
    ensures out == Greeting("Ada")
  {
    var app := new Velix();
    app.Get(PrefixRoute("api/users/", "name"), GreetHandler());
    out := app.Dispatch(SimpleEnv("GET", "/" + "api/users/" + "Ada", None));
    AdaName();
    GreetsAnyName("Ada");
  }

  /** `DELETE` with only a GET route and no index page answers 404. */
  lemma OtherMethodNotFound(path: string)
    ensures DispatchSpec(AppRoutes(), SimpleEnv("DELETE", path, None))
         == Sent(Transcript(404, [], [], Raw("404 Not Found")))
  {
    assert RoutesFor(AppRoutes(), "DELETE") == [];
    NoMatchFallsBack(AppRoutes(), SimpleEnv("DELETE", path, None));
  }

  // ---- First match wins ----

  function XBody(args: seq<Arg>): HandlerRun {
    HandlerRun([], Str("x=" + ArgText(args, 0)))
  }

  function BBody(args: seq<Arg>): HandlerRun {
    HandlerRun([], Str("b"))
  }

  function XHandler(): Handler {
    Handler([ParamDecl("x", None)], XBody)
  }

  /** `/a/{x}` registered before `/a/b`. */
  function ShadowTable(): Routes {
    Register(Register(map[], "GET", PrefixRoute("a/", "x"), XHandler()), "GET", "/" + "a/b", Handler([], BBody))
  }

  lemma ShadowNames()
    ensures RoutePrefix("a/") && Plain("a/") && IsIdent("x") && SegmentName("b")
    ensures RoutePrefix("a/b") && !IsTrimChar('b')
  {
  }

  lemma XInvoke(req: Request)
    ensures Invoke(XHandler(), req, map["x" := "b"]) == RunOps([], Fresh(), Str("x=b"))
  {
    assert Bind(XHandler().params, req, map["x" := "b"]) == [StrArg("b")];
  }

  /** With `/a/{x}` registered before `/a/b`, a request for `/a/b` is answered
      by the first route with `x = "b"`; the second is never tried. */
  lemma EarlierRouteShadows()
    ensures DispatchSpec(ShadowTable(), SimpleEnv("GET", "/" + "a/" + "b", None)) == RunOps([], Fresh(), Str("x=b"))
  {
    ShadowNames();
    var rs := RoutesFor(ShadowTable(), "GET");
    assert rs[0] == Route(Compile(PrefixRoute("a/", "x")), XHandler());
    PrefixRouteAnswers(ShadowTable(), "a/", "x", XHandler(), "b", None);
    XInvoke(NewRequest("GET", "a/" + "b", map["x" := "b"], map[], map[], [], Null));
  }

  /** The shadowed route would have matched on its own. */
  lemma LaterRouteAlsoMatches()
    ensures Match(Compile("/" + "a/b"), "a/" + "b") == Some([])
  {
    ShadowNames();
    var t := "a/b";
    assert t[|t| - 1] == 'b';
    CompileLiteralRoute(t);
    assert "a/" + "b" == t;
    MatchWholeLit(t);
  }

  lemma MatchWholeLit(t: string)
    requires t != [] && t[|t| - 1] != '\n'
    ensures Match([Lit(t)], t) == Some([])
  {
    var ts := [Lit(t)];
    assert ts[1..] == [];
    assert Names(ts) == [];
    assert Atoms(ts) == Chars(t) + [];
    MatchChars(t, [], t);
    assert t[..|t|] == t && t[|t|..] == [];
  }

  /** Parameters without types bind by role and by placeholder name. */
  lemma BindByRole(req: Request)
    ensures Bind([ParamDecl("response", None), ParamDecl("name", None)], req, map["name" := "Ada"])
         == [ResArg, StrArg("Ada")]
  {
  }
}
