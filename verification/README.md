# Velix router model

A Dafny model of the Velix micro-framework's router, `Velix.php`. The model covers:

- **Registration.** `get`, `post`, `put`, `head`, `delete` and `patch` compile a route template and append it to the list for that HTTP method (`handlerRouter`).
- **Compilation.** The template is trimmed of `" \t\n\r/"`. Each `{identifier}` becomes a named `[^/]+` group. The pattern is anchored as `#^…$#u`.
- **Normalisation.** The request path is trimmed of the same characters, then passed through `urldecode`.
- **Matching.** `preg_match` runs over the request method's routes, in registration order, and the first match wins.
- **Path parameters.** They are collected from the named groups.
- **Handler arguments.** They are bound by declared type, then by reserved name, then by path-parameter name, else null.
- **Results.** A non-null handler result is sent as JSON.
- **Fallback.** With no match, the index page is sent with status 200, or `404 Not Found` with status 404.
- **Request object.** Its lookups are `input`, `query`, `param` and `header`.
- **Response object.** Its state is a header list, a cookie list and a status code. The mutators are `header`, `cookie` and `status`, and `send`/`json` end the script.

## Modules

| Module | File | What it holds |
|---|---|---|
| `Text` | text.dfy | PHP `trim` with the list `" \t\n\r/"`; ASCII `strtolower`; the length of a run of non-`/` bytes. |
| `Templates` | templates.dfy | The compiled pattern as a token list (`Lit` text / `Param` name), produced by a scanner. The scanner follows the left-to-right `preg_replace` pass (Velix.php:173). |
| `UrlCodec` | urlcodec.dfy | PHP `urldecode`, which is section 2.1 of RFC 3986 plus the rule that `+` becomes a space. Malformed `%` is kept. `urlencode` is included as its reference inverse. |
| `Matching` | matching.dfy | `preg_match` on compiled routes, as the PCRE engine runs them. A greedy `[^/]+` gives back bytes one at a time. `$` also matches before a final newline. A pattern with a duplicate group name fails to compile. |
| `Segments` | segments.dfy | The segment-by-segment view of a match. It is proved equal to the engine's answer for templates whose placeholders fill whole segments and a path without a trailing newline. |
| `Http` | http.dfy | `Request` is a value. `Response` is a class whose `headers`, `cookies`, `status` and `sent` fields change in place. `send` produces a transcript: status, `"name: value"` header lines in insertion order, `setcookie` calls and body. |
| `Routing` | routing.dfy | The `Velix` class: route registration, the imperative `Dispatch` with its loops, and the function `DispatchSpec` that specifies it. |
| `Example` | example.dfy | The scenario of `public/app.php`: `GET /api/users/{name}` with handler `(Response $res, string $name)`. There is also a route-shadowing scenario. |

Behaviour of the code worth noting; the model follows the code:

- **Route validation.** Registration checks nothing. An invalid `{…}` such as `{}` or `{1x}` stays literal text and is matched as such. Duplicate placeholder names are accepted too; such a route never matches, because PCRE refuses to compile a pattern that repeats a group name.
- **Sending twice.** There is no "already sent" error: `send` ends the script. A second send is therefore excluded by `requires !sent`.
- **Normalisation is not idempotent.** Decoding happens after trimming, so an encoded space at an edge survives one pass.
- **Cookie expiry key.** The docblock of `cookie` names the option `expires`, but the code reads `expire`. `expires` is ignored.

## Model

| member | source | states |
|---|---|---|
| Text.Trim | Velix.php:172 | The result neither starts nor ends with one of `" \t\n\r/"`. It is the input with only such characters removed from the two ends. |
| Text.TrimAbsorbs | Velix.php:172 | One more trim character at either end of the input does not change the result. |
| Text.TrimNoop | Velix.php:172 | Text whose first and last characters are not trim characters is returned unchanged. |
| Text.Lower | Velix.php:35-37 | `strtolower` keeps the length and lower-cases each ASCII letter byte by byte. |
| Text.RunLen | Velix.php:173 | The length of the longest `/`-free prefix: every byte before it is not `/`, and the byte at it is `/`. |
| Templates.IdentRunChars | Velix.php:173 | The greedy `[a-zA-Z0-9_]*` run covers only identifier characters. The function `IdentRun` ensures that the run stops at a non-identifier character. |
| Templates.PlaceholderAt | Velix.php:173 | A placeholder match starts with `{` and ends at a `}` at least two positions later. PlaceholderIdent and PlaceholderFound make it exact: it matches precisely `{`, an identifier, `}`. |
| Templates.PlaceholderFound | Velix.php:173 | A `{name}` with an identifier name at the start is always found, whatever follows it, ending at its `}`. |
| Templates.PlaceholderIdent | Velix.php:173 | What a placeholder match encloses matches `[a-zA-Z_][a-zA-Z0-9_]*`. |
| Templates.PlaceholderExtends | Velix.php:173 | A placeholder found at a position is still found there whatever text follows. |
| Templates.UnparseScan | Velix.php:173 | Writing the token list back as template text gives the trimmed template exactly. The rewrite loses nothing, and every character outside a placeholder stays literal. |
| Templates.ScanCanonical | Velix.php:173 | Every compiled pattern has a fixed shape: literal tokens are non-empty, hold no placeholder and are never adjacent; parameter names are identifiers. |
| Templates.FirstLitIsPrefix | Velix.php:173 | A leading literal token is a prefix of the template. |
| Templates.ScanSlash | Velix.php:173 | A placeholder never spans a `/`. The text on each side of a slash compiles on its own, and the results are glued with a literal `/`. |
| Templates.BadPlaceholdersStayLiteral | Velix.php:173 | `{}` and `{1x}` are not placeholders and stay literal text. |
| Templates.ScanLeadingBrace | Velix.php:173 | A `{` that starts no placeholder, followed by text without `{`, compiles to one literal. |
| Templates.ScanNoBrace | Velix.php:173 | Text without `{` compiles to a single literal. |
| Templates.CompileNoBrace | Velix.php:172-174 | A template without `{` compiles to one literal holding its trimmed text, unless trimming leaves nothing (then the pattern is `^$`). |
| Templates.ScanParam | Velix.php:173 | `{name}` with an identifier name compiles to exactly one parameter. |
| Templates.ScanPrefixLit | Velix.php:173 | Literal text without `{` placed before a parameter becomes one literal token. |
| Templates.ScanLitParam | Velix.php:173 | Literal text followed by `{name}` compiles to that literal and one parameter. |
| Templates.TrimLeadingSlash | Velix.php:172 | A leading `/` before text with non-trim ends is removed, and nothing else is. |
| Templates.Scan | Velix.php:173 | Definition, no ensures: the left-to-right `preg_replace` pass. At each position a placeholder match becomes a parameter token; otherwise one byte joins the current literal. UnparseScan, ScanCanonical and ScanSlash state its properties. |
| Templates.Compile | Velix.php:172-173 | Definition, no ensures: `Scan` of the trimmed template. |
| UrlCodec.UrlDecode | Velix.php:186 | Decoding never lengthens the path. |
| UrlCodec.DecodeEscape | Velix.php:186 | `%XX` with two hex digits becomes the byte `16·hi + lo` and scanning resumes after it. |
| UrlCodec.DecodeMalformed | Velix.php:186 | A `%` not followed by two hex digits is copied as it is. |
| UrlCodec.DecodeOther | Velix.php:186 | Any byte other than `%` and `+` is copied. |
| UrlCodec.DecodePlain | Velix.php:186 | Text without `%` and `+` is unchanged by decoding. |
| UrlCodec.DecodeExamples | Velix.php:186 | Decoded output is never rescanned (`%2541` gives `%41`). `a+b` gives `a b`. `%4` is kept. |
| UrlCodec.DecodeEncode | Velix.php:186 | `urldecode` inverts `urlencode` on every byte string. |
| UrlCodec.NormalizeIgnoresBoundary | Velix.php:186 | A trim character added at either end of the raw path leaves the normalised path unchanged. |
| UrlCodec.NormalizeNotIdempotent | Velix.php:186 | `%20a` normalises to `" a"`, and normalising again gives `a`. |
| UrlCodec.EncodedSlashSplits | Velix.php:186 | An encoded slash `%2F` becomes a real segment separator before matching. |
| UrlCodec.NormalizePath | Velix.php:186 | Definition, no ensures: `urldecode` applied after `trim`. NormalizeIgnoresBoundary and NormalizeNotIdempotent state its properties. |
| Matching.MatchSound | Velix.php:190 | A successful match spells the subject. The pattern is filled with the captures, and at most a final newline is left for `$`. Every capture is a non-empty `/`-free run. |
| Matching.MatchAtoms | Velix.php:190 | Definition, no ensures: the anchored match. A literal byte must be next in the subject; a group is tried by `TryCap`; at the end the subject must be empty or a single newline. |
| Matching.TryCap | Velix.php:173 | Definition, no ensures: a `[^/]+` group takes the longest `/`-free run, then gives back one byte at a time until the rest of the pattern matches. |
| Matching.Match | Velix.php:190 | Definition, no ensures: `preg_match` of a compiled route. It fails when a group name repeats, otherwise it is `MatchAtoms`. |
| Matching.MatchComplete | Velix.php:190 | Every reading of the subject as the pattern (non-empty `/`-free captures, at most a final newline left over) makes the engine succeed, though not necessarily with that reading. |
| Matching.RenderInjective | Velix.php:190 | For whole-segment patterns, a subject spells the pattern in at most one way. |
| Matching.MatchExact | Velix.php:190 | For whole-segment patterns and no trailing newline, the engine returns exactly the captures that spell the subject, in both directions. |
| Matching.AtomsNames | Velix.php:173 | The groups of the compiled pattern are named by the template's placeholders, in order. |
| Matching.DollarBeforeNewline | Velix.php:174 | `#^a$#` matches the subject `"a\n"`. |
| Matching.DuplicateNamesNeverMatch | Velix.php:173-174 | For every template whose compiled placeholder names repeat, `preg_match` fails on every path. |
| Matching.RepeatedNameExample | Velix.php:173-174 | Example: the pattern of `{x}/{x}` matches no path. |
| Matching.GreedyInsideSegment | Velix.php:173 | Inside a segment the first group takes the most it can: `{a}-{b}` on `x-y-z` gives `x-y` and `z`. |
| Segments.SegMatch | Velix.php:190 | The segment-wise match succeeds exactly when the segments line up. Line up means: equal counts, literal segments equal, placeholder segments non-empty. |
| Segments.Split | Velix.php:173 | The `/`-separated segments of a path: at least one, none containing `/`. |
| Segments.JoinSplit | Velix.php:173 | Splitting a path at `/` and joining it back gives the path. |
| Segments.SplitJoin | Velix.php:173 | Joining `/`-free segments and splitting again gives the segments. |
| Segments.TemplateAtoms | Velix.php:172-174 | For a template whose placeholders fill whole segments, the compiled pattern is the template's segments compiled one by one and joined by `/`. |
| Segments.MatchSegments | Velix.php:190 | On such segment patterns and a path without a trailing newline, the engine's answer equals the segment-wise match. |
| Segments.MatchBySegments | Velix.php:172-190 | For whole-segment templates and any path without a trailing newline: the engine's answer on the compiled pattern equals the segment-wise match. `preg_match` gives that answer when the placeholder names are distinct and fails otherwise. |
| Segments.MatchIffSegmentsAgree | Velix.php:188-194 | For whole-segment templates without metacharacters and a path without a trailing newline, a route matches iff its names are distinct and the path's segments line up with the template's. |
| Http.NewRequest | Velix.php:11-22 | The constructor stores its arguments. A decoded JSON body that is not an array becomes an empty map. |
| Http.InputPrecedence | Velix.php:23-27 | `input` returns the form body's value if set, else the JSON body's value if set, else the default. |
| Http.InputNullIff | Velix.php:23-27 | With a null default, `input` is null iff neither body sets the key. |
| Http.QueryParamLookup | Velix.php:28-33 | `query` and `param` return the stored value when set (present and not null), else the default. |
| Http.NonArrayJsonIgnored | Velix.php:18-25 | A JSON body that does not decode to an array never answers `input`. |
| Http.HeaderIndex | Velix.php:34-40 | The index is that of the first header whose lower-cased name equals the key. When there is none, no header matches. |
| Http.HeaderFirstMatch | Velix.php:34-40 | `header` compares names without regard to ASCII case, and the first equal one answers. |
| Http.Input | Velix.php:23-27 | Definition, no ensures: `input`; InputPrecedence and InputNullIff state it. |
| Http.Query | Velix.php:28-30 | Definition, no ensures: `query`; QueryParamLookup states it. |
| Http.ParamLookup | Velix.php:31-33 | Definition, no ensures: `param`; QueryParamLookup states it. |
| Http.Header | Velix.php:34-40 | Definition, no ensures: `header`, through `HeaderIndex`; HeaderFirstMatch states it. |
| Http.MakeCookie | Velix.php:77-95 | Definition, no ensures: the record `cookie` appends, from the merged options; CookieOptionsFill, BareIntIsExpire and BareStrIsExpire state it. |
| Http.Emit | Velix.php:109-140 | Definition, no ensures: what `send` writes for a response state; Response.Send is proved equal to it. |
| Http.MergedOptions | Velix.php:77-85 | After `array_merge` every default option key is present. |
| Http.CookieOptionsFill | Velix.php:77-95 | Each option given explicitly wins, even a null one. Each option left out takes its default: expire 0, path `/`, domain null, secure false, httpOnly false, sameSite null. |
| Http.BareIntIsExpire | Velix.php:67-76 | A bare integer third argument is the expiry, with every other option at its default. |
| Http.BareStrIsExpire | Velix.php:67-76 | A bare string third argument is the expiry, with every other option at its default. |
| Http.ExpiresKeyIgnored | Velix.php:57-89 | The documented key `expires` has no effect. Only `expire` sets the expiry. |
| Http.SetHeader | Velix.php:48 | Setting a header keeps the list's length or grows it by one. |
| Http.SetHeaderGet | Velix.php:48 | After setting, the name reads back the new value and every other name reads as before. |
| Http.SetHeaderKeys | Velix.php:48 | An existing name keeps its position; a new name is appended last. |
| Http.SetHeaderUnique | Velix.php:48 | Header names stay distinct. |
| Http.CookieCall | Velix.php:115-126 | `setcookie` receives `expires`, `path`, `domain`, `secure` and `httponly` with the record's values. It receives `samesite`, with its value, only when that option is truthy. |
| Http.EmitJson | Velix.php:104-107 | `json` sends the current status with the value as body. |
| Http.FreshJson | Velix.php:104-107 | A fresh response sent as JSON has status 200, only the JSON content-type line and no cookies. |
| Http.JsonContentType | Velix.php:104-107 | A JSON response always carries `Content-Type: application/json; charset=utf-8`, whatever was set before. |
| Http.Response.constructor | Velix.php:44-46 | A new response has no headers, no cookies, status 200 and is not sent. |
| Http.Response.Header | Velix.php:47-50 | Sets the header in place and returns the same object. Cookies, status and the sent flag are unchanged. |
| Http.Response.Cookie | Velix.php:66-97 | Appends exactly one cookie record and returns the same object. The other fields are unchanged. |
| Http.Response.Status | Velix.php:99-102 | Replaces the status code and returns the same object. The other fields are unchanged. |
| Http.Response.Send | Velix.php:109-141 | Writes the status, every header line in order, one `setcookie` per cookie, then the body. Marks the response sent. |
| Http.Response.Json | Velix.php:104-107 | Sets the JSON content type, then sends the value. |
| Routing.Register | Velix.php:171-180 | Appends exactly one compiled route, last, to the method's list. Earlier routes keep their order, and other methods' lists are unchanged. |
| Routing.RoutesFor | Velix.php:188-189 | Definition, no ensures: the route list of a method, empty when none is registered (`isset($this->routes[$method])`). Register and OtherMethodsIgnored state its properties. |
| Routing.MethodOf | Velix.php:183 | Definition, no ensures: `REQUEST_METHOD`, or `GET` when it is unset. DispatchSpec reads the method through it. |
| Routing.Velix.constructor | Velix.php:145 | A new router has no routes. |
| Routing.Velix.HandlerRouter | Velix.php:171-180 | Updates the route table as `Register` does. |
| Routing.Velix.Get | Velix.php:147-149 | Registers the route under `GET`. |
| Routing.Velix.Post | Velix.php:151-153 | Registers the route under `POST`. |
| Routing.Velix.Put | Velix.php:155-157 | Registers the route under `PUT`. |
| Routing.Velix.Head | Velix.php:159-161 | Registers the route under `HEAD`. |
| Routing.Velix.Delete | Velix.php:163-165 | Registers the route under `DELETE`. |
| Routing.Velix.Patch | Velix.php:167-169 | Registers the route under `PATCH`. |
| Routing.CaptureArity | Velix.php:190-194 | A match has one capture per placeholder name. The names are distinct, and each capture is a non-empty `/`-free run. |
| Routing.FirstMatchFrom | Velix.php:189-190 | Returns the first matching route and its captures. Every earlier route fails; with no result, every route fails. |
| Routing.ToMap | Velix.php:191-194 | The parameter map's keys are exactly the placeholder names. Integer group keys do not appear. |
| Routing.ToMapAt | Velix.php:191-194 | Each placeholder name maps to its own capture. |
| Routing.CollectParams | Velix.php:191-194 | The loop builds exactly the parameter map. |
| Routing.BindArgs | Velix.php:200-224 | The loop builds one argument per declared parameter, in order. |
| Routing.TypeBindsFirst | Velix.php:204-214 | A non-builtin `Request` or `Response` type binds that object whatever the name. A builtin type is ignored. |
| Routing.NameBindsNext | Velix.php:215-223 | Otherwise `req`/`request` bind the request and `res`/`response` the response. Any other name binds its path parameter, or null. |
| Routing.BindOne | Velix.php:203-223 | Definition, no ensures: the argument for one parameter; TypeBindsFirst and NameBindsNext state its precedence. |
| Routing.Bind | Velix.php:202-224 | Definition, no ensures: one argument per declared parameter, in order; BindArgs is proved equal to it. |
| Routing.CaptureReachesHandler | Velix.php:191-223 | A parameter named after the k-th placeholder, and not claimed by type or by reserved name, receives the k-th capture. |
| Routing.Apply | Velix.php:47-102 | A handler's `header`, `cookie` or `status` call changes the response as `Step` says. |
| Routing.Run | Velix.php:226-232 | The handler's calls change the response in order, and the first `json` or `send` ends the script. Otherwise a non-null result is sent as JSON. The response is marked sent exactly when the outcome is a transcript. |
| Routing.Step | Velix.php:47-102 | Definition, no ensures: the state change of one `header`, `cookie` or `status` call. |
| Routing.RunOps | Velix.php:226-232 | Definition, no ensures: the handler's calls in order until the first `json` or `send`; otherwise a non-null result is sent as JSON. SendEndsHandler and ResultSentAsJson state its properties. |
| Routing.Invoke | Velix.php:196-232 | Definition, no ensures: the handler run on the bound arguments with a fresh response. |
| Routing.Handle | Velix.php:196-232 | Runs the handler with a fresh response and the bound arguments; its outcome is `Invoke`'s. |
| Routing.Velix.Dispatch | Velix.php:182-248 | The loop-based dispatch returns exactly `DispatchSpec`: the first matching route of the method answers, else the fallback. |
| Routing.NoMatchFallsBack | Velix.php:237-247 | With no matching route, the index page is sent with 200 if it exists, else `404 Not Found` with 404. |
| Routing.Fallback | Velix.php:237-247 | Definition, no ensures: the index page with 200, or `404 Not Found` with 404. |
| Routing.DispatchSpec | Velix.php:182-248 | Definition, no ensures: `dispatch` as a function of the route table and the request. Velix.Dispatch is proved equal to it; NoMatchFallsBack, FirstRouteAnswers, LaterRoutesIgnored and OtherMethodsIgnored state its properties. |
| Routing.FirstRouteAnswers | Velix.php:188-226 | When the first route matches, its handler runs with the captures as path parameters. |
| Routing.FirstMatchExtend | Velix.php:189-190 | Routes appended after a match do not change which route matches first. |
| Routing.LaterRoutesIgnored | Velix.php:189-233 | Once a route matches, registering more routes never changes the outcome. |
| Routing.OtherMethodsIgnored | Velix.php:188-189 | Routes registered under another method never change the outcome. |
| Routing.MatchParams | Velix.php:190-194 | On a match, the parameter map's keys are exactly the placeholder names. Each is bound to its non-empty `/`-free capture. |
| Routing.ResultSentAsJson | Velix.php:228-230 | A handler that returns a non-null value without touching the response answers 200 with the JSON content type. |
| Routing.SendEndsHandler | Velix.php:139-140 | Calls after the first `send`/`json`, and the handler's result, have no effect. |
| Example.CompilePrefixRoute | public/app.php:7 | `/api/users/{name}` compiles to the literal `api/users/` and the parameter `name`. |
| Example.CompileLiteralRoute | Velix.php:172-174 | `/` followed by text without `{` whose ends are not trim characters compiles to that text as one literal. The general case is CompileNoBrace. |
| Example.PrefixPath | Velix.php:186 | A plain request path keeps its text after normalisation. |
| Example.MatchLitParam | Velix.php:190 | A literal-then-parameter pattern captures the segment after the literal. |
| Example.PrefixRouteAnswers | Velix.php:188-226 | A request for such a route runs its handler with that capture. |
| Example.GreetInvoke | public/app.php:7-11 | The scenario's handler, given `name`, answers `{"message": "Hello <name>"}` as JSON. |
| Example.GreetsAnyName | public/app.php:7-13 | `GET /api/users/<name>` answers the greeting for every segment-shaped name. |
| Example.GreetApp | public/app.php:5-13 | Building the app and dispatching `GET /api/users/Ada` with the imperative router yields the greeting for `Ada`. |
| Example.OtherMethodNotFound | Velix.php:188-247 | Under another method the same path gets `404 Not Found`. |
| Example.EarlierRouteShadows | Velix.php:189-233 | Route `a/{x}` registered before route `a/b` answers `/a/b`. |
| Example.LaterRouteAlsoMatches | Velix.php:189-190 | The shadowed route `a/b` would itself match `/a/b`. |
| Example.BindByRole | Velix.php:215-223 | Parameters `response` and `name` bind the response object and the path parameter. |

## Left out

- The superglobals `$_SERVER`, `$_GET` and `$_POST` become fields of `Env`, as do `getallheaders()` and `php://input` (Velix.php:17-18, 183-184, 196). The request method defaults to `GET` when absent.
- `parse_url` (Velix.php:185) is a foreign URL parser. The model takes the path it extracts as input; the default `/` is the caller's choice.
- JSON text is not modelled. `json_decode` and `json_encode` with `JSON_UNESCAPED_UNICODE` (Velix.php:18, 106) are replaced by the abstract `Value` datatype, and the body of a JSON response is that value.
- Output calls are not performed. `http_response_code`, `header()`, `setcookie()`, `echo`, `readfile`, `file_exists` and `exit` are represented by the transcript, the `index` input and the `sent` flag.
- The pre-7.3 `setcookie` branch of `send` (Velix.php:127-137) is not modelled; only the option-array call is.
- `ReflectionFunction` and `invokeArgs` (Velix.php:199, 226) are replaced by the handler descriptor. It lists the parameters (name, optional type, builtin flag) and holds an abstract body from arguments to response calls and a result. Union types, default values and variadics are not modelled.
- Handler type errors are not modelled. Binding checks no declared type other than the classes `Request` and `Response` (Velix.php:205-223). Where a bound argument does not fit its declared type, `invokeArgs` raises a `TypeError` and the script ends with a fatal error, whose output depends on `display_errors`. For instance: a typed parameter that receives an object of the wrong type (`int $res` gets the Response); `int $id` receiving a non-numeric capture such as `abc` (and, under `strict_types`, any capture); a parameter typed with another class (`Foo $id`), which is bound by name (Velix.php:216-219) and then rejected; and any non-nullable typed parameter (`string $name`, `int $page`) that receives null. In the model a handler body always runs, so `Routing.Invoke` always has an outcome.
- A handler body is a function of its bound arguments that may return response calls even when it declares no parameter bound to the response. A PHP handler without one cannot reach the response. No lemma relies on such a body.
- PCRE failures other than a repeated group name are not modelled: a group name longer than PCRE's limit (32 code units), and the match and backtracking limits. In those cases `preg_match` returns false and the route is skipped, while `Matching.Match` always answers.
- Array keys are only strings. PHP turns numeric-string keys into integers, and the model does not.
- A cookie option argument that is neither an int, a string nor an array makes `array_merge` raise a `TypeError`; that case cannot be expressed in the model.
- `strtolower` is ASCII only, as from PHP 8.2 on. Locale-dependent lowering in older PHP is not modelled.
- The `u` flag is not modelled: invalid UTF-8 after decoding makes `preg_match` fail, and classes match code points rather than bytes.
- Matching.Match: regex metacharacters in literal template text are read as themselves. PCRE would interpret them; `PlainLiterals` names the texts for which this agrees.
- Segments.MatchIffSegmentsAgree: proved only for templates whose placeholders fill whole segments, with no regex metacharacters and a path without a trailing newline. The general engine behaviour (backtracking inside a segment, `$` before a newline) is modelled in `Matching` and shown by examples.
- Http.Response.Send: requires `!sent`, because the source `exit`s after sending and has no "already sent" error.
- Http.Response.Json: requires `!sent`, for the same reason as `Send`.
