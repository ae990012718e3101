/** The request and response objects that `Velix::dispatch` hands to a route
    handler (Velix.php:3-142). The request is a read-only value; the response
    is an object whose header list, cookie list and status code change in
    place until it is sent. */
module Http {
  import opened Text

  /** A PHP value as far as the router handles it. Arrays are keyed by
      strings; JSON values are kept as values, not as text. */
  datatype Value = Null | Bool(b: bool) | Int(i: int) | Str(s: string) | Arr(entries: map<string, Value>)

  /** `isset($m[$k])`: the key is present and its value is not null. */
  predicate IsSet(m: map<string, Value>, k: string) {
    k in m && m[k] != Null
  }

  /** PHP truthiness, as in `if ($v)`. */
  predicate Truthy(v: Value) {
    match v
    case Null => false
    case Bool(b) => b
    case Int(i) => i != 0
    case Str(s) => s != "" && s != "0"
    case Arr(m) => m != map[]
  }

  // ---- Request (Velix.php:3-41) ----

  datatype Request = Request(
    httpMethod: string,
    uri: string,
    params: map<string, string>,
    query: map<string, Value>,
    body: map<string, Value>,
    headers: seq<(string, string)>,
    json: map<string, Value>)

  /** `new Request(...)`: the headers and the decoded JSON body, which the
      constructor fetches itself, are passed in; a decoded body that is not
      an array is replaced by an empty one. */
  function NewRequest(httpMethod: string, uri: string, params: map<string, string>, query: map<string, Value>,
                      body: map<string, Value>, headers: seq<(string, string)>, decoded: Value): (r: Request)
    ensures r.httpMethod == httpMethod && r.uri == uri && r.params == params
    ensures r.query == query && r.body == body && r.headers == headers
    ensures decoded.Arr? ==> r.json == decoded.entries
    ensures !decoded.Arr? ==> r.json == map[]
  {
    Request(httpMethod, uri, params, query, body, headers, if decoded.Arr? then decoded.entries else map[])
  }

  /** `$req->input($key, $default)`: the form body first, then the JSON body. */
  function Input(r: Request, key: string, dflt: Value): Value {
    if IsSet(r.body, key) then r.body[key]
    else if IsSet(r.json, key) then r.json[key]
    else dflt
  }

  /** `$req->query($key, $default)` */
  function Query(r: Request, key: string, dflt: Value): Value {
    if IsSet(r.query, key) then r.query[key] else dflt
  }

  /** `$req->param($key, $default)`: path parameters are strings, so present
      means set. */
  function ParamLookup(r: Request, key: string, dflt: Value): Value {
    if key in r.params then Str(r.params[key]) else dflt
  }

  /** Position of the first header whose lower-cased name is `lower`. */
  function HeaderIndex(hs: seq<(string, string)>, lower: string): (i: Option<nat>)
    ensures i.Some? ==> i.value < |hs| && Lower(hs[i.value].0) == lower
    ensures i.Some? ==> forall j :: 0 <= j < i.value ==> Lower(hs[j].0) != lower
    ensures i.None? ==> forall j :: 0 <= j < |hs| ==> Lower(hs[j].0) != lower
  {
    if hs == [] then None
    else if Lower(hs[0].0) == lower then Some(0)
    else match HeaderIndex(hs[1..], lower)
      case Some(k) => Some(k + 1)
      case None => None
  }

  /** `$req->header($key, $default)`: case-insensitive, first match wins. */
  function Header(r: Request, key: string, dflt: Value): Value {
    match HeaderIndex(r.headers, Lower(key))
    case Some(i) => Str(r.headers[i].1)
    case None => dflt
  }

  /** `input` prefers the form body, then the JSON body, then the default. */
  lemma InputPrecedence(r: Request, key: string, dflt: Value)
    ensures IsSet(r.body, key) ==> Input(r, key, dflt) == r.body[key]
    ensures !IsSet(r.body, key) && IsSet(r.json, key) ==> Input(r, key, dflt) == r.json[key]
    ensures !IsSet(r.body, key) && !IsSet(r.json, key) ==> Input(r, key, dflt) == dflt
  {
  }

  /** With a null default, `input` gives null exactly when neither body sets the key. */
  lemma InputNullIff(r: Request, key: string)
    ensures Input(r, key, Null) == Null <==> !IsSet(r.body, key) && !IsSet(r.json, key)
  {
  }

  /** `query` and `param` are single lookups: the stored value when the key
      is there, the default otherwise. */
  lemma QueryParamLookup(r: Request, key: string, dflt: Value)
    ensures IsSet(r.query, key) ==> Query(r, key, dflt) == r.query[key]
    ensures !IsSet(r.query, key) ==> Query(r, key, dflt) == dflt
    ensures key in r.params ==> ParamLookup(r, key, dflt) == Str(r.params[key])
    ensures key !in r.params ==> ParamLookup(r, key, dflt) == dflt
  {
  }

  /** A JSON body that does not decode to an array never answers `input`. */
  lemma NonArrayJsonIgnored(httpMethod: string, uri: string, params: map<string, string>, query: map<string, Value>,
                            body: map<string, Value>, headers: seq<(string, string)>, decoded: Value, key: string, dflt: Value)
    requires !decoded.Arr?
    ensures Input(NewRequest(httpMethod, uri, params, query, body, headers, decoded), key, dflt)
         == if IsSet(body, key) then body[key] else dflt
  {
  }

  /** Header names compare without regard to ASCII case; among headers that
      compare equal, the first one answers. */
  lemma HeaderFirstMatch(r: Request, key: string, dflt: Value, i: nat)
    requires i < |r.headers| && Lower(r.headers[i].0) == Lower(key)
    requires forall j :: 0 <= j < i ==> Lower(r.headers[j].0) != Lower(key)
    ensures Header(r, key, dflt) == Str(r.headers[i].1)
  {
  }

  // ---- Response (Velix.php:43-142) ----

  /** One `$this->cookies[]` record. */
  datatype Cookie = Cookie(name: string, value: Value, expire: Value, path: Value, domain: Value,
                           secure: Value, httpOnly: Value, sameSite: Value)

  /** The third argument of `cookie`: a bare int or string, or an option array. */
  datatype CookieOptions = ExpireInt(i: int) | ExpireStr(s: string) | Options(m: map<string, Value>)

  function CookieDefaults(): map<string, Value> {
    map["expire" := Int(0), "path" := Str("/"), "domain" := Null, "secure" := Bool(false),
        "httpOnly" := Bool(false), "sameSite" := Null]
  }

  /** The options after the bare-argument rewrite and
      `array_merge($defaults, $options)`: a later key wins, null included. */
  function MergedOptions(opts: CookieOptions): (m: map<string, Value>)
    ensures CookieDefaults().Keys <= m.Keys
  {
    match opts
    case ExpireInt(i) => CookieDefaults() + BareOptions(Int(i))
    case ExpireStr(s) => CookieDefaults() + BareOptions(Str(s))
    case Options(o) => CookieDefaults() + o
  }

  function BareOptions(expire: Value): map<string, Value> {
    map["expire" := expire, "path" := Str("/"), "domain" := Null, "secure" := Bool(false),
        "httpOnly" := Bool(false), "sameSite" := Null]
  }

  function MakeCookie(name: string, value: Value, opts: CookieOptions): Cookie {
    var m := MergedOptions(opts);
    Cookie(name, value, m["expire"], m["path"], m["domain"], m["secure"], m["httpOnly"], m["sameSite"])
  }

  /** Every option given explicitly wins, even a null one; every option left
      out takes its default. */
  lemma CookieOptionsFill(name: string, value: Value, o: map<string, Value>)
    ensures var c := MakeCookie(name, value, Options(o));
      && c.name == name && c.value == value
      && c.expire == (if "expire" in o then o["expire"] else Int(0))
      && c.path == (if "path" in o then o["path"] else Str("/"))
      && c.domain == (if "domain" in o then o["domain"] else Null)
      && c.secure == (if "secure" in o then o["secure"] else Bool(false))
      && c.httpOnly == (if "httpOnly" in o then o["httpOnly"] else Bool(false))
      && c.sameSite == (if "sameSite" in o then o["sameSite"] else Null)
  {
  }

  /** A bare int third argument is the expiry time and nothing else. */
  lemma BareIntIsExpire(name: string, value: Value, i: int)
    ensures MakeCookie(name, value, ExpireInt(i)) == MakeCookie(name, value, Options(map["expire" := Int(i)]))
  {
    BareIsExpire(name, value, Int(i));
  }

  /** A bare string third argument is the expiry time and nothing else. */
  lemma BareStrIsExpire(name: string, value: Value, s: string)
    ensures MakeCookie(name, value, ExpireStr(s)) == MakeCookie(name, value, Options(map["expire" := Str(s)]))
  {
    BareIsExpire(name, value, Str(s));
  }

  lemma BareIsExpire(name: string, value: Value, e: Value)
    ensures var m := CookieDefaults() + BareOptions(e);
      Cookie(name, value, m["expire"], m["path"], m["domain"], m["secure"], m["httpOnly"], m["sameSite"])
      == MakeCookie(name, value, Options(map["expire" := e]))
  {
    CookieOptionsFill(name, value, map["expire" := e]);
  }

  /** The key `expires` is not read: only `expire` sets the expiry. */
  lemma ExpiresKeyIgnored(name: string, value: Value, o: map<string, Value>, t: Value)
    ensures MakeCookie(name, value, Options(o["expires" := t])) == MakeCookie(name, value, Options(o))
  {
    CookieOptionsFill(name, value, o);
    CookieOptionsFill(name, value, o["expires" := t]);
  }

  /** Header names in order. */
  function Keys(hs: seq<(string, string)>): (ks: seq<string>)
    ensures |ks| == |hs| && forall i :: 0 <= i < |hs| ==> ks[i] == hs[i].0
  {
    if hs == [] then [] else [hs[0].0] + Keys(hs[1..])
  }

  /** Header names are distinct, as the keys of a PHP array are. */
  predicate UniqueKeys(hs: seq<(string, string)>) {
    forall i, j :: 0 <= i < j < |hs| ==> hs[i].0 != hs[j].0
  }

  /** `$this->headers[$name]`, null when unset. */
  function Get(hs: seq<(string, string)>, name: string): Option<string> {
    if hs == [] then None else if hs[0].0 == name then Some(hs[0].1) else Get(hs[1..], name)
  }

  /** `$this->headers[$name] = $value` on an ordered array: an existing key
      keeps its position and takes the new value; a new key goes last. */
  function SetHeader(hs: seq<(string, string)>, name: string, value: string): (r: seq<(string, string)>)
    ensures |r| == |hs| || |r| == |hs| + 1
  {
    if hs == [] then [(name, value)]
    else if hs[0].0 == name then [(name, value)] + hs[1..]
    else [hs[0]] + SetHeader(hs[1..], name, value)
  }

  /** After setting, `name` reads back `value` and every other name reads as before. */
  lemma {:induction false} SetHeaderGet(hs: seq<(string, string)>, name: string, value: string)
    ensures Get(SetHeader(hs, name, value), name) == Some(value)
    ensures forall k :: k != name ==> Get(SetHeader(hs, name, value), k) == Get(hs, k)
  {
    if hs != [] && hs[0].0 != name {
      SetHeaderGet(hs[1..], name, value);
      var r := SetHeader(hs, name, value);
      assert r[1..] == SetHeader(hs[1..], name, value);
    } else if hs != [] {
      assert ([(name, value)] + hs[1..])[1..] == hs[1..];
    }
  }

  /** Setting keeps the order of the names; a new name goes last. */
  lemma {:induction false} SetHeaderKeys(hs: seq<(string, string)>, name: string, value: string)
    ensures Keys(SetHeader(hs, name, value)) == if name in Keys(hs) then Keys(hs) else Keys(hs) + [name]
  {
    var r := SetHeader(hs, name, value);
    if hs == [] {
    } else if hs[0].0 == name {
      assert Keys(hs)[0] == name;
      assert Keys(r) == Keys(hs);
    } else {
      var t := hs[1..];
      SetHeaderKeys(t, name, value);
      assert r == [hs[0]] + SetHeader(t, name, value);
      assert Keys(hs) == [hs[0].0] + Keys(t);
      assert name in Keys(hs) <==> name in Keys(t);
      assert Keys(r) == [hs[0].0] + Keys(SetHeader(t, name, value));
    }
  }

  /** Setting a header never repeats a name. */
  lemma SetHeaderUnique(hs: seq<(string, string)>, name: string, value: string)
    requires UniqueKeys(hs)
    ensures UniqueKeys(SetHeader(hs, name, value))
  {
    var r := SetHeader(hs, name, value);
    SetHeaderKeys(hs, name, value);
    var ks, rk := Keys(hs), Keys(r);
    forall i, j | 0 <= i < j < |r| ensures r[i].0 != r[j].0 {
      assert r[i].0 == rk[i] && r[j].0 == rk[j];
      if j < |hs| {
        assert rk[i] == ks[i] == hs[i].0 && rk[j] == ks[j] == hs[j].0;
      } else {
        assert rk[j] == name && rk[i] == ks[i];
      }
    }
  }

  /** A name that reads back a value holds that pair. */
  lemma {:induction false} GetIn(hs: seq<(string, string)>, name: string, value: string)
    requires Get(hs, name) == Some(value)
    ensures (name, value) in hs
  {
    if hs[0].0 != name {
      GetIn(hs[1..], name, value);
    }
  }

  datatype Body = Raw(text: string) | JsonOf(data: Value)

  /** One `setcookie($name, $value, $options)` call. */
  datatype SetCookie = SetCookie(name: string, value: Value, options: map<string, Value>)

  /** What a sent response writes: the status code, the `"name: value"`
      header lines in insertion order, the cookie calls and the body. */
  datatype Transcript = Transcript(status: int, headerLines: seq<string>, cookies: seq<SetCookie>, body: Body)

  function HeaderLine(h: (string, string)): string {
    h.0 + ": " + h.1
  }

  function HeaderLines(hs: seq<(string, string)>): seq<string> {
    seq(|hs|, i requires 0 <= i < |hs| => HeaderLine(hs[i]))
  }

  /** The option array handed to `setcookie`; `samesite` only when truthy. */
  function CookieCall(c: Cookie): (call: SetCookie)
    ensures call.name == c.name && call.value == c.value
    ensures call.options.Keys == {"expires", "path", "domain", "secure", "httponly"} + (if Truthy(c.sameSite) then {"samesite"} else {})
    ensures call.options["expires"] == c.expire && call.options["httponly"] == c.httpOnly
    ensures call.options["path"] == c.path && call.options["domain"] == c.domain && call.options["secure"] == c.secure
    ensures Truthy(c.sameSite) ==> call.options["samesite"] == c.sameSite
  {
    var base := map["expires" := c.expire, "path" := c.path, "domain" := c.domain,
                    "secure" := c.secure, "httponly" := c.httpOnly];
    SetCookie(c.name, c.value, if Truthy(c.sameSite) then base["samesite" := c.sameSite] else base)
  }

  function CookieCalls(cs: seq<Cookie>): seq<SetCookie> {
    seq(|cs|, i requires 0 <= i < |cs| => CookieCall(cs[i]))
  }

  /** The state a response object carries. */
  datatype ResState = ResState(headers: seq<(string, string)>, cookies: seq<Cookie>, status: int)

  function Fresh(): ResState {
    ResState([], [], 200)
  }

  /** What `send($body)` writes for a response in state `st`. */
  function Emit(st: ResState, body: Body): Transcript {
    Transcript(st.status, HeaderLines(st.headers), CookieCalls(st.cookies), body)
  }

  const JsonType := "application/json; charset=utf-8"

  /** What `json($data)` writes: the state with the JSON content type set. */
  function EmitJson(st: ResState, data: Value): (t: Transcript)
    ensures t.status == st.status && t.body == JsonOf(data)
  {
    Emit(ResState(SetHeader(st.headers, "Content-Type", JsonType), st.cookies, st.status), JsonOf(data))
  }

  /** A fresh response sent as JSON: status 200, the content-type line alone,
      no cookies. */
  lemma FreshJson(data: Value)
    ensures EmitJson(Fresh(), data) == Transcript(200, [HeaderLine(("Content-Type", JsonType))], [], JsonOf(data))
  {
    var hs := SetHeader([], "Content-Type", JsonType);
    assert hs == [("Content-Type", JsonType)];
    assert HeaderLines(hs) == [HeaderLine(hs[0])];
    assert CookieCalls([]) == [];
  }

  /** A JSON response always carries the JSON content-type line, whatever
      content type the handler set before. */
  lemma JsonContentType(st: ResState, data: Value)
    ensures HeaderLine(("Content-Type", JsonType)) in EmitJson(st, data).headerLines
  {
    var hs := SetHeader(st.headers, "Content-Type", JsonType);
    SetHeaderGet(st.headers, "Content-Type", JsonType);
    GetIn(hs, "Content-Type", JsonType);
    var i :| 0 <= i < |hs| && hs[i] == ("Content-Type", JsonType);
    assert HeaderLines(hs)[i] == HeaderLine(hs[i]);
  }

  class Response {
    var headers: seq<(string, string)>
    var cookies: seq<Cookie>
    var status: int
    var sent: bool

    /** The header list is an array keyed by name. */
    ghost predicate Valid()
      reads this
    {
      UniqueKeys(headers)
    }

    function State(): ResState
      reads this
    {
      ResState(headers, cookies, status)
    }

    /** `new Response()`: no headers, no cookies, status 200. */
    constructor ()
      ensures Valid() && State() == Fresh() && !sent
    {
      headers := [];
      cookies := [];
      status := 200;
      sent := false;
    }

    /** `$res->header($name, $value)`; returns the same object. */
    method Header(name: string, value: string) returns (self: Response)
      requires Valid()
      modifies this
      ensures self == this && Valid()
      ensures headers == SetHeader(old(headers), name, value)
      ensures cookies == old(cookies) && status == old(status) && sent == old(sent)
    {
      SetHeaderUnique(headers, name, value);
      headers := SetHeader(headers, name, value);
      self := this;
    }

    /** `$res->cookie($name, $value, $options)`: appends one record. */
    method Cookie(name: string, value: Value, opts: CookieOptions) returns (self: Response)
      requires Valid()
      modifies this
      ensures self == this && Valid()
      ensures cookies == old(cookies) + [MakeCookie(name, value, opts)]
      ensures headers == old(headers) && status == old(status) && sent == old(sent)
    {
      cookies := cookies + [MakeCookie(name, value, opts)];
      self := this;
    }

    /** `$res->status($code)` */
    method Status(code: int) returns (self: Response)
      requires Valid()
      modifies this
      ensures self == this && Valid()
      ensures status == code
      ensures headers == old(headers) && cookies == old(cookies) && sent == old(sent)
    {
      status := code;
      self := this;
    }

    /** `$res->send($body)`: writes the status, every header line in order and
        every cookie, then the body; the script ends there, so a response is
        sent at most once. */
    method Send(body: Body) returns (t: Transcript)
      requires Valid() && !sent
      modifies this
      ensures t == Emit(old(State()), body)
      ensures sent && Valid() && State() == old(State())
    {
      var lines: seq<string> := [];
      var i := 0;
      while i < |headers|
        invariant 0 <= i <= |headers|
        invariant |lines| == i
        invariant forall j :: 0 <= j < i ==> lines[j] == HeaderLine(headers[j])
      {
        lines := lines + [HeaderLine(headers[i])];
        i := i + 1;
      }
      var calls: seq<SetCookie> := [];
      i := 0;
      while i < |cookies|
        invariant 0 <= i <= |cookies|
        invariant |calls| == i
        invariant forall j :: 0 <= j < i ==> calls[j] == CookieCall(cookies[j])
      {
        calls := calls + [CookieCall(cookies[i])];
        i := i + 1;
      }
      assert lines == HeaderLines(headers);
      assert calls == CookieCalls(cookies);
      t := Transcript(status, lines, calls, body);
      sent := true;
    }

    /** `$res->json($data)`: sets the JSON content type, then sends. */
    method Json(data: Value) returns (t: Transcript)
      requires Valid() && !sent
      modifies this
      ensures t == EmitJson(old(State()), data)
      ensures sent && Valid()
      ensures State() == ResState(SetHeader(old(headers), "Content-Type", JsonType), old(cookies), old(status))
    {
      var _ := Header("Content-Type", JsonType);
      t := Send(JsonOf(data));
    }
  }
}
