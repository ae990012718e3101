/** The route-template compiler of `Velix::handlerRouter` (Velix.php:171-180).
    The source trims the template, rewrites every `{identifier}` into a named
    capture `(?P<identifier>[^/]+)` with one `preg_replace` pass, and anchors
    the result. Here the compiled pattern is the token list that pass yields:
    literal text and named placeholders, in template order. */
module Templates {
  import opened Text

  datatype Token = Lit(text: string) | Param(name: string)

  /** `[a-zA-Z_]` */
  predicate IsIdentStart(c: char) {
    ('a' <= c <= 'z') || ('A' <= c <= 'Z') || c == '_'
  }

  /** `[a-zA-Z0-9_]` */
  predicate IsIdentChar(c: char) {
    IsIdentStart(c) || ('0' <= c <= '9')
  }

  /** `[a-zA-Z_][a-zA-Z0-9_]*` matches all of `s`. */
  predicate IsIdent(s: string) {
    |s| > 0 && IsIdentStart(s[0]) && forall i :: 0 < i < |s| ==> IsIdentChar(s[i])
  }

  /** Length of the longest prefix of identifier characters. */
  function IdentRun(s: string): (n: nat)
    ensures n <= |s|
    ensures n < |s| ==> !IsIdentChar(s[n])
  {
    if s == [] || !IsIdentChar(s[0]) then 0 else 1 + IdentRun(s[1..])
  }

  /** Every character of the run is an identifier character. */
  lemma {:induction false} IdentRunChars(s: string)
    ensures forall i :: 0 <= i < IdentRun(s) ==> IsIdentChar(s[i])
  {
    if s != [] && IsIdentChar(s[0]) {
      IdentRunChars(s[1..]);
      forall i | 0 < i < IdentRun(s) ensures IsIdentChar(s[i]) {
        assert s[i] == s[1..][i - 1];
      }
    }
  }

  /** If `s` starts with a match of `\{([a-zA-Z_][a-zA-Z0-9_]*)\}`, the index of
      its closing brace. The identifier class excludes `}`, so the greedy run
      either reaches a `}` or the match fails: there is nothing to backtrack. */
  function PlaceholderAt(s: string): (r: Option<nat>)
    ensures r.Some? ==> 2 <= r.value < |s| && s[0] == '{' && s[r.value] == '}'
  {
    if |s| >= 3 && s[0] == '{' && IsIdentStart(s[1]) then
      var k := 1 + IdentRun(s[1..]);
      if k < |s| && s[k] == '}' then Some(k) else None
    else
      None
  }

  /** What a placeholder match encloses is an identifier. */
  lemma PlaceholderIdent(s: string)
    requires PlaceholderAt(s).Some?
    ensures IsIdent(s[1..PlaceholderAt(s).value])
  {
    var k := PlaceholderAt(s).value;
    IdentRunChars(s[1..]);
    assert s[1..k] == s[1..][..k - 1];
  }

  /** Prepend one literal character, joining it to a leading literal token. */
  function Cons(c: char, ts: seq<Token>): seq<Token> {
    if ts != [] && ts[0].Lit? then [Lit([c] + ts[0].text)] + ts[1..] else [Lit([c])] + ts
  }

  /** The left-to-right `preg_replace` scan: at each position either a
      placeholder matches and is replaced, or one character is copied. */
  function Scan(s: string): seq<Token>
    decreases |s|
  {
    if s == [] then []
    else match PlaceholderAt(s)
      case Some(k) => [Param(s[1..k])] + Scan(s[k + 1..])
      case None => Cons(s[0], Scan(s[1..]))
  }

  /** The compiled form of a route template (Velix.php:172-174). */
  function Compile(template: string): seq<Token> {
    Scan(Trim(template))
  }

  /** Writes a token list back as template text: the inverse of `Scan`. */
  function Unparse(ts: seq<Token>): string {
    if ts == [] then []
    else match ts[0]
      case Lit(t) => t + Unparse(ts[1..])
      case Param(n) => "{" + n + "}" + Unparse(ts[1..])
  }

  /** Placeholder names in template order. */
  function Names(ts: seq<Token>): seq<string> {
    if ts == [] then []
    else match ts[0]
      case Lit(_) => Names(ts[1..])
      case Param(n) => [n] + Names(ts[1..])
  }

  /** No position of `t` starts a placeholder match. */
  predicate NoPlaceholder(t: string) {
    forall i :: 0 <= i < |t| ==> PlaceholderAt(t[i..]).None?
  }

  /** A token as the scanner emits it: a literal is non-empty and contains no
      placeholder; a parameter name is an identifier. */
  predicate WellFormed(t: Token) {
    match t
    case Lit(text) => text != [] && NoPlaceholder(text)
    case Param(name) => IsIdent(name)
  }

  /** The shape of every scanner output: well-formed tokens, and no two
      literal tokens adjacent. */
  predicate Canonical(ts: seq<Token>) {
    && (forall i :: 0 <= i < |ts| ==> WellFormed(ts[i]))
    && (forall i :: 0 <= i < |ts| - 1 && ts[i].Lit? ==> ts[i + 1].Param?)
  }

  lemma UnparseCons(c: char, ts: seq<Token>)
    ensures Unparse(Cons(c, ts)) == [c] + Unparse(ts)
  {
    if ts != [] && ts[0].Lit? {
      assert ([Lit([c] + ts[0].text)] + ts[1..])[1..] == ts[1..];
    } else {
      assert ([Lit([c])] + ts)[1..] == ts;
    }
  }

  /** Compilation loses nothing: the template text is recovered exactly from
      the tokens, so everything that is not a placeholder stays literal. */
  lemma {:induction false} UnparseScan(s: string)
    ensures Unparse(Scan(s)) == s
    decreases |s|
  {
    if s != [] {
      match PlaceholderAt(s)
      case Some(k) =>
        UnparseScan(s[k + 1..]);
        assert ([Param(s[1..k])] + Scan(s[k + 1..]))[1..] == Scan(s[k + 1..]);
        assert s == "{" + s[1..k] + "}" + s[k + 1..];
      case None =>
        UnparseScan(s[1..]);
        UnparseCons(s[0], Scan(s[1..]));
        assert s == [s[0]] + s[1..];
    }
  }

  /** A placeholder found at the start of `a` is still found when more text follows. */
  lemma PlaceholderExtends(a: string, b: string)
    requires PlaceholderAt(a).Some?
    ensures PlaceholderAt(a + b) == PlaceholderAt(a)
  {
    IdentRunExtends(a[1..], b, PlaceholderAt(a).value - 1);
    assert (a + b)[1..] == a[1..] + b;
  }

  lemma {:induction false} IdentRunExtends(a: string, b: string, n: nat)
    requires n == IdentRun(a) < |a|
    ensures IdentRun(a + b) == n
  {
    if n > 0 {
      assert (a + b)[1..] == a[1..] + b;
      IdentRunExtends(a[1..], b, n - 1);
    }
  }

  /** The first literal token of `Scan(s)` is a prefix of `s`. */
  lemma FirstLitIsPrefix(s: string)
    requires Scan(s) != [] && Scan(s)[0].Lit?
    ensures |Scan(s)[0].text| <= |s|
    ensures s[..|Scan(s)[0].text|] == Scan(s)[0].text
  {
    var ts := Scan(s);
    UnparseScan(s);
    assert Unparse(ts) == ts[0].text + Unparse(ts[1..]);
  }

  lemma CanonicalCons(x: Token, ts: seq<Token>)
    requires WellFormed(x) && Canonical(ts)
    requires x.Lit? && ts != [] ==> ts[0].Param?
    ensures Canonical([x] + ts)
  {
    var r := [x] + ts;
    forall i | 0 < i < |r| ensures r[i] == ts[i - 1] { }
  }

  lemma CanonicalTail(ts: seq<Token>)
    requires Canonical(ts) && ts != []
    ensures Canonical(ts[1..])
    ensures ts[0].Lit? && |ts| > 1 ==> ts[1].Param?
  {
    var r := ts[1..];
    forall i | 0 <= i < |r| ensures r[i] == ts[i + 1] { }
  }

  lemma NoPlaceholderCons(c: char, u: string)
    requires NoPlaceholder(u) && PlaceholderAt([c] + u).None?
    ensures NoPlaceholder([c] + u)
  {
    var t := [c] + u;
    forall i | 0 <= i < |t| ensures PlaceholderAt(t[i..]).None? {
      if i == 0 {
        assert t[i..] == t;
      } else {
        assert t[i..] == u[i - 1..];
      }
    }
  }

  lemma ConsCanonical(c: char, ts: seq<Token>)
    requires Canonical(ts)
    requires ts != [] && ts[0].Lit? ==> PlaceholderAt([c] + ts[0].text).None?
    requires ts == [] || ts[0].Param? ==> PlaceholderAt([c]).None?
    ensures Canonical(Cons(c, ts))
  {
    if ts != [] && ts[0].Lit? {
      NoPlaceholderCons(c, ts[0].text);
      CanonicalTail(ts);
      CanonicalCons(Lit([c] + ts[0].text), ts[1..]);
    } else {
      NoPlaceholderCons(c, []);
      assert [c] + [] == [c];
      CanonicalCons(Lit([c]), ts);
    }
  }

  /** Every scanner output has the canonical shape. */
  lemma {:induction false} ScanCanonical(s: string)
    ensures Canonical(Scan(s))
    decreases |s|
  {
    if s != [] {
      match PlaceholderAt(s)
      case Some(k) =>
        ScanCanonical(s[k + 1..]);
        PlaceholderIdent(s);
        ScanParamAt(s, k, s[1..k], s[k + 1..]);
        CanonicalCons(Param(s[1..k]), Scan(s[k + 1..]));
      case None =>
        ScanCanonical(s[1..]);
        ScanLitAt(s, s[0], s[1..]);
        ScanCanonicalLit(s, s[1..], Scan(s[1..]));
    }
  }

  lemma ScanCanonicalLit(s: string, rest: string, ts: seq<Token>)
    requires s != [] && PlaceholderAt(s).None? && s[1..] == rest
    requires ts == Scan(rest) && Canonical(ts)
    ensures Canonical(Cons(s[0], ts))
  {
    if ts != [] && ts[0].Lit? {
      var u := ts[0].text;
      FirstLitIsPrefix(rest);
      LitHeadPrefix(s, u);
      PlaceholderPrefix(s, [s[0]] + u);
    } else {
      PlaceholderPrefix(s, [s[0]]);
    }
    ConsCanonical(s[0], ts);
  }

  lemma LitHeadPrefix(s: string, u: string)
    requires s != [] && |u| <= |s[1..]| && s[1..][..|u|] == u
    ensures |[s[0]] + u| <= |s| && s[..|u| + 1] == [s[0]] + u
  {
  }

  /** No placeholder starts a prefix of a text where none starts. */
  lemma PlaceholderPrefix(s: string, t: string)
    requires |t| <= |s| && s[..|t|] == t && PlaceholderAt(s).None?
    ensures PlaceholderAt(t).None?
  {
    assert t + s[|t|..] == s;
    if PlaceholderAt(t).Some? {
      PlaceholderExtends(t, s[|t|..]);
      assert false;
    }
  }

  /** Scanning stops at a `/`: a placeholder can never span one, so the text
      on each side of a slash is compiled on its own. */
  lemma {:induction false} ScanSlash(a: string, b: string)
    ensures Scan(a + "/" + b) == Glue(Scan(a), Cons('/', Scan(b)))
    decreases |a|
  {
    if a == [] {
      var s := a + "/" + b;
      assert s == "/" + b && s[1..] == b;
    } else if PlaceholderAt(a).Some? {
      var k := PlaceholderAt(a).value;
      ScanSlash(a[k + 1..], b);
      PlaceholderSlash(a, b);
      SlashSlices(a, b, k);
      ParamStep(a + "/" + b, a, a[k + 1..] + "/" + b, a[k + 1..], a[1..k], Cons('/', Scan(b)), k);
    } else {
      ScanSlash(a[1..], b);
      PlaceholderSlash(a, b);
      SlashTail(a, b);
      LitStep(a + "/" + b, a, a[1..] + "/" + b, a[1..], a[0], Cons('/', Scan(b)));
    }
  }

  lemma SlashSlices(a: string, b: string, k: nat)
    requires 1 <= k < |a|
    ensures (a + "/" + b)[1..k] == a[1..k]
    ensures (a + "/" + b)[k + 1..] == a[k + 1..] + "/" + b
  {
  }

  lemma SlashTail(a: string, b: string)
    requires a != []
    ensures (a + "/" + b)[0] == a[0] && (a + "/" + b)[1..] == a[1..] + "/" + b
  {
  }

  /** Two texts that start with the same placeholder and whose remainders
      scan alike (up to the glued suffix `y`) scan alike. */
  lemma ParamStep(s: string, left: string, rest: string, mid: string, n: string, y: seq<Token>, k: nat)
    requires PlaceholderAt(s) == Some(k) && s[1..k] == n && s[k + 1..] == rest
    requires PlaceholderAt(left) == Some(k) && left[1..k] == n && left[k + 1..] == mid
    requires Scan(rest) == Glue(Scan(mid), y)
    ensures Scan(s) == Glue(Scan(left), y)
  {
    ScanParamAt(s, k, n, rest);
    ScanParamAt(left, k, n, mid);
    GlueParam(Param(n), Scan(mid), y);
  }

  /** The same for two texts that start with the same literal character. */
  lemma LitStep(s: string, left: string, rest: string, mid: string, c: char, y: seq<Token>)
    requires s != [] && PlaceholderAt(s).None? && s[0] == c && s[1..] == rest
    requires left != [] && PlaceholderAt(left).None? && left[0] == c && left[1..] == mid
    requires y != [] && y[0].Lit?
    requires Scan(rest) == Glue(Scan(mid), y)
    ensures Scan(s) == Glue(Scan(left), y)
  {
    ScanLitAt(s, c, rest);
    ScanLitAt(left, c, mid);
    GlueCons(c, Scan(mid), y);
  }

  /** One step of the scan when a placeholder starts `s`. */
  lemma ScanParamAt(s: string, k: nat, n: string, rest: string)
    requires PlaceholderAt(s) == Some(k) && s[1..k] == n && s[k + 1..] == rest
    ensures Scan(s) == [Param(n)] + Scan(rest)
  {
  }

  /** One step of the scan when no placeholder starts `s`. */
  lemma ScanLitAt(s: string, c: char, rest: string)
    requires s != [] && PlaceholderAt(s).None? && s[0] == c && s[1..] == rest
    ensures Scan(s) == Cons(c, Scan(rest))
  {
  }

  /** Concatenation of token lists that joins a trailing literal of `x` to a
      leading literal of `y`. */
  function Glue(x: seq<Token>, y: seq<Token>): seq<Token>
    decreases |x|
  {
    if x == [] then y
    else match x[0]
      case Param(n) => [x[0]] + Glue(x[1..], y)
      case Lit(t) => if |x| == 1 then LitFront(t, y) else [x[0]] + Glue(x[1..], y)
  }

  /** Prepend literal text, joining it to a leading literal token. */
  function LitFront(t: string, y: seq<Token>): seq<Token> {
    if y != [] && y[0].Lit? then [Lit(t + y[0].text)] + y[1..] else [Lit(t)] + y
  }

  lemma GlueParam(p: Token, x: seq<Token>, y: seq<Token>)
    requires p.Param?
    ensures Glue([p] + x, y) == [p] + Glue(x, y)
  {
    assert ([p] + x)[1..] == x;
  }

  lemma {:induction false} GlueCons(c: char, x: seq<Token>, y: seq<Token>)
    requires y != [] && y[0].Lit?
    ensures Glue(Cons(c, x), y) == Cons(c, Glue(x, y))
  {
    if x != [] && x[0].Lit? {
      var x' := [Lit([c] + x[0].text)] + x[1..];
      assert x'[1..] == x[1..];
      if |x| == 1 {
        assert Glue(x, y) == [Lit(x[0].text + y[0].text)] + y[1..];
        assert [c] + x[0].text + y[0].text == [c] + (x[0].text + y[0].text);
      } else {
        assert Glue(x, y) == [x[0]] + Glue(x[1..], y);
      }
    } else {
      assert ([Lit([c])] + x)[1..] == x;
      if x == [] {
        assert Glue([Lit([c])], y) == LitFront([c], y);
      } else {
        assert Glue(x, y) == [x[0]] + Glue(x[1..], y);
      }
    }
  }

  lemma PlaceholderSlash(a: string, b: string)
    requires a != []
    ensures PlaceholderAt(a + "/" + b) == PlaceholderAt(a)
  {
    var s := a + "/" + b;
    if PlaceholderAt(a).Some? {
      PlaceholderExtends(a, "/" + b);
      assert a + ("/" + b) == s;
    } else if |s| >= 3 && s[0] == '{' && IsIdentStart(s[1]) {
      assert |a| >= 2;
      var n := IdentRun(a[1..]);
      if n < |a[1..]| {
        IdentRunExtends(a[1..], "/" + b, n);
        assert s[1..] == a[1..] + ("/" + b);
        assert s[1 + n] == a[1 + n];
      } else {
        IdentRunStops(a[1..], "/" + b);
        assert s[1..] == a[1..] + ("/" + b);
        assert s[1 + n] == '/';
      }
    }
  }

  lemma {:induction false} IdentRunStops(a: string, b: string)
    requires IdentRun(a) == |a| && b != [] && !IsIdentChar(b[0])
    ensures IdentRun(a + b) == |a|
  {
    if a == [] {
    } else {
      assert (a + b)[1..] == a[1..] + b;
      IdentRunStops(a[1..], b);
    }
  }

  // ---- Examples of the compiler's behaviour ----

  /** `{}` and `{1x}` are not placeholders: they stay literal text. */
  lemma BadPlaceholdersStayLiteral()
    ensures Scan("{}") == [Lit("{}")]
    ensures Scan("{1x}") == [Lit("{1x}")]
  {
    ScanLeadingBrace("{}");
    ScanLeadingBrace("{1x}");
  }

  /** A `{` that starts no placeholder, followed by text without `{`, stays literal. */
  lemma ScanLeadingBrace(t: string)
    requires |t| >= 2 && t[0] == '{' && PlaceholderAt(t).None?
    requires forall i :: 1 <= i < |t| ==> t[i] != '{'
    ensures Scan(t) == [Lit(t)]
  {
    ScanNoBrace(t[1..]);
    assert Scan(t) == Cons('{', Scan(t[1..]));
    assert ['{'] + t[1..] == t;
  }

  /** Text with no `{` compiles to a single literal. */
  lemma {:induction false} ScanNoBrace(t: string)
    requires t != []
    requires forall i :: 0 <= i < |t| ==> t[i] != '{'
    ensures Scan(t) == [Lit(t)]
  {
    if |t| == 1 {
      assert t[1..] == [];
      assert [t[0]] == t;
    } else {
      ScanNoBrace(t[1..]);
      assert [t[0]] + t[1..] == t;
    }
  }

  /** One leading `/` before text that starts and ends with non-trim
      characters is trimmed away. */
  lemma TrimLeadingSlash(s: string)
    requires s != [] && !IsTrimChar(s[0]) && !IsTrimChar(s[|s| - 1])
    ensures Trim("/" + s) == s
  {
    TrimAbsorbs('/', s);
    TrimNoop(s);
  }

  /** Text without `{` followed by one placeholder: a literal and a parameter. */
  lemma ScanLitParam(lit: string, n: string)
    requires forall i :: 0 <= i < |lit| ==> lit[i] != '{'
    requires IsIdent(n)
    ensures Scan(lit + ("{" + n + "}")) == (if lit == [] then [] else [Lit(lit)]) + [Param(n)]
  {
    ScanParam(n);
    ScanPrefixLit(lit, "{" + n + "}");
  }

  /** A `{name}` at the start is always recognised, whatever follows it:
      the converse of `PlaceholderIdent`. */
  lemma PlaceholderFound(n: string, rest: string)
    requires IsIdent(n)
    ensures PlaceholderAt("{" + n + "}" + rest) == Some(|n| + 1)
  {
    var p := "{" + n + "}";
    IdentRunFull(n);
    IdentRunStops(n, "}");
    assert p[1..] == n + "}";
    PlaceholderExtends(p, rest);
  }

  /** `{name}` alone compiles to one parameter. */
  lemma ScanParam(n: string)
    requires IsIdent(n)
    ensures Scan("{" + n + "}") == [Param(n)]
  {
    var p := "{" + n + "}";
    PlaceholderFound(n, []);
    assert p + [] == p;
    assert p[1..|n| + 1] == n;
    assert p[|n| + 2..] == [];
  }

  /** A template without `{` compiles to one literal, its trimmed text,
      unless trimming leaves nothing. */
  lemma CompileNoBrace(template: string)
    requires forall i :: 0 <= i < |template| ==> template[i] != '{'
    requires Trim(template) != []
    ensures Compile(template) == [Lit(Trim(template))]
  {
    var t := Trim(template);
    var start := |template| - |TrimLeft(template)|;
    assert template[start..start + |t|] == t;
    forall i | 0 <= i < |t|
      ensures t[i] != '{'
    {
      assert t[i] == template[start + i];
    }
    ScanNoBrace(t);
  }

  lemma {:induction false} IdentRunFull(s: string)
    requires forall i :: 0 <= i < |s| ==> IsIdentChar(s[i])
    ensures IdentRun(s) == |s|
  {
    if s != [] {
      IdentRunFull(s[1..]);
    }
  }

  /** Literal characters that start no placeholder are prepended one at a time. */
  lemma {:induction false} ScanPrefixLit(t: string, rest: string)
    requires forall i :: 0 <= i < |t| ==> t[i] != '{'
    requires Scan(rest) != [] && Scan(rest)[0].Param?
    ensures Scan(t + rest) == (if t == [] then [] else [Lit(t)]) + Scan(rest)
  {
    if t == [] {
      assert t + rest == rest;
    } else {
      var tail := t[1..];
      ScanPrefixLit(tail, rest);
      PrefixLitStep(t[0], tail, rest);
      assert [t[0]] + tail == t;
    }
  }

  lemma PrefixLitStep(c: char, tail: string, rest: string)
    requires c != '{' && Scan(rest) != [] && Scan(rest)[0].Param?
    requires Scan(tail + rest) == (if tail == [] then [] else [Lit(tail)]) + Scan(rest)
    ensures Scan(([c] + tail) + rest) == [Lit([c] + tail)] + Scan(rest)
  {
    var u := tail + rest;
    assert ([c] + tail) + rest == [c] + u;
    ScanNoPlaceholderHere([c] + u);
    assert ([c] + u)[1..] == u;
    if tail == [] {
      ConsBeforeParam(c, Scan(rest));
    } else {
      ConsBeforeLit(c, tail, Scan(rest));
    }
  }

  lemma ScanNoPlaceholderHere(s: string)
    requires s != [] && s[0] != '{'
    ensures Scan(s) == Cons(s[0], Scan(s[1..]))
  {
  }

  lemma ConsBeforeParam(c: char, ys: seq<Token>)
    requires ys != [] && ys[0].Param?
    ensures Cons(c, [] + ys) == [Lit([c])] + ys
  {
    assert [] + ys == ys;
  }

  lemma ConsBeforeLit(c: char, u: string, ys: seq<Token>)
    ensures Cons(c, [Lit(u)] + ys) == [Lit([c] + u)] + ys
  {
    assert ([Lit(u)] + ys)[1..] == ys;
  }
}
