/** What `preg_match` does with a compiled route (Velix.php:174, 190). The
    pattern is `#^…$#u` where literal text stands for itself and each
    placeholder is `(?P<name>[^/]+)`. The engine tries a group's longest run of
    non-`/` bytes first and gives back one byte at a time until the rest of
    the pattern matches; `$` matches at the end of the subject or just before
    a final newline. Literal text is taken verbatim, which is the engine's
    behaviour only when it holds no regex metacharacter (`PlainLiterals`). */
module Matching {
  import opened Text
  import opened Templates

  /** One step of a compiled pattern: a literal byte, or a named `[^/]+` group. */
  datatype Atom = Ch(c: char) | Cap(name: string)

  function Chars(t: string): (r: seq<Atom>)
    ensures |r| == |t|
  {
    if t == [] then [] else [Ch(t[0])] + Chars(t[1..])
  }

  /** The pattern of a token list, one atom per literal byte. */
  function Atoms(ts: seq<Token>): seq<Atom> {
    if ts == [] then []
    else match ts[0]
      case Lit(t) => Chars(t) + Atoms(ts[1..])
      case Param(n) => [Cap(n)] + Atoms(ts[1..])
  }

  function CapNames(xs: seq<Atom>): seq<string> {
    if xs == [] then []
    else match xs[0]
      case Ch(_) => CapNames(xs[1..])
      case Cap(n) => [n] + CapNames(xs[1..])
  }

  /** The regex metacharacters of PCRE outside a class, and the `#` delimiter. */
  predicate IsMeta(c: char) {
    c in "\\^$.|?*+()[]{}#"
  }

  /** Literal text that PCRE reads as itself. */
  predicate PlainLiterals(ts: seq<Token>) {
    forall i, j :: 0 <= i < |ts| && ts[i].Lit? && 0 <= j < |ts[i].text| ==> !IsMeta(ts[i].text[j])
  }

  predicate Distinct(names: seq<string>) {
    forall i, j :: 0 <= i < j < |names| ==> names[i] != names[j]
  }

  // ---- The engine ----

  /** The anchored match of `xs` against `s`: the captured values, in group order. */
  function MatchAtoms(xs: seq<Atom>, s: string): Option<seq<string>>
    decreases |xs|, 1, 0
  {
    if xs == [] then
      if s == [] || s == "\n" then Some([]) else None
    else match xs[0]
      case Ch(c) => if s != [] && s[0] == c then MatchAtoms(xs[1..], s[1..]) else None
      case Cap(_) => TryCap(xs[1..], s, RunLen(s))
  }

  /** A group that has taken the first `k` bytes of `s`, giving back one byte
      at a time until `rest` matches what follows. */
  function TryCap(rest: seq<Atom>, s: string, k: nat): Option<seq<string>>
    requires k <= |s|
    decreases |rest| + 1, 0, k
  {
    if k == 0 then None
    else match MatchAtoms(rest, s[k..])
      case Some(vs) => Some([s[..k]] + vs)
      case None => TryCap(rest, s, k - 1)
  }

  /** `preg_match` of a compiled route. A pattern that repeats a group name
      does not compile (PCRE accepts duplicate names only when asked to), so
      `preg_match` fails and the route never matches. */
  function Match(ts: seq<Token>, s: string): Option<seq<string>> {
    if !Distinct(Names(ts)) then None else MatchAtoms(Atoms(ts), s)
  }

  // ---- What a match means ----

  /** The subject spelled by the pattern with `vs` for its groups. */
  function Render(xs: seq<Atom>, vs: seq<string>): string
    requires |vs| == |CapNames(xs)|
  {
    if xs == [] then []
    else match xs[0]
      case Ch(c) => [c] + Render(xs[1..], vs)
      case Cap(_) => vs[0] + Render(xs[1..], vs[1..])
  }

  /** What `[^/]+` can capture. */
  predicate ValidCapture(v: string) {
    v != [] && NoSlash(v)
  }

  /** `vs` is a way to read `s` as the pattern `xs`, allowing the final
      newline that `$` tolerates. */
  predicate Fills(xs: seq<Atom>, vs: seq<string>, s: string) {
    && |vs| == |CapNames(xs)|
    && (forall i :: 0 <= i < |vs| ==> ValidCapture(vs[i]))
    && (s == Render(xs, vs) || s == Render(xs, vs) + "\n")
  }

  predicate EndsInNewline(s: string) {
    s != [] && s[|s| - 1] == '\n'
  }

  /** Every group is followed by `/` or by the end of the pattern: the shape
      of a template whose placeholders fill whole path segments. */
  predicate CapsBeforeSlash(xs: seq<Atom>) {
    forall i :: 0 <= i < |xs| && xs[i].Cap? ==> i + 1 == |xs| || xs[i + 1] == Ch('/')
  }

  lemma RunLenAtLeast(s: string, k: nat)
    requires k <= |s| && NoSlash(s[..k])
    ensures k <= RunLen(s)
  {
    forall i | 0 <= i < k ensures s[i] != '/' {
      assert s[..k][i] == s[i];
    }
  }

  lemma FillsCons(v: string, rest: seq<Atom>, vs: seq<string>, s: string, n: string)
    requires ValidCapture(v) && |v| <= |s| && s[..|v|] == v && Fills(rest, vs, s[|v|..])
    ensures Fills([Cap(n)] + rest, [v] + vs, s)
  {
    var xs := [Cap(n)] + rest;
    assert xs[1..] == rest;
    var ws := [v] + vs;
    assert ws[1..] == vs;
    assert Render(xs, ws) == v + Render(rest, vs);
    assert s == v + s[|v|..];
    forall i | 0 <= i < |ws| ensures ValidCapture(ws[i]) {
      if i > 0 { assert ws[i] == vs[i - 1]; }
    }
  }

  /** Soundness: whatever the engine returns is a reading of the subject. */
  lemma {:induction false} MatchSound(xs: seq<Atom>, s: string)
    ensures MatchAtoms(xs, s).Some? ==> Fills(xs, MatchAtoms(xs, s).value, s)
    decreases |xs|, 1, 0
  {
    if xs != [] && MatchAtoms(xs, s).Some? {
      match xs[0]
      case Ch(c) =>
        MatchSound(xs[1..], s[1..]);
        assert s == [c] + s[1..];
      case Cap(n) =>
        TryCapSound(xs[1..], s, RunLen(s));
        var vs := MatchAtoms(xs, s).value;
        FillsCons(vs[0], xs[1..], vs[1..], s, n);
        assert [Cap(n)] + xs[1..] == xs;
        assert [vs[0]] + vs[1..] == vs;
    }
  }

  lemma {:induction false} TryCapSound(rest: seq<Atom>, s: string, k: nat)
    requires k <= RunLen(s)
    ensures TryCap(rest, s, k).Some? ==>
      var vs := TryCap(rest, s, k).value;
      && vs != [] && ValidCapture(vs[0]) && |vs[0]| <= |s| && s[..|vs[0]|] == vs[0]
      && Fills(rest, vs[1..], s[|vs[0]|..])
    decreases |rest| + 1, 0, k
  {
    if k > 0 {
      MatchSound(rest, s[k..]);
      if MatchAtoms(rest, s[k..]).None? {
        TryCapSound(rest, s, k - 1);
      }
    }
  }

  /** Completeness: if the subject can be read as the pattern, the engine
      finds a match (not necessarily that reading). */
  lemma {:induction false} MatchComplete(xs: seq<Atom>, vs: seq<string>, s: string)
    requires Fills(xs, vs, s)
    ensures MatchAtoms(xs, s).Some?
    decreases |xs|
  {
    if xs != [] {
      match xs[0]
      case Ch(c) =>
        assert Render(xs, vs) == [c] + Render(xs[1..], vs);
        assert Fills(xs[1..], vs, s[1..]);
        MatchComplete(xs[1..], vs, s[1..]);
      case Cap(_) =>
        var v := vs[0];
        var k := |v|;
        assert Render(xs, vs) == v + Render(xs[1..], vs[1..]);
        assert s[..k] == v;
        assert s[k..] == Render(xs[1..], vs[1..]) || s[k..] == Render(xs[1..], vs[1..]) + "\n";
        assert forall i :: 0 <= i < |vs[1..]| ==> vs[1..][i] == vs[i + 1];
        MatchComplete(xs[1..], vs[1..], s[k..]);
        RunLenAtLeast(s, k);
        TryCapComplete(xs[1..], s, RunLen(s), k);
    }
  }

  lemma {:induction false} TryCapComplete(rest: seq<Atom>, s: string, m: nat, k: nat)
    requires 1 <= k <= m <= |s| && MatchAtoms(rest, s[k..]).Some?
    ensures TryCap(rest, s, m).Some?
    decreases m
  {
    if m > k && MatchAtoms(rest, s[m..]).None? {
      TryCapComplete(rest, s, m - 1, k);
    }
  }

  /** Without a trailing newline, a reading spells the subject exactly. */
  lemma FillsExactly(xs: seq<Atom>, vs: seq<string>, s: string)
    requires Fills(xs, vs, s) && !EndsInNewline(s)
    ensures s == Render(xs, vs)
  {
  }

  /** When every group is followed by `/` or the end, the subject determines
      the captures: a subject has at most one reading. */
  lemma {:induction false} RenderInjective(xs: seq<Atom>, v1: seq<string>, v2: seq<string>)
    requires CapsBeforeSlash(xs)
    requires |v1| == |v2| == |CapNames(xs)|
    requires forall i :: 0 <= i < |v1| ==> ValidCapture(v1[i]) && ValidCapture(v2[i])
    requires Render(xs, v1) == Render(xs, v2)
    ensures v1 == v2
    decreases |xs|
  {
    if xs != [] {
      var rest := xs[1..];
      assert CapsBeforeSlash(rest) by {
        forall i | 0 <= i < |rest| && rest[i].Cap? ensures i + 1 == |rest| || rest[i + 1] == Ch('/') {
          assert xs[i + 1] == rest[i];
        }
      }
      match xs[0]
      case Ch(c) =>
        assert Render(rest, v1) == Render(xs, v1)[1..];
        RenderInjective(rest, v1, v2);
      case Cap(_) =>
        var s := Render(xs, v1);
        var a, b := v1[0], v2[0];
        assert s == a + Render(rest, v1[1..]) == b + Render(rest, v2[1..]);
        CaptureIsRun(rest, a, v1[1..]);
        CaptureIsRun(rest, b, v2[1..]);
        assert s[..|a|] == a && s[..|b|] == b;
        assert |a| == |b|;
        assert Render(rest, v1[1..]) == s[|a|..] == Render(rest, v2[1..]);
        forall i | 0 <= i < |v1| - 1 ensures ValidCapture(v1[1..][i]) && ValidCapture(v2[1..][i]) {
          assert v1[1..][i] == v1[i + 1] && v2[1..][i] == v2[i + 1];
        }
        RenderInjective(rest, v1[1..], v2[1..]);
        assert v1 == [a] + v1[1..] && v2 == [b] + v2[1..];
    }
  }

  /** A group followed by `/` or the end captures exactly the run of non-`/`
      bytes in front of it. */
  lemma CaptureIsRun(rest: seq<Atom>, v: string, vs: seq<string>)
    requires ValidCapture(v) && |vs| == |CapNames(rest)|
    requires rest == [] || rest[0] == Ch('/')
    ensures RunLen(v + Render(rest, vs)) == |v|
  {
    var s := v + Render(rest, vs);
    assert s[..|v|] == v;
    RunLenAtLeast(s, |v|);
    if rest != [] {
      assert Render(rest, vs) == ['/'] + Render(rest[1..], vs);
      assert s[|v|] == '/';
    }
  }

  /** For whole-segment patterns and a subject without a trailing newline,
      the engine's answer is exactly the one reading of the subject: `vs` is
      returned if and only if it spells `s`. */
  lemma MatchExact(xs: seq<Atom>, s: string, vs: seq<string>)
    requires CapsBeforeSlash(xs) && !EndsInNewline(s)
    ensures MatchAtoms(xs, s) == Some(vs) <==> Fills(xs, vs, s)
  {
    MatchSound(xs, s);
    if Fills(xs, vs, s) {
      MatchComplete(xs, vs, s);
      var ws := MatchAtoms(xs, s).value;
      FillsExactly(xs, vs, s);
      FillsExactly(xs, ws, s);
      RenderInjective(xs, vs, ws);
    }
  }

  /** The captures are named by the template's placeholders, in order. */
  lemma {:induction false} AtomsNames(ts: seq<Token>)
    ensures CapNames(Atoms(ts)) == Names(ts)
  {
    if ts != [] {
      AtomsNames(ts[1..]);
      match ts[0]
      case Lit(t) => CharsNames(t, Atoms(ts[1..]));
      case Param(n) =>
        assert ([Cap(n)] + Atoms(ts[1..]))[1..] == Atoms(ts[1..]);
    }
  }

  lemma {:induction false} CharsNames(t: string, ys: seq<Atom>)
    ensures CapNames(Chars(t) + ys) == CapNames(ys)
  {
    if t != [] {
      var zs := Chars(t) + ys;
      assert zs == [Ch(t[0])] + (Chars(t[1..]) + ys);
      assert zs[0] == Ch(t[0]) && zs[1..] == Chars(t[1..]) + ys;
      CharsNames(t[1..], ys);
      assert CapNames(zs) == CapNames(zs[1..]);
    } else {
      assert Chars(t) + ys == ys;
    }
  }

  // ---- Examples ----

  /** `$` accepts a final newline: `#^a$#` matches the subject "a\n"
      (reachable through a decoded `%0A`). */
  lemma DollarBeforeNewline()
    ensures Match([Lit("a")], "a\n") == Some([])
  {
    assert Names([Lit("a")]) == [];
    assert Atoms([Lit("a")]) == [Ch('a')];
    assert "a\n"[1..] == "\n";
  }

  /** A template that names the same placeholder twice compiles to a pattern
      PCRE refuses, so its route never matches any path. */
  lemma DuplicateNamesNeverMatch(template: string, path: string)
    requires !Distinct(Names(Compile(template)))
    ensures Match(Compile(template), path).None?
  {
  }

  /** The token list of `{x}/{x}` repeats the name `x`, so it never matches. */
  lemma RepeatedNameExample(s: string)
    ensures Match([Param("x"), Lit("/"), Param("x")], s).None?
  {
    var ts := [Param("x"), Lit("/"), Param("x")];
    assert ts[1..] == [Lit("/"), Param("x")];
    assert ts[1..][1..] == [Param("x")];
    assert Names(ts[1..][1..]) == ["x"];
    assert Names(ts[1..]) == ["x"];
    assert Names(ts) == ["x", "x"];
    assert !Distinct(Names(ts)) by {
      assert Names(ts)[0] == Names(ts)[1];
    }
  }

  /** Inside one segment the first group takes as much as it can: with
      `{a}-{b}` the subject `x-y-z` gives `a = "x-y"`, `b = "z"`. */
  lemma GreedyInsideSegment()
    ensures MatchAtoms([Cap("a"), Ch('-'), Cap("b")], "x-y-z") == Some(["x-y", "z"])
  {
    var xs := [Cap("a"), Ch('-'), Cap("b")];
    var s := "x-y-z";
    var rest := xs[1..];
    assert rest == [Ch('-'), Cap("b")];
    assert rest[1..] == [Cap("b")];
    assert RunLen(s) == 5 by {
      assert s[1..] == "-y-z" && s[1..][1..] == "y-z" && s[1..][1..][1..] == "-z";
      assert s[1..][1..][1..][1..] == "z" && s[1..][1..][1..][1..][1..] == [];
    }
    assert s[5..] == [];
    assert MatchAtoms(rest, s[5..]).None?;
    assert s[4..] == "z";
    assert MatchAtoms(rest, s[4..]).None?;
    assert s[3..] == "-z";
    assert s[3..][1..] == "z";
    assert RunLen("z") == 1;
    assert "z"[1..] == [];
    assert "z"[..1] == "z";
    assert [Cap("b")][1..] == [];
    assert MatchAtoms([], "z"[1..]) == Some([]);
    assert ["z"[..1]] + [] == ["z"];
    assert TryCap([], "z", 1) == Some(["z"]);
    assert MatchAtoms([Cap("b")], "z") == Some(["z"]);
    assert MatchAtoms(rest, s[3..]) == Some(["z"]);
    assert s[..3] == "x-y";
    assert [s[..3]] + ["z"] == ["x-y", "z"];
    assert TryCap(rest, s, 3) == Some(["x-y", "z"]);
    assert TryCap(rest, s, 4) == Some(["x-y", "z"]);
    assert TryCap(rest, s, 5) == Some(["x-y", "z"]);
  }
}
