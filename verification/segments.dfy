/** The segment view of routing: for templates whose placeholders fill whole
    `/`-segments, a path matches exactly when it has as many segments as the
    template, every literal segment is equal and every placeholder segment is
    non-empty; each placeholder captures its own segment. The source does not
    check that a template has this shape (a placeholder may sit inside a
    segment, Velix.php:173); `WholeSegments` states it as an assumption. */
module Segments {
  import opened Text
  import opened Templates
  import opened Matching

  /** The `/`-separated segments of `p` (as `explode('/', $p)`). */
  function Split(p: string): (r: seq<string>)
    ensures |r| >= 1
    ensures forall i :: 0 <= i < |r| ==> NoSlash(r[i])
    decreases |p|
  {
    var k := RunLen(p);
    if k == |p| then [p] else [p[..k]] + Split(p[k + 1..])
  }

  /** Segments glued back with `/`. */
  function Join(ps: seq<string>): string
    requires |ps| >= 1
  {
    if |ps| == 1 then ps[0] else ps[0] + "/" + Join(ps[1..])
  }

  /** Splitting loses nothing. */
  lemma {:induction false} JoinSplit(p: string)
    ensures Join(Split(p)) == p
    decreases |p|
  {
    var k := RunLen(p);
    if k < |p| {
      JoinSplit(p[k + 1..]);
      var r := Split(p);
      assert r[1..] == Split(p[k + 1..]);
      assert p == p[..k] + "/" + p[k + 1..];
    }
  }

  /** Joining slash-free segments and splitting again gives them back. */
  lemma {:induction false} SplitJoin(ps: seq<string>)
    requires |ps| >= 1 && forall i :: 0 <= i < |ps| ==> NoSlash(ps[i])
    ensures Split(Join(ps)) == ps
  {
    if |ps| == 1 {
      RunLenAtLeast(ps[0], |ps[0]|);
      assert ps[0][..|ps[0]|] == ps[0];
    } else {
      var p := Join(ps);
      var a := ps[0];
      assert p == a + ("/" + Join(ps[1..]));
      assert p[..|a|] == a;
      RunLenAtLeast(p, |a|);
      assert p[|a|] == '/';
      assert p[|a| + 1..] == Join(ps[1..]);
      SplitJoin(ps[1..]);
      assert ps == [a] + ps[1..];
    }
  }

  datatype Seg = SLit(text: string) | SCap(name: string)

  /** The segment-by-segment match: equal segment counts, literal segments
      equal, placeholder segments non-empty and captured. */
  function SegMatch(gs: seq<Seg>, ps: seq<string>): (r: Option<seq<string>>)
    ensures r.Some? <==> SegmentsAgree(gs, ps)
    decreases |gs|
  {
    if |gs| != |ps| then None
    else if gs == [] then Some([])
    else match gs[0]
      case SLit(t) => if ps[0] == t then SegMatch(gs[1..], ps[1..]) else None
      case SCap(_) =>
        if ps[0] == [] then None
        else match SegMatch(gs[1..], ps[1..])
          case Some(vs) => Some([ps[0]] + vs)
          case None => None
  }

  /** The path segments line up with the template's: as many of them, every
      literal segment equal, every placeholder segment non-empty. */
  predicate SegmentsAgree(gs: seq<Seg>, ps: seq<string>) {
    && |gs| == |ps|
    && (forall k :: 0 <= k < |gs| && gs[k].SLit? ==> ps[k] == gs[k].text)
    && (forall k :: 0 <= k < |gs| && gs[k].SCap? ==> ps[k] != [])
  }

  /** A template segment is either exactly one placeholder or plain text. */
  function Classify(seg: string): Seg {
    var ts := Scan(seg);
    if |ts| == 1 && ts[0].Param? then SCap(ts[0].name) else SLit(seg)
  }

  function ClassifyAll(ss: seq<string>): (gs: seq<Seg>)
    ensures |gs| == |ss|
  {
    if ss == [] then [] else [Classify(ss[0])] + ClassifyAll(ss[1..])
  }

  /** A segment is one placeholder or holds none. */
  predicate WholeSegment(seg: string) {
    Classify(seg).SCap? || Names(Scan(seg)) == []
  }

  /** Every placeholder of `t` fills a whole segment. */
  predicate WholeSegments(t: string) {
    forall i :: 0 <= i < |Split(t)| ==> WholeSegment(Split(t)[i])
  }

  /** The segments of a template as the router sees them. */
  function TemplateSegs(template: string): seq<Seg> {
    ClassifyAll(Split(Trim(template)))
  }

  function SegAtoms(g: Seg): seq<Atom> {
    match g
    case SLit(t) => Chars(t)
    case SCap(n) => [Cap(n)]
  }

  function JoinAtoms(gs: seq<Seg>): seq<Atom>
    requires |gs| >= 1
  {
    if |gs| == 1 then SegAtoms(gs[0]) else SegAtoms(gs[0]) + ([Ch('/')] + JoinAtoms(gs[1..]))
  }

  predicate LitsNoSlash(gs: seq<Seg>) {
    forall i :: 0 <= i < |gs| && gs[i].SLit? ==> NoSlash(gs[i].text)
  }

  // ---- From the compiler's tokens to segments ----

  lemma {:induction false} CharsAppend(a: string, b: string)
    ensures Chars(a + b) == Chars(a) + Chars(b)
  {
    if a == [] {
      assert a + b == b;
    } else {
      assert (a + b)[1..] == a[1..] + b;
      CharsAppend(a[1..], b);
    }
  }

  lemma {:induction false} AtomsAppend(x: seq<Token>, y: seq<Token>)
    ensures Atoms(x + y) == Atoms(x) + Atoms(y)
  {
    if x == [] {
      assert x + y == y;
    } else {
      assert (x + y)[0] == x[0] && (x + y)[1..] == x[1..] + y;
      AtomsAppend(x[1..], y);
    }
  }

  lemma AtomsCons(c: char, ts: seq<Token>)
    ensures Atoms(Cons(c, ts)) == [Ch(c)] + Atoms(ts)
  {
    if ts != [] && ts[0].Lit? {
      var r := [Lit([c] + ts[0].text)] + ts[1..];
      assert r[1..] == ts[1..];
      CharsAppend([c], ts[0].text);
      assert Chars([c]) == [Ch(c)];
    } else {
      assert ([Lit([c])] + ts)[1..] == ts;
      assert Chars([c]) == [Ch(c)];
    }
  }

  lemma AtomsLitFront(t: string, y: seq<Token>)
    ensures Atoms(LitFront(t, y)) == Chars(t) + Atoms(y)
  {
    if y != [] && y[0].Lit? {
      var r := [Lit(t + y[0].text)] + y[1..];
      assert r[1..] == y[1..];
      CharsAppend(t, y[0].text);
    } else {
      assert ([Lit(t)] + y)[1..] == y;
    }
  }

  lemma {:induction false} AtomsGlue(x: seq<Token>, y: seq<Token>)
    ensures Atoms(Glue(x, y)) == Atoms(x) + Atoms(y)
  {
    if x != [] {
      match x[0]
      case Param(n) =>
        AtomsGlue(x[1..], y);
        assert ([x[0]] + Glue(x[1..], y))[1..] == Glue(x[1..], y);
      case Lit(t) =>
        if |x| == 1 {
          AtomsLitFront(t, y);
          assert x[1..] == [];
        } else {
          AtomsGlue(x[1..], y);
          assert ([x[0]] + Glue(x[1..], y))[1..] == Glue(x[1..], y);
        }
    }
  }

  /** The pattern of `a/b` is the pattern of `a`, a literal `/`, the pattern of `b`. */
  lemma AtomsSlash(a: string, b: string)
    ensures Atoms(Scan(a + "/" + b)) == Atoms(Scan(a)) + ([Ch('/')] + Atoms(Scan(b)))
  {
    ScanSlash(a, b);
    AtomsGlue(Scan(a), Cons('/', Scan(b)));
    AtomsCons('/', Scan(b));
  }

  /** A segment without placeholders compiles to its own bytes. */
  lemma {:induction false} LiteralAtoms(ts: seq<Token>)
    requires Names(ts) == []
    ensures Atoms(ts) == Chars(Unparse(ts))
  {
    if ts != [] {
      match ts[0]
      case Lit(t) =>
        LiteralAtoms(ts[1..]);
        CharsAppend(t, Unparse(ts[1..]));
      case Param(n) =>
        assert false;
    }
  }

  lemma SegmentAtoms(seg: string)
    requires WholeSegment(seg)
    ensures Atoms(Scan(seg)) == SegAtoms(Classify(seg))
  {
    var ts := Scan(seg);
    if |ts| == 1 && ts[0].Param? {
      assert ts[1..] == [];
    } else {
      LiteralAtoms(ts);
      UnparseScan(seg);
    }
  }

  /** A whole-segment template compiles to its segments' patterns joined by `/`. */
  lemma TemplateAtoms(t: string)
    requires WholeSegments(t)
    ensures Atoms(Scan(t)) == JoinAtoms(ClassifyAll(Split(t)))
  {
    var ps := Split(t);
    JoinSplit(t);
    JoinedAtoms(ps);
  }

  /** Slash-free whole segments joined by `/` compile segment by segment. */
  lemma {:induction false} JoinedAtoms(ps: seq<string>)
    requires |ps| >= 1
    requires forall i :: 0 <= i < |ps| ==> NoSlash(ps[i]) && WholeSegment(ps[i])
    ensures Atoms(Scan(Join(ps))) == JoinAtoms(ClassifyAll(ps))
  {
    var a := ps[0];
    assert NoSlash(a) && WholeSegment(a);
    SegmentAtoms(a);
    if |ps| == 1 {
      assert ClassifyAll(ps) == [Classify(a)];
    } else {
      var rest := ps[1..];
      assert forall i :: 0 <= i < |rest| ==> rest[i] == ps[i + 1];
      JoinedAtoms(rest);
      JoinedAtomsStep(a, rest);
    }
  }

  lemma JoinedAtomsStep(a: string, rest: seq<string>)
    requires |rest| >= 1
    requires Atoms(Scan(a)) == SegAtoms(Classify(a))
    requires Atoms(Scan(Join(rest))) == JoinAtoms(ClassifyAll(rest))
    ensures Atoms(Scan(Join([a] + rest))) == JoinAtoms(ClassifyAll([a] + rest))
  {
    JoinCons(a, rest);
    ClassifyCons(a, rest);
    SlashAtoms(a, Join(rest), Classify(a), ClassifyAll(rest));
  }

  lemma JoinCons(a: string, rest: seq<string>)
    requires |rest| >= 1
    ensures Join([a] + rest) == a + "/" + Join(rest)
  {
    assert ([a] + rest)[1..] == rest;
  }

  lemma ClassifyCons(a: string, rest: seq<string>)
    ensures ClassifyAll([a] + rest) == [Classify(a)] + ClassifyAll(rest)
  {
    assert ([a] + rest)[1..] == rest;
  }

  lemma SlashAtoms(a: string, b: string, g: Seg, gs: seq<Seg>)
    requires |gs| >= 1
    requires Atoms(Scan(a)) == SegAtoms(g) && Atoms(Scan(b)) == JoinAtoms(gs)
    ensures Atoms(Scan(a + "/" + b)) == JoinAtoms([g] + gs)
  {
    AtomsSlash(a, b);
    JoinAtomsCons(g, gs);
  }

  lemma JoinAtomsCons(g: Seg, gs: seq<Seg>)
    requires |gs| >= 1
    ensures JoinAtoms([g] + gs) == SegAtoms(g) + ([Ch('/')] + JoinAtoms(gs))
  {
    assert ([g] + gs)[1..] == gs;
  }

  // ---- Matching segment by segment ----

  lemma {:induction false} MatchChars(t: string, r: seq<Atom>, s: string)
    ensures MatchAtoms(Chars(t) + r, s) ==
      if |t| <= |s| && s[..|t|] == t then MatchAtoms(r, s[|t|..]) else None
  {
    if t == [] {
      assert Chars(t) + r == r;
      assert s[..0] == t && s[0..] == s;
    } else {
      var xs := Chars(t) + r;
      assert xs[0] == Ch(t[0]) && xs[1..] == Chars(t[1..]) + r;
      if s != [] && s[0] == t[0] {
        MatchChars(t[1..], r, s[1..]);
        if |t| <= |s| {
          assert (s[..|t|] == t) == (s[1..][..|t| - 1] == t[1..]);
          assert s[1..][|t| - 1..] == s[|t|..];
        }
      }
    }
  }

  /** A final group captures the rest of the subject, if that is one segment. */
  lemma {:induction false} TryCapEnd(s: string, k: nat)
    requires k <= |s| && !EndsInNewline(s)
    ensures TryCap([], s, k) == if k == |s| && k > 0 then Some([s]) else None
  {
    if k > 0 {
      if k < |s| {
        assert s[k..][|s| - 1 - k] == s[|s| - 1];
        TryCapEnd(s, k - 1);
      } else {
        assert s[..k] == s;
        assert [s] + [] == [s];
      }
    }
  }

  /** A group followed by `/` can only end where the segment ends. */
  lemma {:induction false} TryCapSlash(r: seq<Atom>, s: string, k: nat)
    requires k <= RunLen(s)
    ensures TryCap([Ch('/')] + r, s, k) ==
      if k == RunLen(s) && 0 < k < |s| then
        match MatchAtoms(r, s[k + 1..])
        case Some(vs) => Some([s[..k]] + vs)
        case None => None
      else None
  {
    var rest := [Ch('/')] + r;
    assert rest[0] == Ch('/') && rest[1..] == r;
    if k > 0 {
      TryCapSlash(r, s, k - 1);
      if k < |s| {
        assert s[k..][0] == s[k];
        assert s[k..][1..] == s[k + 1..];
      }
    }
  }

  /** For whole-segment patterns and a path without a trailing newline, the
      engine's match is the segment-wise match of the split path. */
  lemma {:induction false} MatchSegments(gs: seq<Seg>, p: string)
    requires |gs| >= 1 && LitsNoSlash(gs) && !EndsInNewline(p)
    ensures MatchAtoms(JoinAtoms(gs), p) == SegMatch(gs, Split(p))
    decreases |gs|
  {
    var k := RunLen(p);
    var rest := gs[1..];
    assert gs == [gs[0]] + rest;
    if |gs| > 1 && k < |p| {
      var tail := p[k + 1..];
      assert !EndsInNewline(tail) by {
        if tail != [] { assert tail[|tail| - 1] == p[|p| - 1]; }
      }
      assert LitsNoSlash(rest) by {
        forall i | 0 <= i < |rest| ensures rest[i] == gs[i + 1] { }
      }
      MatchSegments(rest, tail);
    }
    match gs[0]
    case SLit(t) =>
      assert NoSlash(t) by { assert gs[0].SLit?; }
      if |gs| == 1 { LitLast(t, p); } else { LitStep(t, rest, p); }
    case SCap(n) =>
      if |gs| == 1 { CapLast(n, p); } else { CapStep(n, rest, p); }
  }

  lemma LitLast(t: string, p: string)
    requires NoSlash(t) && !EndsInNewline(p)
    ensures MatchAtoms(JoinAtoms([SLit(t)]), p) == SegMatch([SLit(t)], Split(p))
  {
    assert JoinAtoms([SLit(t)]) == Chars(t) + [];
    MatchChars(t, [], p);
    if |t| <= |p| && p[..|t|] == t {
      RunLenAtLeast(p, |t|);
      if |t| < |p| {
        assert p[|t|..][|p| - 1 - |t|] == p[|p| - 1];
      }
    }
  }

  lemma LitStep(t: string, gs: seq<Seg>, p: string)
    requires NoSlash(t) && |gs| >= 1
    requires RunLen(p) < |p| ==> MatchAtoms(JoinAtoms(gs), p[RunLen(p) + 1..]) == SegMatch(gs, Split(p[RunLen(p) + 1..]))
    ensures MatchAtoms(JoinAtoms([SLit(t)] + gs), p) == SegMatch([SLit(t)] + gs, Split(p))
  {
    var r := [Ch('/')] + JoinAtoms(gs);
    JoinAtomsCons(SLit(t), gs);
    SegMatchCons(SLit(t), gs, Split(p));
    MatchChars(t, r, p);
    if |t| <= |p| && p[..|t|] == t {
      RunLenAtLeast(p, |t|);
      MatchSlash(JoinAtoms(gs), p[|t|..]);
      LitAfter(t, p);
    }
  }

  /** After a literal first segment `t`, the subject goes on with `/` exactly
      when `t` is the whole first segment of a path that has more. */
  lemma LitAfter(t: string, p: string)
    requires NoSlash(t) && |t| <= |p| && p[..|t|] == t
    ensures (p[|t|..] != [] && p[|t|..][0] == '/') <==> (RunLen(p) == |t| && RunLen(p) < |p|)
    ensures RunLen(p) == |t| && RunLen(p) < |p| ==> p[|t|..][1..] == p[RunLen(p) + 1..]
    ensures RunLen(p) < |p| ==> Split(p) == [p[..RunLen(p)]] + Split(p[RunLen(p) + 1..])
    ensures RunLen(p) == |p| ==> |Split(p)| == 1
  {
    RunLenAtLeast(p, |t|);
  }

  lemma MatchSlash(xs: seq<Atom>, q: string)
    ensures MatchAtoms([Ch('/')] + xs, q) == if q != [] && q[0] == '/' then MatchAtoms(xs, q[1..]) else None
  {
    assert ([Ch('/')] + xs)[1..] == xs;
  }

  lemma SegMatchCons(g: Seg, gs: seq<Seg>, ps: seq<string>)
    ensures SegMatch([g] + gs, ps) ==
      if |ps| != |gs| + 1 then None
      else match g
        case SLit(t) => if ps[0] == t then SegMatch(gs, ps[1..]) else None
        case SCap(_) =>
          if ps[0] == [] then None
          else match SegMatch(gs, ps[1..])
            case Some(vs) => Some([ps[0]] + vs)
            case None => None
  {
    assert ([g] + gs)[1..] == gs;
  }

  lemma CapLast(n: string, p: string)
    requires !EndsInNewline(p)
    ensures MatchAtoms(JoinAtoms([SCap(n)]), p) == SegMatch([SCap(n)], Split(p))
  {
    assert JoinAtoms([SCap(n)]) == [Cap(n)];
    assert [Cap(n)][1..] == [];
    TryCapEnd(p, RunLen(p));
  }

  lemma CapStep(n: string, gs: seq<Seg>, p: string)
    requires |gs| >= 1
    requires RunLen(p) < |p| ==> MatchAtoms(JoinAtoms(gs), p[RunLen(p) + 1..]) == SegMatch(gs, Split(p[RunLen(p) + 1..]))
    ensures MatchAtoms(JoinAtoms([SCap(n)] + gs), p) == SegMatch([SCap(n)] + gs, Split(p))
  {
    var r := JoinAtoms(gs);
    JoinAtomsCons(SCap(n), gs);
    SegMatchCons(SCap(n), gs, Split(p));
    assert ([Cap(n)] + ([Ch('/')] + r))[1..] == [Ch('/')] + r;
    TryCapSlash(r, p, RunLen(p));
  }

  /** The segment theorem: for a whole-segment template and a path without a
      trailing newline, the engine matches the compiled pattern exactly when
      the path has the template's segment count, equal literal segments and
      non-empty placeholder segments; each placeholder captures its segment.
      `preg_match` gives that answer when the placeholder names are distinct
      and fails otherwise. */
  lemma MatchBySegments(template: string, path: string)
    requires WholeSegments(Trim(template)) && !EndsInNewline(path)
    ensures MatchAtoms(Atoms(Compile(template)), path) == SegMatch(TemplateSegs(template), Split(path))
    ensures Match(Compile(template), path) ==
      if Distinct(Names(Compile(template))) then SegMatch(TemplateSegs(template), Split(path)) else None
  {
    var t := Trim(template);
    TemplateAtoms(t);
    var gs := TemplateSegs(template);
    assert LitsNoSlash(gs) by {
      forall i | 0 <= i < |gs| && gs[i].SLit? ensures NoSlash(gs[i].text) {
        ClassifyAllAt(Split(t), i);
      }
    }
    MatchSegments(gs, path);
  }

  /** For a template whose placeholders fill whole segments and whose literal
      text holds no regex metacharacter, and a path without a trailing
      newline: the route matches exactly when its placeholder names are
      distinct and the path's segments line up with the template's. */
  lemma MatchIffSegmentsAgree(template: string, path: string)
    requires WholeSegments(Trim(template)) && PlainLiterals(Compile(template)) && !EndsInNewline(path)
    ensures Match(Compile(template), path).Some? <==>
      Distinct(Names(Compile(template))) && SegmentsAgree(TemplateSegs(template), Split(path))
  {
    MatchBySegments(template, path);
  }

  lemma {:induction false} ClassifyAllAt(ss: seq<string>, i: nat)
    requires i < |ss|
    ensures ClassifyAll(ss)[i] == Classify(ss[i])
  {
    if i > 0 {
      ClassifyAllAt(ss[1..], i - 1);
    }
  }
}
