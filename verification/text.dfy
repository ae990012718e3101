/** Byte-string helpers shared by the route compiler, the path normaliser and
    the matcher. A PHP string is a sequence of bytes; in this model each byte
    is a `char` whose code is below 256. */
module Text {

  datatype Option<+T> = None | Some(value: T)

  /** The character list `" \t\n\r/"` that both the route compiler and the
      path normaliser hand to PHP's `trim`. */
  predicate IsTrimChar(c: char) {
    c == ' ' || c == '\t' || c == '\n' || c == '\r' || c == '/'
  }

  predicate AllTrim(s: string) {
    forall i :: 0 <= i < |s| ==> IsTrimChar(s[i])
  }

  /** `ltrim`: drop every leading trim character. */
  function TrimLeft(s: string): (r: string)
    ensures |r| <= |s| && r == s[|s| - |r|..]
    ensures AllTrim(s[..|s| - |r|])
    ensures r == [] || !IsTrimChar(r[0])
  {
    if s != [] && IsTrimChar(s[0]) then TrimLeft(s[1..]) else s
  }

  /** `rtrim`: drop every trailing trim character. */
  function TrimRight(s: string): (r: string)
    ensures |r| <= |s| && r == s[..|r|]
    ensures AllTrim(s[|r|..])
    ensures r == [] || !IsTrimChar(r[|r| - 1])
  {
    if s != [] && IsTrimChar(s[|s| - 1]) then TrimRight(s[..|s| - 1]) else s
  }

  /** `r` sits in `s` at offset `i` with nothing but trim characters around it. */
  predicate Surrounds(s: string, i: int, r: string) {
    0 <= i && i + |r| <= |s| && s[i..i + |r|] == r && AllTrim(s[..i]) && AllTrim(s[i + |r|..])
  }

  /** PHP `trim($s, " \t\n\r/")`: the longest middle piece of `s` that neither
      starts nor ends with a trim character. */
  function Trim(s: string): (r: string)
    ensures r == [] || (!IsTrimChar(r[0]) && !IsTrimChar(r[|r| - 1]))
    ensures Surrounds(s, |s| - |TrimLeft(s)|, r)
  {
    TrimParts(s, TrimLeft(s));
    TrimRight(TrimLeft(s))
  }

  lemma TrimParts(s: string, l: string)
    requires l == TrimLeft(s)
    ensures var r := TrimRight(l);
      (r == [] || (!IsTrimChar(r[0]) && !IsTrimChar(r[|r| - 1]))) && Surrounds(s, |s| - |l|, r)
  {
    var r := TrimRight(l);
    if r != [] { assert r[0] == l[0]; }
    Around(s, l, r);
  }

  /** A prefix `r` of a suffix `l` of `s`, with only trim characters cut off. */
  lemma Around(s: string, l: string, r: string)
    requires |l| <= |s| && l == s[|s| - |l|..] && AllTrim(s[..|s| - |l|])
    requires |r| <= |l| && r == l[..|r|] && AllTrim(l[|r|..])
    ensures Surrounds(s, |s| - |l|, r)
  {
    var i := |s| - |l|;
    assert s[i..i + |r|] == r;
    assert s[i + |r|..] == l[|r|..];
  }

  /** A trim character added at either end never changes the trimmed result:
      leading and trailing slashes and whitespace are irrelevant to routing. */
  lemma {:induction false} TrimAbsorbs(c: char, x: string)
    requires IsTrimChar(c)
    ensures Trim([c] + x) == Trim(x)
    ensures Trim(x + [c]) == Trim(x)
  {
    assert ([c] + x)[1..] == x;
    assert TrimLeft([c] + x) == TrimLeft(x);
    TrimLeftAppend(x, c);
    var l := TrimLeft(x);
    if l != [] {
      TrimRightDrop(l, c);
    }
  }

  lemma TrimRightDrop(l: string, c: char)
    requires IsTrimChar(c)
    ensures TrimRight(l + [c]) == TrimRight(l)
  {
    assert (l + [c])[..|l + [c]| - 1] == l;
  }

  lemma {:induction false} TrimLeftAppend(x: string, c: char)
    requires IsTrimChar(c)
    ensures TrimLeft(x + [c]) == if TrimLeft(x) == [] then [] else TrimLeft(x) + [c]
  {
    if x == [] {
    } else {
      assert (x + [c])[0] == x[0];
      assert (x + [c])[1..] == x[1..] + [c];
      if IsTrimChar(x[0]) {
        TrimLeftAppend(x[1..], c);
      }
    }
  }

  /** A string that starts and ends with non-trim characters is its own trim. */
  lemma TrimNoop(s: string)
    requires s != [] && !IsTrimChar(s[0]) && !IsTrimChar(s[|s| - 1])
    ensures Trim(s) == s
  {
    assert TrimLeft(s) == s;
    assert s[..|s|] == s;
  }

  /** PHP `strtolower` on one byte: ASCII letters only. */
  function LowerChar(c: char): char {
    if 'A' <= c <= 'Z' then (c as int + 32) as char else c
  }

  /** PHP `strtolower`: ASCII case folding, every other byte unchanged. */
  function Lower(s: string): (r: string)
    ensures |r| == |s|
    ensures forall i :: 0 <= i < |s| ==> r[i] == LowerChar(s[i])
  {
    if s == [] then [] else [LowerChar(s[0])] + Lower(s[1..])
  }

  /** Number of leading characters of `s` before the first `/`: the longest
      run that `[^/]+` can take at the start of `s`. */
  function RunLen(s: string): (n: nat)
    ensures n <= |s|
    ensures forall i :: 0 <= i < n ==> s[i] != '/'
    ensures n < |s| ==> s[n] == '/'
  {
    if s == [] || s[0] == '/' then 0 else 1 + RunLen(s[1..])
  }

  predicate NoSlash(s: string) {
    forall i :: 0 <= i < |s| ==> s[i] != '/'
  }
}
