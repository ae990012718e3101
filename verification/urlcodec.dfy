/** The request-path normaliser of `Velix::dispatch` (Velix.php:186):
    `urldecode(trim($uri, " \t\n\r/"))`. PHP's `urldecode` is the
    percent-decoding of section 2.1 of RFC 3986 with one extra rule, `+`
    becomes a space; a `%` not followed by two hex digits is kept as it is. */
module UrlCodec {
  import opened Text

  predicate IsHex(c: char) {
    ('0' <= c <= '9') || ('a' <= c <= 'f') || ('A' <= c <= 'F')
  }

  function HexVal(c: char): (v: nat)
    requires IsHex(c)
    ensures v < 16
  {
    if '0' <= c <= '9' then c as int - '0' as int
    else if 'a' <= c <= 'f' then c as int - 'a' as int + 10
    else c as int - 'A' as int + 10
  }

  /** The byte written as the two hex digits `hi lo`. */
  function HexByte(hi: char, lo: char): (b: char)
    requires IsHex(hi) && IsHex(lo)
    ensures b as int < 256
  {
    (16 * HexVal(hi) + HexVal(lo)) as char
  }

  /** PHP `urldecode`, one byte at a time, never rescanning its own output. */
  function UrlDecode(s: string): (r: string)
    ensures |r| <= |s|
    decreases |s|
  {
    if s == [] then []
    else if s[0] == '+' then [' '] + UrlDecode(s[1..])
    else if s[0] == '%' && |s| >= 3 && IsHex(s[1]) && IsHex(s[2]) then
      [HexByte(s[1], s[2])] + UrlDecode(s[3..])
    else [s[0]] + UrlDecode(s[1..])
  }

  /** The path the matcher sees: trimmed first, decoded second (Velix.php:186). */
  function NormalizePath(path: string): string {
    UrlDecode(Trim(path))
  }

  // ---- A reference inverse: PHP `urlencode` ----

  predicate IsBytes(s: string) {
    forall i :: 0 <= i < |s| ==> s[i] as int < 256
  }

  /** Upper-case hex digit of `d`. */
  function HexDigit(d: nat): (c: char)
    requires d < 16
    ensures IsHex(c) && HexVal(c) == d
  {
    if d < 10 then ('0' as int + d) as char else ('A' as int + d - 10) as char
  }

  /** Bytes that `urlencode` leaves as they are. */
  predicate Unreserved(c: char) {
    ('a' <= c <= 'z') || ('A' <= c <= 'Z') || ('0' <= c <= '9') || c == '-' || c == '_' || c == '.'
  }

  function EncodeByte(c: char): string
    requires c as int < 256
  {
    if Unreserved(c) then [c]
    else if c == ' ' then "+"
    else ['%', HexDigit(c as int / 16), HexDigit(c as int % 16)]
  }

  function UrlEncode(s: string): string
    requires IsBytes(s)
  {
    if s == [] then [] else EncodeByte(s[0]) + UrlEncode(s[1..])
  }

  lemma DecodeEncodedByte(c: char, rest: string)
    requires c as int < 256
    ensures UrlDecode(EncodeByte(c) + rest) == [c] + UrlDecode(rest)
  {
    var e := EncodeByte(c) + rest;
    if Unreserved(c) {
      assert e[1..] == rest;
    } else if c == ' ' {
      assert e[1..] == rest;
    } else {
      var hi, lo := HexDigit(c as int / 16), HexDigit(c as int % 16);
      assert e[0] == '%' && e[1] == hi && e[2] == lo && e[3..] == rest;
      assert HexByte(hi, lo) == c;
    }
  }

  /** Decoding undoes `urlencode` on every byte string. */
  lemma {:induction false} DecodeEncode(s: string)
    requires IsBytes(s)
    ensures UrlDecode(UrlEncode(s)) == s
  {
    if s != [] {
      DecodeEncode(s[1..]);
      DecodeEncodedByte(s[0], UrlEncode(s[1..]));
      assert [s[0]] + s[1..] == s;
    }
  }

  // ---- Normalisation ----

  /** Trim characters at either end of the raw path never change the
      normalised path. */
  lemma NormalizeIgnoresBoundary(c: char, path: string)
    requires IsTrimChar(c)
    ensures NormalizePath([c] + path) == NormalizePath(path)
    ensures NormalizePath(path + [c]) == NormalizePath(path)
  {
    TrimAbsorbs(c, path);
  }

  /** Normalisation is not idempotent: decoding runs after trimming, so an
      encoded space at the edge survives one pass and is trimmed by the next. */
  lemma NormalizeNotIdempotent()
    ensures NormalizePath("%20a") == " a"
    ensures NormalizePath(NormalizePath("%20a")) == "a"
  {
    var p := "%20a";
    TrimNoop(p);
    assert p[3..] == "a";
    DecodePlain("a");
    assert HexByte('2', '0') == ' ';
    assert UrlDecode(p) == " a";
    var q := " a";
    assert q[1..] == "a";
    assert TrimLeft(q) == "a";
    assert TrimRight("a") == "a";
  }

  /** Text that decoding passes through unchanged. */
  predicate Plain(a: string) {
    forall i :: 0 <= i < |a| ==> a[i] != '%' && a[i] != '+'
  }

  lemma PlainConcat(a: string, b: string)
    requires Plain(a) && Plain(b)
    ensures Plain(a + b)
  {
    assert forall i :: |a| <= i < |a + b| ==> (a + b)[i] == b[i - |a|];
  }

  /** An encoded slash becomes a real one: `api%2Fusers` is routed as the two
      segments `api` and `users`. */
  lemma EncodedSlashSplits(a: string, b: string)
    requires Plain(a) && Plain(b)
    requires a != [] && !IsTrimChar(a[0]) && b != [] && !IsTrimChar(b[|b| - 1])
    ensures NormalizePath(a + "%2F" + b) == a + "/" + b
  {
    var e := "%2F" + b;
    EdgesKept(a, e);
    assert a + e == a + "%2F" + b;
    DecodeSlash(b);
    DecodePlainPrefix(a, e);
    assert a + ("/" + b) == a + "/" + b;
  }

  /** A string whose first and last bytes are not trim characters. */
  lemma EdgesKept(a: string, e: string)
    requires a != [] && !IsTrimChar(a[0]) && e != [] && !IsTrimChar(e[|e| - 1])
    ensures Trim(a + e) == a + e
  {
    var p := a + e;
    assert p[0] == a[0] && p[|p| - 1] == e[|e| - 1];
    TrimNoop(p);
  }

  lemma DecodeSlash(b: string)
    requires Plain(b)
    ensures UrlDecode("%2F" + b) == "/" + b
  {
    DecodeEscape('2', 'F', b);
    assert ['%', '2', 'F'] + b == "%2F" + b;
    assert HexByte('2', 'F') == '/';
    DecodePlain(b);
  }

  lemma DecodeEscape(hi: char, lo: char, rest: string)
    requires IsHex(hi) && IsHex(lo)
    ensures UrlDecode(['%', hi, lo] + rest) == [HexByte(hi, lo)] + UrlDecode(rest)
  {
    assert (['%', hi, lo] + rest)[3..] == rest;
  }

  lemma DecodeOther(s: string)
    requires s != [] && s[0] != '%' && s[0] != '+'
    ensures UrlDecode(s) == [s[0]] + UrlDecode(s[1..])
  {
  }

  /** A `%` not followed by two hex digits is copied and scanning goes on
      right after it. */
  lemma DecodeMalformed(s: string)
    requires s != [] && s[0] == '%' && !(|s| >= 3 && IsHex(s[1]) && IsHex(s[2]))
    ensures UrlDecode(s) == "%" + UrlDecode(s[1..])
  {
  }

  /** Decoded output is never scanned again: `%2541` decodes to `%41`, not `A`;
      `+` becomes a space and a truncated escape stays as it is. */
  lemma DecodeExamples()
    ensures UrlDecode("%2541") == "%41"
    ensures UrlDecode("a+b") == "a b"
    ensures UrlDecode("%4") == "%4"
  {
    DecodeEscape('2', '5', "41");
    assert ['%', '2', '5'] + "41" == "%2541";
    assert HexByte('2', '5') == '%';
    DecodePlain("41");
    var t := "a+b";
    assert t[1..] == "+b" && t[1..][1..] == "b";
    DecodePlain("b");
    var u := "%4";
    DecodeMalformed(u);
    assert u[1..] == "4";
    DecodePlain("4");
  }

  /** Text without `%` and `+` passes through decoding unchanged. */
  lemma {:induction false} DecodePlainPrefix(a: string, b: string)
    requires Plain(a)
    ensures UrlDecode(a + b) == a + UrlDecode(b)
  {
    if a != [] {
      var s := a + b;
      assert s[0] == a[0] && s[1..] == a[1..] + b;
      DecodePlainPrefix(a[1..], b);
      DecodeOther(s);
      assert [a[0]] + (a[1..] + UrlDecode(b)) == a + UrlDecode(b);
    } else {
      assert a + b == b;
    }
  }

  /** Decoding is the identity on text without `%` and `+`. */
  lemma DecodePlain(a: string)
    requires Plain(a)
    ensures UrlDecode(a) == a
  {
    DecodePlainPrefix(a, []);
    assert a + [] == a;
  }
}
