/**
 * The handful of Python string operations the classification core relies on:
 * `str.isspace`, `str.strip`, `str.splitlines()[0]`, `str.lower`, the `in`
 * operator on strings, `"\n".join`, decimal formatting of a counter and the
 * truthiness test `if s:` on a string that may be `None`.
 */
module Strings {
  import opened Wrappers

  /** Python's `str.isspace` for one character. */
  predicate IsSpace(c: char) {
    c == ' ' || ('\t' <= c <= '\r') || ('\U{1C}' <= c <= '\U{1F}')
    || c == '\U{85}' || c == '\U{A0}' || c == '\U{1680}' || ('\U{2000}' <= c <= '\U{200A}')
    || c == '\U{2028}' || c == '\U{2029}' || c == '\U{202F}' || c == '\U{205F}' || c == '\U{3000}'
  }

  /** The line boundaries recognised by Python's `str.splitlines`. */
  predicate IsLineBreak(c: char) {
    ('\n' <= c <= '\r') || ('\U{1C}' <= c <= '\U{1E}')
    || c == '\U{85}' || c == '\U{2028}' || c == '\U{2029}'
  }

  /** Python truthiness of a value that is `None` or a string: `bool(s)`. */
  predicate Truthy(s: Option<string>) {
    s.Some? && s.value != ""
  }

  /** Python's `value or fallback` for a string that may be `None` or empty. */
  function OrElse(value: Option<string>, fallback: string): (r: string)
    ensures Truthy(value) ==> r == value.value
    ensures !Truthy(value) ==> r == fallback
  {
    if Truthy(value) then value.value else fallback
  }

  /** `str.lower`, restricted to ASCII letters. */
  function LowerChar(c: char): char {
    if 'A' <= c <= 'Z' then (c as int + 32) as char else c
  }

  function Lower(s: string): string {
    seq(|s|, i requires 0 <= i < |s| => LowerChar(s[i]))
  }

  lemma LowerIdempotent(s: string)
    ensures Lower(Lower(s)) == Lower(s)
  {
  }

  /** Python's `sub in s` for two strings. */
  predicate Contains(s: string, sub: string) {
    exists i :: 0 <= i <= |s| && sub <= s[i..]
  }

  lemma ContainsSelf(s: string)
    ensures Contains(s, s)
  {
    assert s <= s[0..];
  }

  lemma LowerOfLowercase(s: string)
    requires forall k :: 0 <= k < |s| ==> !('A' <= s[k] <= 'Z')
    ensures Lower(s) == s
  {
  }

  /** A string cannot contain a longer one. */
  lemma NotContainsLonger(s: string, sub: string)
    requires |sub| > |s|
    ensures !Contains(s, sub)
  {
  }

  /** A string contains a non-empty one only if it contains its first character. */
  lemma ContainsFirstChar(s: string, sub: string)
    requires sub != [] && sub[0] !in s
    ensures !Contains(s, sub)
  {
    forall i | 0 <= i <= |s|
      ensures !(sub <= s[i..])
    {
      if i < |s| {
        assert s[i] in s;
      }
    }
  }

  /** `s.lstrip()`: drops the leading whitespace and nothing else. */
  function TrimStart(s: string): (r: string)
    ensures |r| <= |s| && r == s[|s| - |r|..]
    ensures forall k :: 0 <= k < |s| - |r| ==> IsSpace(s[k])
    ensures r == [] || !IsSpace(r[0])
  {
    if s != [] && IsSpace(s[0]) then TrimStart(s[1..]) else s
  }

  /** `s.rstrip()`: drops the trailing whitespace and nothing else. */
  function TrimEnd(s: string): (r: string)
    ensures |r| <= |s| && r == s[..|r|]
    ensures forall k :: |r| <= k < |s| ==> IsSpace(s[k])
    ensures r == [] || !IsSpace(r[|r| - 1])
  {
    if s != [] && IsSpace(s[|s| - 1]) then TrimEnd(s[..|s| - 1]) else s
  }

  /**
   * `r` is `s` with its leading and trailing whitespace removed and nothing
   * else: the slice of `s` from `i`, only whitespace around it, none at its
   * ends.
   */
  ghost predicate StripAt(s: string, r: string, i: int) {
    0 <= i <= |s| - |r| && r == s[i..i + |r|]
    && (forall k :: 0 <= k < i ==> IsSpace(s[k]))
    && (forall k :: i + |r| <= k < |s| ==> IsSpace(s[k]))
    && (r == [] || (!IsSpace(r[0]) && !IsSpace(r[|r| - 1])))
  }

  ghost predicate IsStripOf(s: string, r: string) {
    exists i :: StripAt(s, r, i)
  }

  /** `s.strip()`. */
  function Strip(s: string): (r: string)
    ensures |r| <= |s|
    ensures IsStripOf(s, r)
  {
    StripWitness(s);
    TrimEnd(TrimStart(s))
  }

  /** `rstrip(lstrip(s))` is the strip of `s` that starts where `lstrip` stopped. */
  lemma StripWitness(s: string)
    ensures StripAt(s, TrimEnd(TrimStart(s)), |s| - |TrimStart(s)|)
  {
    StripWitnessSlice(s);
    StripWitnessTail(s);
  }

  /** The strip lies inside `s` where `lstrip` stopped, and starts with `lstrip`'s first character. */
  lemma StripWitnessSlice(s: string)
    ensures var t := TrimStart(s); var r := TrimEnd(t); var i := |s| - |t|;
            i + |r| <= |s| && r == s[i..i + |r|] && (r != [] ==> r[0] == t[0])
  {
    var t := TrimStart(s);
    var r := TrimEnd(t);
    assert r == t[..|r|];
  }

  /** Everything `rstrip` removed after the strip is white space. */
  lemma StripWitnessTail(s: string)
    ensures var t := TrimStart(s); var r := TrimEnd(t); var i := |s| - |t|;
            forall k :: i + |r| <= k < |s| ==> IsSpace(s[k])
  {
    var t := TrimStart(s);
    var r := TrimEnd(t);
    var i := |s| - |t|;
    forall k | i + |r| <= k < |s| ensures IsSpace(s[k]) {
      assert s[k] == t[k - i];
    }
  }

  /** A strip is empty exactly when the whole text is white space. */
  lemma StripAtEmpty(s: string, r: string, i: int)
    requires StripAt(s, r, i)
    ensures r == [] <==> forall k :: 0 <= k < |s| ==> IsSpace(s[k])
  {
    if r != [] { assert s[i] == r[0]; }
  }

  /** Stripping determines its result: any `r` that is a strip of `s` is `Strip(s)`. */
  lemma StripUnique(s: string, r: string)
    requires IsStripOf(s, r)
    ensures r == Strip(s)
  {
    var q := Strip(s);
    var i :| StripAt(s, r, i);
    var j :| StripAt(s, q, j);
    StripAtEmpty(s, r, i);
    StripAtEmpty(s, q, j);
    if r != [] {
      StripAtSame(s, r, i, q, j);
    }
  }

  /** Two non-empty strips of the same text start and end at the same places. */
  lemma StripAtSame(s: string, r: string, i: int, q: string, j: int)
    requires StripAt(s, r, i) && StripAt(s, q, j) && r != [] && q != []
    ensures r == q
  {
    assert s[i] == r[0] && s[j] == q[0];
    assert i == j;
    assert s[i + |r| - 1] == r[|r| - 1] && s[j + |q| - 1] == q[|q| - 1];
    assert |r| == |q|;
  }

  lemma StripUntrimmed(s: string)
    requires s != [] && !IsSpace(s[0]) && !IsSpace(s[|s| - 1])
    ensures Strip(s) == s
  {
  }

  /** `s.splitlines()[0]` for a non-empty `s`: everything before the first line boundary. */
  function FirstLine(s: string): (r: string)
    ensures |r| <= |s| && r == s[..|r|]
    ensures forall k :: 0 <= k < |r| ==> !IsLineBreak(r[k])
    ensures |r| < |s| ==> IsLineBreak(s[|r|])
  {
    if s == [] || IsLineBreak(s[0]) then [] else [s[0]] + FirstLine(s[1..])
  }

  /** Leading white space makes no difference to `lstrip`. */
  lemma {:induction false} TrimStartSkips(w: string, u: string)
    requires forall k :: 0 <= k < |w| ==> IsSpace(w[k])
    ensures TrimStart(w + u) == TrimStart(u)
  {
    if w != [] {
      var s := w + u;
      assert s[0] == w[0] && IsSpace(s[0]);
      assert s[1..] == w[1..] + u;
      TrimStartSkips(w[1..], u);
      calc {
        TrimStart(s);
        TrimStart(s[1..]);
        TrimStart(w[1..] + u);
        TrimStart(u);
      }
    } else {
      assert w + u == u;
    }
  }

  /** `lstrip` stops inside `x` when `x` has a non-space character, so what follows `x` is kept whole. */
  lemma {:induction false} TrimStartKeepsTail(x: string, z: string)
    requires exists k :: 0 <= k < |x| && !IsSpace(x[k])
    ensures TrimStart(x + z) == TrimStart(x) + z
  {
    if IsSpace(x[0]) {
      var k :| 0 <= k < |x| && !IsSpace(x[k]);
      assert x[1..][k - 1] == x[k];
      assert (x + z)[1..] == x[1..] + z;
      TrimStartKeepsTail(x[1..], z);
      assert (x + z)[0] == x[0];
    } else {
      assert (x + z)[0] == x[0];
    }
  }

  /** `rstrip` of `p + z`: all of `z` goes when it is blank, otherwise `p` stays whole. */
  lemma {:induction false} TrimEndSplit(p: string, z: string)
    ensures (forall k :: 0 <= k < |z| ==> IsSpace(z[k])) ==> TrimEnd(p + z) == TrimEnd(p)
    ensures (exists k :: 0 <= k < |z| && !IsSpace(z[k])) ==> TrimEnd(p + z) == p + TrimEnd(z)
  {
    if z == [] {
      assert p + z == p;
    } else {
      var init := z[..|z| - 1];
      var s := p + z;
      assert s[..|s| - 1] == p + init;
      assert s[|s| - 1] == z[|z| - 1];
      TrimEndSplit(p, init);
      if IsSpace(z[|z| - 1]) {
        assert TrimEnd(s) == TrimEnd(p + init);
        assert TrimEnd(z) == TrimEnd(init);
        forall k | 0 <= k < |z| && !IsSpace(z[k])
          ensures exists k' :: 0 <= k' < |init| && !IsSpace(init[k'])
        {
          assert init[k] == z[k];
        }
      } else {
        assert TrimEnd(s) == s;
        assert TrimEnd(z) == z;
      }
    }
  }

  /** A text without line boundaries is its own first line. */
  lemma {:induction false} FirstLineWhole(x: string)
    requires forall k :: 0 <= k < |x| ==> !IsLineBreak(x[k])
    ensures FirstLine(x) == x
  {
    if x != [] {
      FirstLineWhole(x[1..]);
    }
  }

  /** The first line of `p + z` is `p` when `p` has no line boundary and `z` starts with one. */
  lemma {:induction false} FirstLineStops(p: string, z: string)
    requires forall k :: 0 <= k < |p| ==> !IsLineBreak(p[k])
    requires z != [] && IsLineBreak(z[0])
    ensures FirstLine(p + z) == p
  {
    if p != [] {
      assert (p + z)[1..] == p[1..] + z;
      FirstLineStops(p[1..], z);
    }
  }

  /** `lstrip` of a line with a non-space character: non-empty, starts with it, and no line boundary. */
  lemma TrimStartOfLine(line: string)
    requires exists k :: 0 <= k < |line| && !IsSpace(line[k])
    requires forall k :: 0 <= k < |line| ==> !IsLineBreak(line[k])
    ensures var p := TrimStart(line);
            p != [] && !IsSpace(p[0]) && forall k :: 0 <= k < |p| ==> !IsLineBreak(p[k])
  {
    var p := TrimStart(line);
    forall k | 0 <= k < |p| ensures !IsLineBreak(p[k]) {
      assert p[k] == line[|line| - |p| + k];
    }
  }

  /** For `p` starting with a non-space character, `strip` is `rstrip`, and `rstrip(p)` is stripped already. */
  lemma StripOfLeftTrimmed(p: string)
    requires p != [] && !IsSpace(p[0])
    requires forall k :: 0 <= k < |p| ==> !IsLineBreak(p[k])
    ensures Strip(p) == TrimEnd(p)
    ensures var e := TrimEnd(p);
            e != [] && Strip(e) == e && forall k :: 0 <= k < |e| ==> !IsLineBreak(e[k])
  {
    var e := TrimEnd(p);
    assert TrimStart(p) == p;
    assert e != [] && e[0] == p[0];
    assert TrimStart(e) == e;
    forall k | 0 <= k < |e| ensures !IsLineBreak(e[k]) {
      assert e[k] == p[k];
    }
  }

  /** `strip(splitlines(rstrip(p + z))[0])` for a left-trimmed line `p` and a `z` that is empty or starts with a line break. */
  lemma FirstLineOfRightTrimmed(p: string, z: string)
    requires p != [] && !IsSpace(p[0])
    requires forall k :: 0 <= k < |p| ==> !IsLineBreak(p[k])
    requires z == [] || IsLineBreak(z[0])
    ensures TrimEnd(p + z) != ""
    ensures Strip(FirstLine(TrimEnd(p + z))) == TrimEnd(p)
  {
    StripOfLeftTrimmed(p);
    TrimEndSplit(p, z);
    if exists k :: 0 <= k < |z| && !IsSpace(z[k]) {
      var q := TrimEnd(z);
      assert q != [] && q[0] == z[0];
      FirstLineStops(p, q);
    } else {
      FirstLineWhole(TrimEnd(p));
    }
  }

  /** `lstrip` of a line after blank space stops inside the line, whatever follows it. */
  lemma TrimStartPadded(w: string, line: string, z: string)
    requires forall k :: 0 <= k < |w| ==> IsSpace(w[k])
    requires exists k :: 0 <= k < |line| && !IsSpace(line[k])
    ensures TrimStart(w + line + z) == TrimStart(line) + z
  {
    assert w + line + z == w + (line + z);
    TrimStartSkips(w, line + z);
    TrimStartKeepsTail(line, z);
  }

  /** The stripped first line of `rstrip(lstrip(line) + z)`, for `z` empty or starting with a line break, is `strip(line)`. */
  lemma FirstLineOfLine(line: string, z: string)
    requires exists k :: 0 <= k < |line| && !IsSpace(line[k])
    requires forall k :: 0 <= k < |line| ==> !IsLineBreak(line[k])
    requires z == [] || IsLineBreak(z[0])
    ensures TrimEnd(TrimStart(line) + z) != ""
    ensures Strip(FirstLine(TrimEnd(TrimStart(line) + z))) == Strip(line)
  {
    TrimStartOfLine(line);
    FirstLineOfRightTrimmed(TrimStart(line), z);
  }

  /**
   * The first non-blank line of a text, stripped, is what `strip`, then
   * `splitlines()[0]`, then `strip` again extract from it: leading blank
   * lines and padding go, and nothing from the line's break (any of
   * `splitlines`' boundaries) on matters; the line may also end the text.
   */
  lemma FirstStrippedLine(w: string, line: string, z: string)
    requires forall k :: 0 <= k < |w| ==> IsSpace(w[k])
    requires exists k :: 0 <= k < |line| && !IsSpace(line[k])
    requires forall k :: 0 <= k < |line| ==> !IsLineBreak(line[k])
    requires z == [] || IsLineBreak(z[0])
    ensures Strip(w + line + z) != ""
    ensures Strip(FirstLine(Strip(w + line + z))) == Strip(line)
  {
    TrimStartPadded(w, line, z);
    FirstLineOfLine(line, z);
  }

  /** `"\n".join(lines)`. */
  function JoinLines(lines: seq<string>): string {
    if lines == [] then ""
    else if |lines| == 1 then lines[0]
    else lines[0] + "\n" + JoinLines(lines[1..])
  }

  function DigitChar(d: nat): char
    requires d < 10
  {
    ('0' as int + d) as char
  }

  /** `str(n)` for a natural number. */
  function NatToString(n: nat): (r: string)
    ensures |r| >= 1
    ensures forall k :: 0 <= k < |r| ==> '0' <= r[k] <= '9'
  {
    if n < 10 then [DigitChar(n)] else NatToString(n / 10) + [DigitChar(n % 10)]
  }

  /**
   * `s.split(c)[-1]`: the text after the last occurrence of `c`, or all of
   * `s` when `c` does not occur in it.
   */
  function AfterLast(s: string, c: char): (r: string)
    ensures |r| <= |s| && r == s[|s| - |r|..]
    ensures c !in r
    ensures |r| < |s| ==> s[|s| - |r| - 1] == c
  {
    if s == [] then []
    else if s[|s| - 1] == c then []
    else AfterLast(s[..|s| - 1], c) + [s[|s| - 1]]
  }
}
