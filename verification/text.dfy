/** Character classes, trimming, substring search and line splitting with the
    meaning Python 3 gives them on `str` values. Every other module builds on
    these definitions. */
module Text {

  /** `str.isspace()`; the regular-expression class `\s` on a `str` pattern
      matches exactly the same characters, and `str.strip()` removes them. */
  predicate IsSpace(c: char) {
    || ('\t' <= c <= '\r')
    || ('\U{1C}' <= c <= '\U{1F}')
    || c == ' '
    || c == '\U{85}'
    || c == '\U{A0}'
    || c == '\U{1680}'
    || ('\U{2000}' <= c <= '\U{200A}')
    || c == '\U{2028}'
    || c == '\U{2029}'
    || c == '\U{202F}'
    || c == '\U{205F}'
    || c == '\U{3000}'
  }

  /** A line terminator of a file opened in text mode (universal newlines). */
  predicate IsBreak(c: char) {
    c == '\n' || c == '\r'
  }

  /** No character of `s` ends a line. */
  predicate NoBreak(s: string) {
    forall i :: 0 <= i < |s| ==> !IsBreak(s[i])
  }

  predicate AllSpace(s: string) {
    forall i :: 0 <= i < |s| ==> IsSpace(s[i])
  }

  /** Neither end of `s` is whitespace: `s.strip() == s`. */
  predicate IsStripped(s: string) {
    s == [] || (!IsSpace(s[0]) && !IsSpace(s[|s| - 1]))
  }

  /** `s.lstrip()`: the suffix left after the leading whitespace run. */
  function TrimLeft(s: string): (r: string)
    ensures |r| <= |s| && r == s[|s| - |r|..]
    ensures forall i :: 0 <= i < |s| - |r| ==> IsSpace(s[i])
    ensures r == [] || !IsSpace(r[0])
  {
    if |s| > 0 && IsSpace(s[0]) then TrimLeft(s[1..]) else s
  }

  /** `s.rstrip()`: the prefix left before the trailing whitespace run. */
  function TrimRight(s: string): (r: string)
    ensures |r| <= |s| && r == s[..|r|]
    ensures forall i :: |r| <= i < |s| ==> IsSpace(s[i])
    ensures r == [] || !IsSpace(r[|r| - 1])
  {
    if |s| > 0 && IsSpace(s[|s| - 1]) then TrimRight(s[..|s| - 1]) else s
  }

  /** `s.strip()`. */
  function Strip(s: string): (r: string)
    ensures IsStripped(r)
    ensures |r| <= |s|
    ensures forall c :: c in r ==> c in s
    ensures r == [] <==> AllSpace(s)
    ensures exists i :: Infix(s, i, r)
  {
    var l := TrimLeft(s);
    var r := TrimRight(l);
    TrimEmpty(s, l, r);
    SliceChars(s, |s| - |l|, |s|);
    SliceChars(l, 0, |r|);
    TrimInfix(s, l, r);
    r
  }

  /** `r` is the piece of `s` starting at `i`, and everything around it is
      whitespace. */
  predicate Infix(s: string, i: nat, r: string) {
    i + |r| <= |s| && r == s[i..i + |r|] && AllSpace(s[..i]) && AllSpace(s[i + |r|..])
  }

  /** Only a leading and a trailing run of whitespace is removed: what is left
      is one contiguous piece of the input. */
  lemma TrimInfix(s: string, l: string, r: string)
    requires l == TrimLeft(s) && r == TrimRight(l)
    ensures Infix(s, |s| - |l|, r)
  {
    SpacesBefore(s, |s| - |l|);
    SpacesAfter(l, |r|);
    InfixOfSuffix(s, l, r);
  }

  lemma SpacesBefore(s: string, i: nat)
    requires i <= |s| && forall k :: 0 <= k < i ==> IsSpace(s[k])
    ensures AllSpace(s[..i])
  {
    assert forall k | 0 <= k < i :: s[..i][k] == s[k];
  }

  lemma SpacesAfter(l: string, n: nat)
    requires n <= |l| && forall k :: n <= k < |l| ==> IsSpace(l[k])
    ensures AllSpace(l[n..])
  {
    assert forall k | 0 <= k < |l| - n :: l[n..][k] == l[n + k];
  }

  lemma InfixOfSuffix(s: string, l: string, r: string)
    requires |l| <= |s| && l == s[|s| - |l|..]
    requires |r| <= |l| && r == l[..|r|]
    requires AllSpace(s[..|s| - |l|]) && AllSpace(l[|r|..])
    ensures Infix(s, |s| - |l|, r)
  {
    var i := |s| - |l|;
    assert s[i + |r|..] == l[|r|..];
    assert s[i..i + |r|] == l[..|r|];
  }

  /** Stripping leaves nothing exactly when every character is whitespace. */
  lemma TrimEmpty(s: string, l: string, r: string)
    requires l == TrimLeft(s) && r == TrimRight(l)
    ensures r == [] <==> AllSpace(s)
  {
    if r == [] {
      assert l == [];
    }
  }

  lemma SliceChars(s: string, a: nat, b: nat)
    requires a <= b <= |s|
    ensures forall c :: c in s[a..b] ==> c in s
  {
    forall c | c in s[a..b] ensures c in s {
      var k :| 0 <= k < b - a && s[a..b][k] == c;
      assert s[a + k] == c;
    }
  }

  lemma {:induction false} StripOfStripped(s: string)
    requires IsStripped(s)
    ensures Strip(s) == s
  {
    assert TrimLeft(s) == s;
    assert TrimRight(s) == s;
  }

  lemma {:induction false} TrimLeftIdempotent(s: string)
    ensures TrimLeft(TrimLeft(s)) == TrimLeft(s)
  {
  }

  /** Whitespace in front of a stripped text is all `strip` removes. */
  lemma StripAfterSpaces(ws: string, u: string)
    requires AllSpace(ws) && IsStripped(u)
    ensures Strip(ws + u) == u
  {
    TrimLeftSpaces(ws, u);
    assert TrimRight(u) == u;
  }

  lemma {:induction false} TrimLeftSpaces(ws: string, u: string)
    requires AllSpace(ws) && (u == [] || !IsSpace(u[0]))
    ensures TrimLeft(ws + u) == u
    decreases |ws|
  {
    if ws == [] {
      assert ws + u == u;
    } else {
      assert (ws + u)[0] == ws[0];
      assert (ws + u)[1..] == ws[1..] + u;
      TrimLeftSpaces(ws[1..], u);
    }
  }

  /** `t` occurs in `s` as a contiguous run (Python's `t in s`). */
  predicate Contains(s: string, t: string)
    decreases |s|
  {
    if |s| < |t| then false else s[..|t|] == t || Contains(s[1..], t)
  }

  /** A character that can never be part of a needle cannot make one appear. */
  lemma {:induction false} ContainsSplit(a: string, c: char, b: string, t: string)
    requires c !in t
    requires Contains(a + [c] + b, t)
    ensures Contains(a, t) || Contains(b, t)
    decreases |a|
  {
    var s := a + [c] + b;
    assert s[|a|] == c;
    assert |t| > |a| ==> s[..|t|] != t by {
      if |t| > |a| {
        assert s[..|t|][|a|] == c;
      }
    }
    if |a| == 0 {
      assert s[1..] == b;
    } else {
      assert |t| <= |a| ==> s[..|t|] == a[..|t|];
      assert s[1..] == a[1..] + [c] + b;
      if s[..|t|] != t {
        ContainsSplit(a[1..], c, b, t);
      }
    }
  }

  /** A text lacking one of the needle's characters cannot contain it. */
  lemma {:induction false} MissingChar(s: string, t: string, c: char)
    requires c in t && c !in s
    ensures !Contains(s, t)
    decreases |s|
  {
    if |s| >= |t| {
      var j :| 0 <= j < |t| && t[j] == c;
      assert s[..|t|][j] == s[j];
      assert s[j] in s;
      SliceChars(s, 1, |s|);
      assert s[1..|s|] == s[1..];
      MissingChar(s[1..], t, c);
    }
  }

  /** ASCII upper-case letters to lower case; every other character kept. */
  function LowerChar(c: char): (r: char)
    ensures ('A' <= c <= 'Z') ==> r != c
    ensures !('A' <= c <= 'Z') ==> r == c
  {
    if 'A' <= c <= 'Z' then (c as int + 32) as char else c
  }

  /** `s.lower()` as far as ASCII letters are concerned. */
  function Lower(s: string): (r: string)
    ensures |r| == |s|
    ensures forall i :: 0 <= i < |s| ==> r[i] == LowerChar(s[i])
  {
    seq(|s|, i requires 0 <= i < |s| => LowerChar(s[i]))
  }

  /** Lowering both sides keeps an occurrence an occurrence. */
  lemma {:induction false} LowerContains(s: string, t: string)
    requires Contains(s, t)
    ensures Contains(Lower(s), Lower(t))
    decreases |s|
  {
    if s[..|t|] == t {
      assert Lower(s)[..|t|] == Lower(t);
    } else {
      LowerContains(s[1..], t);
      assert Lower(s)[1..] == Lower(s[1..]);
    }
  }

  /** An occurrence in the lowered text is the lowering of an occurrence in
      the text itself. */
  lemma {:induction false} UnlowerContains(s: string, n: string)
    requires Contains(Lower(s), n)
    ensures exists t :: Contains(s, t) && Lower(t) == n
    decreases |s|
  {
    var t := s[..|n|];
    if Lower(s)[..|n|] == n {
      assert Lower(t) == n;
      assert Contains(s, t);
    } else {
      assert Lower(s)[1..] == Lower(s[1..]);
      UnlowerContains(s[1..], n);
      var u :| Contains(s[1..], u) && Lower(u) == n;
      assert |s[1..]| >= |u|;
      assert Contains(s, u);
    }
  }

  /** `s.startswith(p)`. */
  predicate StartsWith(s: string, p: string) {
    |p| <= |s| && s[..|p|] == p
  }

  /** `s.endswith(p)`. */
  predicate EndsWith(s: string, p: string) {
    |p| <= |s| && s[|s| - |p|..] == p
  }

  /** The index of the first occurrence of `c` in `s` (`s.find(c)`), which
      `s.split(c, 1)` cuts at. */
  function IndexOf(s: string, c: char): (i: nat)
    requires c in s
    ensures i < |s| && s[i] == c
    ensures c !in s[..i]
  {
    if s[0] == c then 0 else 1 + IndexOf(s[1..], c)
  }

  /** The length of the first line of `t`: the index of the first terminator. */
  function LineLength(t: string): (n: nat)
    ensures n <= |t|
    ensures NoBreak(t[..n])
    ensures n < |t| ==> IsBreak(t[n])
  {
    if t == [] || IsBreak(t[0]) then 0 else 1 + LineLength(t[1..])
  }

  /** The lines of a file read in text mode (`f.readlines()` or `for line in
      f`), with their terminators dropped. `\r\n`, a lone `\r` and `\n` each
      end a line; a final terminator does not start an empty line. */
  function ReadLines(t: string): (r: seq<string>)
    ensures forall k :: 0 <= k < |r| ==> NoBreak(r[k])
    decreases |t|
  {
    if t == [] then []
    else
      var n := LineLength(t);
      if n == |t| then [t]
      else
        var next := if t[n] == '\r' && n + 1 < |t| && t[n + 1] == '\n' then n + 2 else n + 1;
        [t[..n]] + ReadLines(t[next..])
  }

  /** What `for u in us: f.write(u + '\n')` leaves in a file. */
  function WriteLines(us: seq<string>): (t: string)
    ensures |us| > 0 ==> |t| > 0 && t[|t| - 1] == '\n'
  {
    if us == [] then [] else us[0] + "\n" + WriteLines(us[1..])
  }

  /** Reading back what was written yields the same lines, as long as no line
      carries a terminator of its own. */
  lemma {:induction false} ReadWriteLines(us: seq<string>)
    requires forall k :: 0 <= k < |us| ==> NoBreak(us[k])
    ensures ReadLines(WriteLines(us)) == us
  {
    if us != [] {
      var u := us[0];
      var rest := WriteLines(us[1..]);
      var t := u + "\n" + rest;
      assert WriteLines(us) == t;
      LineLengthOfLine(u, rest);
      assert t[|u|] == '\n';
      assert t[..|u|] == u;
      assert t[|u| + 1..] == rest;
      assert ReadLines(t) == [u] + ReadLines(rest);
      ReadWriteLines(us[1..]);
    }
  }

  lemma {:induction false} LineLengthOfLine(u: string, rest: string)
    requires NoBreak(u)
    ensures LineLength(u + "\n" + rest) == |u|
    decreases |u|
  {
    var t := u + "\n" + rest;
    if u == [] {
      assert t[0] == '\n';
    } else {
      assert !IsBreak(u[0]);
      assert t[1..] == u[1..] + "\n" + rest;
      LineLengthOfLine(u[1..], rest);
    }
  }

  /** Every line of a file holds no terminator; every piece of a line's
      characters inherits that. */
  lemma NoBreakInfix(s: string, a: nat, b: nat)
    requires NoBreak(s) && a <= b <= |s|
    ensures NoBreak(s[a..b])
  {
    assert forall i :: 0 <= i < b - a ==> s[a..b][i] == s[a + i];
  }

  /** A text without a line end character breaks nowhere. */
  lemma NoBreakByMembership(s: string)
    requires '\n' !in s && '\r' !in s
    ensures NoBreak(s)
  {
    forall i | 0 <= i < |s| ensures !IsBreak(s[i]) {
      assert s[i] in s;
    }
  }

  lemma NoBreakChars(s: string, r: string)
    requires NoBreak(s)
    requires forall c :: c in r ==> c in s
    ensures NoBreak(r)
  {
    forall i | 0 <= i < |r| ensures !IsBreak(r[i]) {
      assert r[i] in s;
    }
  }
}
