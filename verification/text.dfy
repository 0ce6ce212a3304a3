/** The pieces of Python's `str` that the record cleaner and the query
    builders rely on: `strip`, `upper`, `startswith`, `join`, `split` and
    counting one character. Strings are sequences of characters. */
module Text {

  /** The characters for which Python's `str.isspace()` holds, which is what
      `str.strip()` removes when it is called without an argument. */
  const Whitespace: set<char> := {
    '\t', '\n', '\U{000B}', '\U{000C}', '\r', '\U{001C}', '\U{001D}', '\U{001E}', '\U{001F}', ' ',
    '\U{0085}', '\U{00A0}', '\U{1680}',
    '\U{2000}', '\U{2001}', '\U{2002}', '\U{2003}', '\U{2004}', '\U{2005}', '\U{2006}',
    '\U{2007}', '\U{2008}', '\U{2009}', '\U{200A}',
    '\U{2028}', '\U{2029}', '\U{202F}', '\U{205F}', '\U{3000}'
  }

  predicate AllIn(s: string, cs: set<char>) {
    forall k | 0 <= k < |s| :: s[k] in cs
  }

  /** Neither the first nor the last character of `s` is one of `cs`. */
  predicate Bare(s: string, cs: set<char>) {
    s == [] || (s[0] !in cs && s[|s| - 1] !in cs)
  }

  /** `r` is a contiguous piece of `s`. */
  ghost predicate IsSlice(r: string, s: string) {
    exists i, j :: 0 <= i <= j <= |s| && r == s[i..j]
  }

  /** What `s.strip(cs)` must return: the piece of `s` left after removing
      characters of `cs` from both ends, such that no character of `cs` is
      left at either end. */
  ghost predicate IsStripOf(r: string, s: string, cs: set<char>) {
    exists i, j :: 0 <= i <= j <= |s| && r == s[i..j] && AllIn(s[..i], cs) && AllIn(s[j..], cs) && Bare(r, cs)
  }

  /** The number of leading characters of `s` that belong to `cs`. */
  function LeadLen(s: string, cs: set<char>): (n: nat)
    ensures n <= |s|
    ensures forall k | 0 <= k < n :: s[k] in cs
    ensures n < |s| ==> s[n] !in cs
  {
    if |s| > 0 && s[0] in cs then 1 + LeadLen(s[1..], cs) else 0
  }

  /** The number of trailing characters of `s` that belong to `cs`. */
  function TrailLen(s: string, cs: set<char>): (n: nat)
    ensures n <= |s|
    ensures forall k | |s| - n <= k < |s| :: s[k] in cs
    ensures n < |s| ==> s[|s| - 1 - n] !in cs
  {
    if |s| > 0 && s[|s| - 1] in cs then 1 + TrailLen(s[..|s| - 1], cs) else 0
  }

  /** Python's `s.strip(chars)`: advance from the left over characters in
      `cs`, then retreat from the right over characters in `cs`, never
      passing the left end. */
  function Strip(s: string, cs: set<char>): (r: string)
    ensures |r| <= |s|
  {
    var i := LeadLen(s, cs);
    s[i..|s| - TrailLen(s[i..], cs)]
  }

  /** `Strip` returns what stripping must return. */
  lemma StripSpec(s: string, cs: set<char>)
    ensures IsStripOf(Strip(s, cs), s, cs)
  {
    var i := LeadLen(s, cs);
    var j := |s| - TrailLen(s[i..], cs);
    assert AllIn(s[..i], cs) && AllIn(s[j..], cs);
    assert Bare(s[i..j], cs);
  }

  lemma AllInPrefix(s: string, i: int, cs: set<char>)
    requires 0 <= i <= |s| && AllIn(s[..i], cs)
    ensures forall k | 0 <= k < i :: s[k] in cs
  {
    forall k | 0 <= k < i ensures s[k] in cs { assert s[..i][k] == s[k]; }
  }

  lemma AllInSuffix(s: string, j: int, cs: set<char>)
    requires 0 <= j <= |s| && AllIn(s[j..], cs)
    ensures forall k | j <= k < |s| :: s[k] in cs
  {
    forall k | j <= k < |s| ensures s[k] in cs { assert s[j..][k - j] == s[k]; }
  }

  lemma {:induction false} BareEdges(r: string, s: string, cs: set<char>, i: int, j: int)
    requires 0 <= i <= j <= |s| && r == s[i..j] && AllIn(s[..i], cs) && AllIn(s[j..], cs) && Bare(r, cs)
    ensures r == [] ==> AllIn(s, cs)
    ensures r != [] ==> i == LeadLen(s, cs) && i < j && s[j - 1] !in cs
    ensures forall k | 0 <= k < i :: s[k] in cs
    ensures forall k | j <= k < |s| :: s[k] in cs
  {
    AllInPrefix(s, i, cs);
    AllInSuffix(s, j, cs);
    if r != [] {
      assert s[i] == r[0] && s[j - 1] == r[|r| - 1];
    }
  }

  /** There is only one way to strip a string: `IsStripOf` pins the result down. */
  lemma {:induction false} StripUnique(r1: string, r2: string, s: string, cs: set<char>)
    requires IsStripOf(r1, s, cs) && IsStripOf(r2, s, cs)
    ensures r1 == r2
  {
    var i1, j1 :| 0 <= i1 <= j1 <= |s| && r1 == s[i1..j1] && AllIn(s[..i1], cs) && AllIn(s[j1..], cs) && Bare(r1, cs);
    var i2, j2 :| 0 <= i2 <= j2 <= |s| && r2 == s[i2..j2] && AllIn(s[..i2], cs) && AllIn(s[j2..], cs) && Bare(r2, cs);
    BareEdges(r1, s, cs, i1, j1);
    BareEdges(r2, s, cs, i2, j2);
  }

  /** Stripping twice with the same characters is stripping once. */
  lemma StripIdempotent(s: string, cs: set<char>)
    ensures Strip(Strip(s, cs), cs) == Strip(s, cs)
  {
    var r := Strip(s, cs);
    StripSpec(s, cs);
    StripSpec(r, cs);
    var i, j :| 0 <= i <= j <= |s| && r == s[i..j] && AllIn(s[..i], cs) && AllIn(s[j..], cs) && Bare(r, cs);
    assert r[..0] == [] && r[|r|..] == [] && r[0..|r|] == r;
    assert IsStripOf(r, r, cs);
    StripUnique(Strip(r, cs), r, r, cs);
  }

  lemma StripIsSlice(s: string, cs: set<char>)
    ensures IsSlice(Strip(s, cs), s)
  {
    var r := Strip(s, cs);
    StripSpec(s, cs);
    var i, j :| 0 <= i <= j <= |s| && r == s[i..j] && AllIn(s[..i], cs) && AllIn(s[j..], cs) && Bare(r, cs);
  }

  /** A piece of a piece of `s` is a piece of `s`. */
  lemma SliceTransitive(a: string, b: string, c: string)
    requires IsSlice(a, b) && IsSlice(b, c)
    ensures IsSlice(a, c)
  {
    var i, j :| 0 <= i <= j <= |b| && a == b[i..j];
    var k, l :| 0 <= k <= l <= |c| && b == c[k..l];
    forall n | 0 <= n < |a| ensures a[n] == c[k + i + n] { assert a[n] == b[i + n]; }
    assert a == c[k + i..k + j];
  }

  /** When `s` begins with `pad`, made only of characters of `cs`, followed by
      a character not in `cs`, the leading run is exactly `pad`. */
  lemma {:induction false} LeadLenAfterPad(pad: string, t: string, cs: set<char>)
    requires AllIn(pad, cs)
    requires t != [] && t[0] !in cs
    ensures LeadLen(pad + t, cs) == |pad|
  {
    var s := pad + t;
    assert forall k | 0 <= k < |pad| :: s[k] == pad[k];
    assert s[|pad|] == t[0];
  }

  /** Python's `str.upper()` restricted to ASCII letters. */
  function UpperChar(c: char): char {
    if 'a' <= c <= 'z' then (c as int - 32) as char else c
  }

  function Upper(s: string): (r: string)
    ensures |r| == |s|
    ensures forall k | 0 <= k < |s| :: r[k] == UpperChar(s[k])
  {
    seq(|s|, k requires 0 <= k < |s| => UpperChar(s[k]))
  }

  /** Python's `s.startswith(p)`. */
  predicate StartsWith(s: string, p: string) {
    |p| <= |s| && s[..|p|] == p
  }

  /** Python's `sep.join(parts)`. */
  function Join(sep: string, parts: seq<string>): string
    decreases |parts|
  {
    if parts == [] then []
    else if |parts| == 1 then parts[0]
    else parts[0] + sep + Join(sep, parts[1..])
  }

  /** The number of occurrences of `c` in `s`. */
  function CountChar(s: string, c: char): nat {
    if s == [] then 0 else (if s[0] == c then 1 else 0) + CountChar(s[1..], c)
  }

  lemma {:induction false} CountAppend(a: string, b: string, c: char)
    ensures CountChar(a + b, c) == CountChar(a, c) + CountChar(b, c)
  {
    if a == [] {
      assert a + b == b;
    } else {
      assert (a + b)[1..] == a[1..] + b;
      CountAppend(a[1..], b, c);
    }
  }

  lemma {:induction false} CountAbsent(s: string, c: char)
    requires c !in s
    ensures CountChar(s, c) == 0
  {
    if s != [] { CountAbsent(s[1..], c); }
  }

  /** Joining pieces free of `c` with the one-character separator `[c]` yields
      one `c` fewer than there are pieces. */
  lemma {:induction false} JoinMarkers(parts: seq<string>, c: char)
    requires |parts| >= 1
    requires forall k | 0 <= k < |parts| :: c !in parts[k]
    ensures CountChar(Join([c], parts), c) == |parts| - 1
  {
    CountAbsent(parts[0], c);
    if |parts| > 1 {
      JoinMarkers(parts[1..], c);
      CountAppend(parts[0] + [c], Join([c], parts[1..]), c);
      CountAppend(parts[0], [c], c);
    }
  }

  /** Joining with a separator free of `c` pieces that hold one `c` each
      yields one `c` per piece. */
  lemma {:induction false} JoinOnePerPart(sep: string, parts: seq<string>, c: char)
    requires c !in sep
    requires forall k | 0 <= k < |parts| :: CountChar(parts[k], c) == 1
    ensures CountChar(Join(sep, parts), c) == |parts|
  {
    if |parts| > 1 {
      JoinOnePerPart(sep, parts[1..], c);
      CountAbsent(sep, c);
      CountAppend(parts[0] + sep, Join(sep, parts[1..]), c);
      CountAppend(parts[0], sep, c);
    }
  }

  /** The index of the first `c` in `s`. */
  function IndexOf(s: string, c: char): (i: nat)
    requires c in s
    ensures i < |s| && s[i] == c && c !in s[..i]
  {
    if s[0] == c then 0 else 1 + IndexOf(s[1..], c)
  }

  /** Python's `s.split(c)` for a one-character separator. */
  function Split(s: string, c: char): (parts: seq<string>)
    ensures |parts| >= 1
    decreases |s|
  {
    if c !in s then [s]
    else
      var i := IndexOf(s, c);
      [s[..i]] + Split(s[i + 1..], c)
  }

  /** Splitting undoes joining, provided no piece holds the separator. */
  lemma {:induction false} SplitJoin(parts: seq<string>, c: char)
    requires |parts| >= 1
    requires forall k | 0 <= k < |parts| :: c !in parts[k]
    ensures Split(Join([c], parts), c) == parts
  {
    if |parts| == 1 {
    } else {
      var s := Join([c], parts);
      var rest := Join([c], parts[1..]);
      assert s == parts[0] + [c] + rest;
      assert s[|parts[0]|] == c;
      assert s[..|parts[0]|] == parts[0];
      assert c !in s[..|parts[0]|];
      var i := IndexOf(s, c);
      assert i == |parts[0]|;
      assert s[i + 1..] == rest;
      SplitJoin(parts[1..], c);
    }
  }
}
