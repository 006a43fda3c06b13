/** The Python `str` operations the handlers rely on, modelled on `seq<char>`:
    the `in` test, `find`, `split`, the separator `join` that undoes it,
    `replace`, the argument-less `strip` and (ASCII) `lower`. */
module PyText {
  import opened Wrappers

  /** `p` occurs in `s` starting at index `i`. */
  predicate OccursAt(s: string, p: string, i: nat) {
    i + |p| <= |s| && s[i..i + |p|] == p
  }

  /** Python `s.find(p, i)`: the first occurrence of `p` at or after `i`. */
  function FindFrom(s: string, p: string, i: nat): (r: Option<nat>)
    ensures r.Some? ==> i <= r.value && OccursAt(s, p, r.value)
    ensures forall j: nat | i <= j && (r.None? || j < r.value) :: !OccursAt(s, p, j)
    decreases |s| - i
  {
    if |s| < i + |p| then None
    else if OccursAt(s, p, i) then Some(i)
    else FindFrom(s, p, i + 1)
  }

  /** Python `s.find(p)`, with `None` for -1: the first occurrence. */
  function Find(s: string, p: string): (r: Option<nat>)
    ensures r.Some? ==> OccursAt(s, p, r.value)
    ensures forall j: nat | r.None? || j < r.value :: !OccursAt(s, p, j)
  {
    FindFrom(s, p, 0)
  }

  /** Python `p in s`: `p` occurs somewhere in `s`. */
  predicate Contains(s: string, p: string)
    ensures Contains(s, p) ==> |p| <= |s|
    ensures !Contains(s, p) ==> forall j: nat :: !OccursAt(s, p, j)
  {
    Find(s, p).Some?
  }

  lemma ContainsIff(s: string, p: string, j: nat)
    ensures OccursAt(s, p, j) ==> Contains(s, p)
    ensures Contains(s, p) ==> OccursAt(s, p, Find(s, p).value)
  {
  }

  /** An occurrence inside an infix is an occurrence in the whole string. */
  lemma OccursInInfix(s: string, a: nat, b: nat, p: string, j: nat)
    requires a <= b <= |s|
    requires OccursAt(s[a..b], p, j)
    ensures OccursAt(s, p, a + j)
  {
    forall k | 0 <= k < |p| ensures s[a + j..a + j + |p|][k] == p[k] {
      assert s[a..b][j..j + |p|][k] == p[k];
    }
  }

  /** A string free of `p` has every infix free of `p`. */
  lemma NotContainsInfix(s: string, a: nat, b: nat, p: string)
    requires a <= b <= |s|
    requires !Contains(s, p)
    ensures !Contains(s[a..b], p)
  {
    if Contains(s[a..b], p) {
      var j := Find(s[a..b], p).value;
      OccursInInfix(s, a, b, p, j);
    }
  }

  /** The contract of `Find` determines its result. */
  lemma FindIs(s: string, p: string, i: nat)
    requires OccursAt(s, p, i)
    requires forall j: nat | j < i :: !OccursAt(s, p, j)
    ensures Find(s, p) == Some(i)
  {
  }

  /** The first character of `p` occurs nowhere else in `p`, as with a
      bracketed marker such as "[ENGLISH]". */
  predicate HeadUnique(p: string) {
    p != [] && forall t | 1 <= t < |p| :: p[t] != p[0]
  }

  /** An occurrence of such a `p` cannot start in `x` and run into a `y` that
      begins with `p`'s first character: it would have to be inside `x`. */
  lemma NoOccurrenceStraddles(x: string, y: string, p: string, j: nat)
    requires HeadUnique(p) && !Contains(x, p)
    requires y != [] && y[0] == p[0]
    requires j < |x|
    ensures !OccursAt(x + y, p, j)
  {
    var s := x + y;
    if j + |p| <= |x| {
      assert !OccursAt(x, p, j);
      assert s[j..j + |p|] == x[j..j + |p|];
    } else if j + |p| <= |s| {
      assert s[j..j + |p|][|x| - j] == y[0];
    }
  }

  /** In `x + y`, where `x` is free of such a `p` and `y` starts with it,
      the first occurrence of `p` is where `y` starts. */
  lemma FindAtJoin(x: string, y: string, p: string)
    requires HeadUnique(p) && !Contains(x, p) && OccursAt(y, p, 0)
    ensures Find(x + y, p) == Some(|x|)
  {
    forall j: nat | j < |x| ensures !OccursAt(x + y, p, j) {
      NoOccurrenceStraddles(x, y, p, j);
    }
    assert (x + y)[|x|..|x| + |p|] == y[..|p|];
    FindIs(x + y, p, |x|);
  }

  /** `p` is found in `x + p + y`. */
  lemma ContainsInfix(x: string, p: string, y: string)
    ensures Contains(x + p + y, p)
  {
    var s := x + p + y;
    assert s[|x|..|x| + |p|] == p;
    ContainsIff(s, p, |x|);
  }

  /** No occurrence of `p` in `x + q + y` when there is none in `x` or `y`
      and `q`, which starts with `p`'s first character and has it nowhere
      else, parts from `p` at its second character. */
  lemma NotContainsAround(x: string, q: string, y: string, p: string)
    requires HeadUnique(p) && |p| >= 2 && !Contains(x, p) && !Contains(y, p)
    requires |q| >= 2 && q[0] == p[0] && q[1] != p[1]
    requires forall t | 1 <= t < |q| :: q[t] != p[0]
    ensures !Contains(x + q + y, p)
  {
    var s := x + q + y;
    var n := |x| + |q|;
    forall j: nat | j < |s| ensures !OccursAt(s, p, j) {
      if j < |x| {
        assert s == x + (q + y);
        NoOccurrenceStraddles(x, q + y, p, j);
      } else if j == |x| {
        assert s[j + 1] == q[1];
        assert j + |p| <= |s| ==> s[j..j + |p|][1] == s[j + 1];
      } else if j < n {
        assert s[j] == q[j - |x|];
        assert j + |p| <= |s| ==> s[j..j + |p|][0] == s[j];
      } else if j + |p| <= |s| {
        assert !OccursAt(y, p, j - n);
        assert s[j..j + |p|] == y[j - n..j - n + |p|];
      }
    }
  }

  /** Two patterns that share their first character, have it nowhere else
      and part at their second character cannot overlap in `s`. */
  lemma OccurrencesApart(s: string, p: string, q: string, i: nat, j: nat)
    requires HeadUnique(p) && HeadUnique(q) && |p| >= 2 && |q| >= 2
    requires p[0] == q[0] && p[1] != q[1]
    requires OccursAt(s, p, i) && OccursAt(s, q, j)
    ensures i + |p| <= j || j + |q| <= i
  {
    forall m | i <= m < i + |p| ensures s[m] == p[m - i] {
      assert s[i..i + |p|][m - i] == s[m];
    }
    forall m | j <= m < j + |q| ensures s[m] == q[m - j] {
      assert s[j..j + |q|][m - j] == s[m];
    }
    assert s[i] == p[0] && s[i + 1] == p[1];
    assert s[j] == q[0] && s[j + 1] == q[1];
  }

  /** Python `s.split(sep)` for a non-empty separator: the pieces between
      the non-overlapping occurrences of `sep`, scanned left to right. */
  function Split(s: string, sep: string): (parts: seq<string>)
    requires sep != []
    ensures |parts| >= 1
    ensures |parts| >= 2 <==> Contains(s, sep)
    ensures forall k | 0 <= k < |parts| :: !Contains(parts[k], sep)
    decreases |s|
  {
    match Find(s, sep)
    case None => [s]
    case Some(i) =>
      var head := s[..i];
      assert !Contains(head, sep) by {
        if Contains(head, sep) {
          var j := Find(head, sep).value;
          OccursInInfix(s, 0, i, sep, j);
        }
      }
      [head] + Split(s[i + |sep|..], sep)
  }

  /** Where `x` is free of a separator with a unique first character,
      `split` cuts `x + sep + y` first right after `x`. */
  lemma SplitAfterFree(x: string, sep: string, y: string)
    requires HeadUnique(sep) && !Contains(x, sep)
    ensures Split(x + sep + y, sep) == [x] + Split(y, sep)
  {
    var s := x + sep + y;
    assert s == x + (sep + y);
    assert (sep + y)[..|sep|] == sep;
    FindAtJoin(x, sep + y, sep);
    assert s[..|x|] == x;
    assert s[|x| + |sep|..] == y;
  }

  /** The first piece of `x + y` is `x` when `x` is free of the separator
      and `y` is empty or starts with it. */
  lemma SplitFirstPiece(x: string, y: string, sep: string)
    requires HeadUnique(sep) && !Contains(x, sep)
    requires y == [] || OccursAt(y, sep, 0)
    ensures Split(x + y, sep)[0] == x
  {
    if y == [] {
      assert x + y == x;
    } else {
      FindAtJoin(x, y, sep);
      assert (x + y)[..|x|] == x;
    }
  }

  /** Removing `p` from `x + p + y`, where neither part holds `p`, leaves
      `x + y`. */
  lemma RemoveAround(x: string, p: string, y: string)
    requires HeadUnique(p) && !Contains(x, p) && !Contains(y, p)
    ensures Replace(x + p + y, p, "") == x + y
  {
    var s := x + p + y;
    assert s == x + (p + y);
    assert (p + y)[..|p|] == p;
    FindAtJoin(x, p + y, p);
    assert s[..|x|] == x;
    assert s[|x| + |p|..] == y;
  }

  /** Python `sep.join(parts)`. */
  function Join(parts: seq<string>, sep: string): string
    decreases |parts|
  {
    if |parts| == 0 then ""
    else if |parts| == 1 then parts[0]
    else parts[0] + sep + Join(parts[1..], sep)
  }

  /** Joining the pieces of a split with the separator gives back the string. */
  lemma {:induction false} JoinSplit(s: string, sep: string)
    requires sep != []
    ensures Join(Split(s, sep), sep) == s
    decreases |s|
  {
    match Find(s, sep)
    case None =>
    case Some(i) =>
      var rest := s[i + |sep|..];
      JoinSplit(rest, sep);
      assert Split(s, sep)[1..] == Split(rest, sep);
      assert s == s[..i] + sep + rest by {
        assert s[i..i + |sep|] == sep;
      }
  }

  /** Python `s.replace(pat, repl)` for a non-empty pattern: every
      non-overlapping occurrence, scanned left to right, is replaced. */
  function Replace(s: string, pat: string, repl: string): (r: string)
    requires pat != []
    ensures !Contains(s, pat) ==> r == s
    decreases |s|
  {
    match Find(s, pat)
    case None => s
    case Some(i) => s[..i] + repl + Replace(s[i + |pat|..], pat, repl)
  }

  /** `replace` is `split` followed by `join` with the replacement. */
  lemma {:induction false} ReplaceIsJoinOfSplit(s: string, pat: string, repl: string)
    requires pat != []
    ensures Replace(s, pat, repl) == Join(Split(s, pat), repl)
    decreases |s|
  {
    match Find(s, pat)
    case None =>
    case Some(i) =>
      var rest := s[i + |pat|..];
      ReplaceIsJoinOfSplit(rest, pat, repl);
      assert Split(s, pat)[1..] == Split(rest, pat);
  }

  /** Removing every occurrence of `pat` shrinks the string by at least one
      copy of `pat` when there is one. */
  lemma {:induction false} RemoveShrinks(s: string, pat: string)
    requires pat != []
    ensures |Replace(s, pat, "")| <= |s|
    ensures Contains(s, pat) ==> |Replace(s, pat, "")| <= |s| - |pat|
    decreases |s|
  {
    match Find(s, pat)
    case None =>
    case Some(i) => RemoveShrinks(s[i + |pat|..], pat);
  }

  /** Removal leaves the string as it was exactly when the pattern is absent. */
  lemma RemoveIsIdentityIff(s: string, pat: string)
    requires pat != []
    ensures Replace(s, pat, "") == s <==> !Contains(s, pat)
  {
    RemoveShrinks(s, pat);
  }

  /** Every character of `s` from index `lo` up to `hi` is one of `cs`. */
  predicate AllIn(s: string, lo: int, hi: int, cs: set<char>) {
    forall k | lo <= k < hi && 0 <= k < |s| :: s[k] in cs
  }

  /** Where a left-to-right scan from `i` over characters of `cs` stops:
      the first index at or after `i` holding another character, or `|s|`. */
  function SkipForward(s: string, cs: set<char>, i: nat): (n: nat)
    requires i <= |s|
    ensures i <= n <= |s| && AllIn(s, i, n, cs)
    ensures n == |s| || s[n] !in cs
    decreases |s| - i
  {
    if i < |s| && s[i] in cs then SkipForward(s, cs, i + 1) else i
  }

  /** Where a right-to-left scan from `j` down to `lo` over characters of
      `cs` stops: just after the last index holding another character, or
      `lo`. */
  function SkipBackward(s: string, cs: set<char>, lo: nat, j: nat): (m: nat)
    requires lo <= j <= |s|
    ensures lo <= m <= j && AllIn(s, m, j, cs)
    ensures m == lo || s[m - 1] !in cs
    decreases j
  {
    if lo < j && s[j - 1] in cs then SkipBackward(s, cs, lo, j - 1) else j
  }

  /** Python `s.strip(chars)`, the characters given as a set: scan from the
      left, then from the right down to where the left scan stopped, and
      keep what lies between. */
  function StripChars(s: string, cs: set<char>): (r: string)
    ensures |r| <= |s|
    ensures r == [] || (r[0] !in cs && r[|r| - 1] !in cs)
  {
    var i := SkipForward(s, cs, 0);
    var j := SkipBackward(s, cs, i, |s|);
    s[i..j]
  }

  /** The left scan stops exactly at the first index not in `cs`. */
  lemma {:induction false} SkipForwardIs(s: string, cs: set<char>, i: nat, n: nat)
    requires i <= n <= |s| && AllIn(s, i, n, cs)
    requires n == |s| || s[n] !in cs
    ensures SkipForward(s, cs, i) == n
    decreases n - i
  {
    if i < n {
      SkipForwardIs(s, cs, i + 1, n);
    }
  }

  /** The right scan stops exactly after the last index not in `cs`. */
  lemma {:induction false} SkipBackwardIs(s: string, cs: set<char>, lo: nat, j: nat, m: nat)
    requires lo <= m <= j <= |s| && AllIn(s, m, j, cs)
    requires m == lo || s[m - 1] !in cs
    ensures SkipBackward(s, cs, lo, j) == m
    decreases j - m
  {
    if m < j {
      SkipBackwardIs(s, cs, lo, j - 1, m);
    }
  }

  /** What `strip` removes is made of the stripped characters at the two
      ends, and what is left is the infix of `s` in between. */
  lemma StripBounds(s: string, cs: set<char>) returns (i: nat)
    ensures i + |StripChars(s, cs)| <= |s|
    ensures StripChars(s, cs) == s[i..i + |StripChars(s, cs)|]
    ensures AllIn(s, 0, i, cs) && AllIn(s, i + |StripChars(s, cs)|, |s|, cs)
  {
    i := SkipForward(s, cs, 0);
  }

  /** `strip` is characterised without reference to how it scans: the infix
      `s[i..j]` with only stripped characters outside it and none at its two
      ends. */
  lemma StripIs(s: string, cs: set<char>, i: nat, j: nat)
    requires i <= j <= |s|
    requires AllIn(s, 0, i, cs) && AllIn(s, j, |s|, cs)
    requires i < j ==> s[i] !in cs && s[j - 1] !in cs
    ensures StripChars(s, cs) == s[i..j]
  {
    if i == j {
      SkipForwardIs(s, cs, 0, |s|);
      SkipBackwardIs(s, cs, |s|, |s|, |s|);
    } else {
      SkipForwardIs(s, cs, 0, i);
      SkipBackwardIs(s, cs, i, |s|, j);
    }
  }

  /** Stripping twice is stripping once. */
  lemma StripIdempotent(s: string, cs: set<char>)
    ensures StripChars(StripChars(s, cs), cs) == StripChars(s, cs)
  {
    var r := StripChars(s, cs);
    StripIs(r, cs, 0, |r|);
  }

  /** The characters for which Python's `str.isspace()` holds: what an
      argument-less `strip()` removes. */
  const Whitespace: set<char> := {
    '\t', '\n', '\U{B}', '\U{C}', '\r', '\U{1C}', '\U{1D}', '\U{1E}', '\U{1F}', ' ',
    '\U{85}', '\U{A0}', '\U{1680}',
    '\U{2000}', '\U{2001}', '\U{2002}', '\U{2003}', '\U{2004}', '\U{2005}',
    '\U{2006}', '\U{2007}', '\U{2008}', '\U{2009}', '\U{200A}',
    '\U{2028}', '\U{2029}', '\U{202F}', '\U{205F}', '\U{3000}'
  }

  /** Python `s.strip()`: `s` without its leading and trailing whitespace. */
  function Strip(s: string): (r: string)
    ensures |r| <= |s|
    ensures r == [] || (r[0] !in Whitespace && r[|r| - 1] !in Whitespace)
  {
    StripChars(s, Whitespace)
  }

  /** Python `c.lower()` on the ASCII letters; every other character is kept. */
  function LowerChar(c: char): char {
    if 'A' <= c <= 'Z' then (c as int + 32) as char else c
  }

  /** Python `s.lower()`, character by character. */
  function Lower(s: string): (r: string)
    ensures |r| == |s|
    ensures forall k | 0 <= k < |s| :: r[k] == LowerChar(s[k])
  {
    seq(|s|, k requires 0 <= k < |s| => LowerChar(s[k]))
  }
}
