/** `os.path.splitext` as Python's `posixpath` defines it: '/' separates path
    components, the extension starts at the last '.' of the last component,
    and leading dots of that component do not start an extension. */
module PosixPath {
  import opened PyText

  /** The last index below `n` holding `c`, or -1. */
  function LastIndexBelow(s: string, c: char, n: nat): (r: int)
    requires n <= |s|
    ensures -1 <= r < n
    ensures r >= 0 ==> s[r] == c
    ensures forall j | r < j < n :: s[j] != c
    decreases n
  {
    if n == 0 then -1
    else if s[n - 1] == c then n - 1
    else LastIndexBelow(s, c, n - 1)
  }

  /** Python `s.rfind(c)` for a single character: the last index of `c`, or -1. */
  function LastIndex(s: string, c: char): (r: int)
    ensures -1 <= r < |s|
    ensures r >= 0 ==> s[r] == c
    ensures forall j | r < j < |s| :: s[j] != c
  {
    LastIndexBelow(s, c, |s|)
  }

  /** The contract of `LastIndexBelow` determines its result. */
  lemma {:induction false} LastIndexBelowIs(s: string, c: char, n: nat, r: int)
    requires n <= |s| && -1 <= r < n
    requires r >= 0 ==> s[r] == c
    requires forall j | r < j < n :: s[j] != c
    ensures LastIndexBelow(s, c, n) == r
    decreases n
  {
    if n > 0 && r < n - 1 {
      LastIndexBelowIs(s, c, n - 1, r);
    }
  }

  /** The contract of `LastIndex` determines its result. */
  lemma LastIndexIs(s: string, c: char, r: int)
    requires -1 <= r < |s|
    requires r >= 0 ==> s[r] == c
    requires forall j | r < j < |s| :: s[j] != c
    ensures LastIndex(s, c) == r
  {
    LastIndexBelowIs(s, c, |s|, r);
  }

  /** The last occurrence in `a + b` is the last one in `b`, if any, and
      otherwise the last one in `a`. */
  lemma LastIndexConcat(a: string, b: string, c: char)
    ensures LastIndex(a + b, c) ==
      if LastIndex(b, c) >= 0 then |a| + LastIndex(b, c) else LastIndex(a, c)
  {
    var ab := a + b;
    var r := if LastIndex(b, c) >= 0 then |a| + LastIndex(b, c) else LastIndex(a, c);
    forall j | r < j < |ab| ensures ab[j] != c {
      if j >= |a| { assert ab[j] == b[j - |a|]; } else { assert ab[j] == a[j]; }
    }
    if r >= |a| {
      assert ab[r] == b[r - |a|];
    } else if r >= 0 {
      assert ab[r] == a[r];
    }
    LastIndexIs(ab, c, r);
  }

  /** The loop of `_splitext` that skips the leading dots of the last path
      component: whether an index from `i` up to `dot` holds another
      character. */
  predicate NonDotFrom(p: string, i: nat, dot: nat)
    requires i <= dot <= |p|
    decreases dot - i
  {
    i < dot && (p[i] != '.' || NonDotFrom(p, i + 1, dot))
  }

  lemma {:induction false} NonDotFromIff(p: string, i: nat, dot: nat)
    requires i <= dot <= |p|
    ensures NonDotFrom(p, i, dot) <==> exists k | i <= k < dot :: p[k] != '.'
    decreases dot - i
  {
    if i < dot {
      NonDotFromIff(p, i + 1, dot);
    }
  }

  /** The last path component of `root` holds a character other than '.'. */
  predicate HasStem(root: string) {
    exists k | LastIndex(root, '/') < k < |root| :: root[k] != '.'
  }

  /** What `splitext` reports as an extension: a '.' followed by neither
      another '.' nor a '/'. */
  predicate IsExtension(ext: string) {
    && |ext| >= 1
    && ext[0] == '.'
    && forall k | 1 <= k < |ext| :: ext[k] != '.' && ext[k] != '/'
  }

  /** Python `os.path.splitext(p)` (posixpath): `(root, ext)`. */
  function SplitExt(p: string): (r: (string, string))
    ensures r.0 + r.1 == p
    ensures r.1 == [] || r.1[0] == '.'
  {
    var sep := LastIndex(p, '/');
    var dot := LastIndex(p, '.');
    if sep < dot && NonDotFrom(p, sep + 1, dot) then
      (p[..dot], p[dot..])
    else
      (p, "")
  }

  /** A non-empty extension is an extension proper, and the root in front
      of it has a stem. */
  lemma SplitExtParts(p: string)
    ensures var (root, ext) := SplitExt(p);
      ext == [] || (IsExtension(ext) && HasStem(root))
  {
    var sep := LastIndex(p, '/');
    var dot := LastIndex(p, '.');
    if sep < dot && NonDotFrom(p, sep + 1, dot) {
      NonDotFromIff(p, sep + 1, dot);
      var root := p[..dot];
      LastIndexIs(root, '/', sep);
      var k :| sep + 1 <= k < dot && p[k] != '.';
      assert root[k] == p[k];
    }
  }

  /** Conversely, a root with a stem followed by an extension is split
      exactly there: `splitext` inverts concatenation. */
  lemma SplitExtOfJoin(root: string, ext: string)
    requires HasStem(root) && IsExtension(ext)
    ensures SplitExt(root + ext) == (root, ext)
  {
    var p := root + ext;
    LastIndexConcat(root, ext, '.');
    LastIndexIs(ext, '.', 0);
    LastIndexConcat(root, ext, '/');
    LastIndexIs(ext, '/', -1);
    var sep := LastIndex(root, '/');
    var k :| sep < k < |root| && root[k] != '.';
    assert p[k] == root[k];
    NonDotFromIff(p, sep + 1, |root|);
    assert p[..|root|] == root;
  }

  /** Prefixing a root keeps its stem. */
  lemma HasStemPrefixed(a: string, root: string)
    requires HasStem(root)
    ensures HasStem(a + root)
  {
    var k :| LastIndex(root, '/') < k < |root| && root[k] != '.';
    LastIndexConcat(a, root, '/');
    assert (a + root)[|a| + k] == root[k];
  }

  /** Appending a suffix with no '/' whose first character is neither '.'
      nor '/' gives a root with a stem. */
  lemma HasStemSuffixed(root: string, suffix: string)
    requires suffix != [] && suffix[0] != '.'
    requires forall k | 0 <= k < |suffix| :: suffix[k] != '/'
    ensures HasStem(root + suffix)
  {
    LastIndexConcat(root, suffix, '/');
    LastIndexIs(suffix, '/', -1);
    assert (root + suffix)[|root|] == suffix[0];
  }

  /** A prefix leaves a non-empty extension where it was and joins the
      root. */
  lemma SplitExtPrefixed(a: string, p: string)
    requires SplitExt(p).1 != []
    ensures SplitExt(a + p) == (a + SplitExt(p).0, SplitExt(p).1)
  {
    var (root, ext) := SplitExt(p);
    SplitExtParts(p);
    HasStemPrefixed(a, root);
    assert a + p == (a + root) + ext;
    SplitExtOfJoin(a + root, ext);
  }

  /** A root extended by a stem-making suffix, then an extension, splits
      in front of the extension. */
  lemma SplitExtSuffixed(root: string, suffix: string, ext: string)
    requires suffix != [] && suffix[0] != '.'
    requires forall k | 0 <= k < |suffix| :: suffix[k] != '/'
    requires IsExtension(ext)
    ensures SplitExt(root + suffix + ext) == (root + suffix, ext)
  {
    HasStemSuffixed(root, suffix);
    SplitExtOfJoin(root + suffix, ext);
  }
}
