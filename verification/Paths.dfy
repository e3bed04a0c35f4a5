/** Path strings and the component lists they stand for. */
module Paths {
  import opened Bytes

  type Name = bytes
  type Path = seq<Name>

  const DOTDOT: bytes := [DOT, DOT]

  /** A directory entry: what readdir can return besides "." and "..". */
  predicate LegalName(n: Name) {
    n != [] && n != [DOT] && n != DOTDOT && SLASH !in n && NUL !in n
  }

  predicate LegalPath(p: Path) {
    forall i :: 0 <= i < |p| ==> LegalName(p[i])
  }

  lemma PrefixIsSlice(a: Path, b: Path)
    ensures a <= b ==> b[..|a|] == a && (a == b || a < b)
  {
  }

  /** The components with one separator between each two. */
  function Join(p: Path): bytes {
    if p == [] then [] else if |p| == 1 then p[0] else Join(p[..|p| - 1]) + [SLASH] + p[|p| - 1]
  }

  lemma {:induction false} SplitOfJoin(p: Path)
    requires p != [] && LegalPath(p)
    ensures Split(SLASH, Join(p)) == p
  {
    var last := p[|p| - 1];
    SplitClean(SLASH, last);
    if |p| > 1 {
      var init := p[..|p| - 1];
      SplitOfJoin(init);
      SplitConcat(SLASH, Join(init), last);
      assert init + [last] == p;
    }
  }

  lemma {:induction false} JoinConcat(a: Path, b: Path)
    requires a != [] && b != []
    ensures Join(a + b) == Join(a) + [SLASH] + Join(b)
  {
    var last, init := b[|b| - 1], b[..|b| - 1];
    assert (a + b)[..|a + b| - 1] == a + init;
    if init == [] {
      assert a + init == a;
    } else {
      JoinConcat(a, init);
      assert Join(a) + [SLASH] + (Join(init) + [SLASH] + last) == (Join(a) + [SLASH] + Join(init)) + [SLASH] + last;
    }
  }

  lemma {:induction false} JoinIsNulFree(p: Path)
    requires LegalPath(p)
    ensures NUL !in Join(p) && (p != [] ==> Join(p) != [] && Join(p)[0] != SLASH && Join(p)[|Join(p)| - 1] != SLASH)
  {
    if |p| > 1 {
      JoinIsNulFree(p[..|p| - 1]);
    }
    if p != [] { assert LegalName(p[|p| - 1]) && LegalName(p[0]); }
  }

  /** The position strrchr finds for the separator; -1 for none. */
  function LastSlash(s: bytes): (i: int)
    ensures -1 <= i < |s| && SLASH !in s[i + 1..] && (i >= 0 ==> s[i] == SLASH)
  {
    if s == [] then -1
    else if s[|s| - 1] == SLASH then |s| - 1
    else
      var i := LastSlash(s[..|s| - 1]);
      NoSlashEither(s, i + 1);
      i
  }

  /** `base` is what follows the last slash of the path. */
  predicate IsLastComponent(path: bytes, dir: bytes, base: bytes) {
    path == dir + base && SLASH !in base && (dir == [] || dir[|dir| - 1] == SLASH)
  }

  lemma OneLastComponent(path: bytes, dir: bytes, base: bytes)
    ensures IsLastComponent(path, dir, base) <==>
              dir == path[..LastSlash(path) + 1] && base == path[LastSlash(path) + 1..]
  {
    if IsLastComponent(path, dir, base) {
      LastSlashIs(path, |dir| - 1);
      assert dir == path[..|dir|] && base == path[|dir|..];
    }
  }

  lemma {:induction false} LastSlashIs(path: bytes, i: int)
    requires -1 <= i < |path| && (i >= 0 ==> path[i] == SLASH) && SLASH !in path[i + 1..]
    ensures LastSlash(path) == i
  {
    if i < |path| - 1 {
      var init := path[..|path| - 1];
      assert path[i + 1..] == init[i + 1..] + [path[|path| - 1]];
      LastSlashIs(init, i);
    }
  }

  lemma NoSlashEither(s: bytes, k: nat)
    requires s != [] && k <= |s| - 1 && SLASH !in s[..|s| - 1][k..] && s[|s| - 1] != SLASH
    ensures SLASH !in s[k..]
  {
    assert s[k..] == s[..|s| - 1][k..] + [s[|s| - 1]];
  }

  /** "/../" */
  const BAD_PATH: bytes := [SLASH, DOT, DOT, SLASH]

  /** strstr(s, bad_path) */
  predicate HasBadPath(s: bytes) {
    |s| >= 4 && (s[..4] == BAD_PATH || HasBadPath(s[1..]))
  }

  lemma {:induction false} BadPathOfSuffix(s: bytes, k: nat)
    requires k <= |s| && !HasBadPath(s)
    ensures !HasBadPath(s[k..])
  {
    if k > 0 {
      if |s| >= 4 {
        BadPathOfSuffix(s[1..], k - 1);
        assert s[1..][k - 1..] == s[k..];
      }
    } else {
      assert s[0..] == s;
    }
  }

  /** The length of the first component. */
  function FirstSlash(s: bytes): (i: nat)
    ensures i <= |s| && SLASH !in s[..i] && (i < |s| ==> s[i] == SLASH)
  {
    if s == [] || s[0] == SLASH then 0 else 1 + FirstSlash(s[1..])
  }

  lemma SplitFirst(s: bytes)
    ensures FirstSlash(s) == |s| ==> Split(SLASH, s) == [s]
    ensures FirstSlash(s) < |s| ==> Split(SLASH, s) == [s[..FirstSlash(s)]] + Split(SLASH, s[FirstSlash(s) + 1..])
  {
    hide Split, FirstSlash;
    var i := FirstSlash(s);
    if i == |s| {
      assert s[..i] == s;
      SplitClean(SLASH, s);
    } else {
      SplitAt(SLASH, s, i);
      SplitClean(SLASH, s[..i]);
    }
  }

  lemma LeadingDotDotIsBad(s: bytes, i: nat)
    requires i < |s| && s[i] == SLASH
    ensures s[..i] == DOTDOT ==> HasBadPath([SLASH] + s)
  {
    if s[..i] == DOTDOT {
      assert s[..i][0] == DOT && s[..i][1] == DOT;
      assert ([SLASH] + s)[..4] == BAD_PATH;
    }
  }

  /** Without "/../" in the whole path, only the last component of what follows a slash can be "..". */
  lemma {:induction false} OnlyTheLastIsDotDot(s: bytes)
    requires !HasBadPath([SLASH] + s)
    ensures forall k :: 0 <= k < |Split(SLASH, s)| - 1 ==> Split(SLASH, s)[k] != DOTDOT
    decreases |s|
  {
    var i := FirstSlash(s);
    SplitFirst(s);
    if i < |s| {
      var t := [SLASH] + s;
      var rest := s[i + 1..];
      assert t[i + 1..] == [SLASH] + rest;
      BadPathOfSuffix(t, i + 1);
      OnlyTheLastIsDotDot(rest);
      LeadingDotDotIsBad(s, i);
    }
  }
}
