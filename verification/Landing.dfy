/** Moving the received entries from the temp directory to free names: _check_and_rename and clean_temp_dir. */
module Landing {
  import opened Bytes
  import opened Common
  import opened Paths
  import opened FileSystem
  import opened Receive

  // ---------------------------------------------------------------- rename

  /** Where the entry at `p` is after `src` was renamed to `dst`. */
  function MovedTo(p: Path, src: Path, dst: Path): Path {
    if src <= p then dst + p[|src|..] else p
  }

  lemma MovedIsInjective(p: Path, q: Path, src: Path, dst: Path)
    requires MovedTo(p, src, dst) == MovedTo(q, src, dst) && !(dst <= p) && !(dst <= q)
    ensures p == q
  {
    if src <= p && src <= q {
      assert (dst + p[|src|..])[|dst|..] == p[|src|..];
      assert (dst + q[|src|..])[|dst|..] == q[|src|..];
      assert src + p[|src|..] == p && src + q[|src|..] == q;
    }
  }

  /** Nothing is at `dst` or below it. */
  predicate Free(nodes: Nodes, dst: Path) {
    forall p :: p in nodes ==> !(dst <= p)
  }

  /** The file system after the subtree at `src` moved to `dst`. */
  function Renamed(nodes: Nodes, src: Path, dst: Path): (more: Nodes)
    requires Free(nodes, dst)
    ensures forall p :: p in nodes ==> MovedTo(p, src, dst) in more && more[MovedTo(p, src, dst)] == nodes[p]
    ensures forall q :: q in more ==> exists p :: p in nodes && MovedTo(p, src, dst) == q
  {
    forall p, q | p in nodes && q in nodes && MovedTo(p, src, dst) == MovedTo(q, src, dst) ensures p == q {
      MovedIsInjective(p, q, src, dst);
    }
    map p | p in nodes :: MovedTo(p, src, dst) := nodes[p]
  }

  lemma AbsentIsFree(nodes: Nodes, dst: Path)
    requires WellFormed(nodes) && dst !in nodes
    ensures Free(nodes, dst)
  {
    forall p | p in nodes ensures !(dst <= p) {
      if dst <= p { PrefixIsEntry(nodes, p, dst); }
    }
  }

  /** rename replaces a file by a file and an empty directory by a directory. */
  predicate Replaceable(nodes: Nodes, src: Path, dst: Path)
    requires src in nodes && dst in nodes
  {
    nodes[src].Dir? == nodes[dst].Dir? && Free(nodes - {dst}, dst)
  }

  /** rename on resolved paths; None is an error. */
  function RenameResult(nodes: Nodes, src: Path, dst: Path): Option<Nodes>
    requires WellFormed(nodes)
  {
    if src !in nodes || !Attached(nodes, dst) then None
    else if src == dst then Some(nodes)
    else if src < dst || (dst in nodes && !Replaceable(nodes, src, dst)) then None
    else
      assert Free(nodes - {dst}, dst) by { if dst !in nodes { AbsentIsFree(nodes, dst); } }
      Some(Renamed(nodes - {dst}, src, dst))
  }

  lemma RenameKeepsWellFormed(nodes: Nodes, src: Path, dst: Path)
    requires WellFormed(nodes) && src in nodes && Attached(nodes, dst)
    requires !(src <= dst) && dst !in nodes && Free(nodes, dst)
    ensures WellFormed(Renamed(nodes, src, dst))
  {
    var more := Renamed(nodes, src, dst);
    assert MovedTo([], src, dst) == [] by { assert Attached(nodes, src); }
    forall q | q in more ensures Attached(more, q) {
      var p :| p in nodes && MovedTo(p, src, dst) == q;
      MovedIsAttached(nodes, src, dst, p);
    }
  }

  lemma MovedIsAttached(nodes: Nodes, src: Path, dst: Path, p: Path)
    requires WellFormed(nodes) && src in nodes && Attached(nodes, dst)
    requires !(src <= dst) && dst !in nodes && Free(nodes, dst)
    requires p in nodes
    ensures Attached(Renamed(nodes, src, dst), MovedTo(p, src, dst))
  {
    hide Renamed, MovedTo;
    var more := Renamed(nodes, src, dst);
    assert Attached(nodes, p) && IsDir(nodes, []);
    var parent := if p == src then Parent(dst) else Parent(p);
    ParentMoves(src, dst, p);
    assert more[MovedTo(parent, src, dst)] == nodes[parent];
    MovedIsLegal(p, src, dst);
  }

  lemma MovedIsLegal(p: Path, src: Path, dst: Path)
    requires LegalPath(p) && LegalPath(dst)
    ensures LegalPath(MovedTo(p, src, dst))
  {
  }

  lemma ParentMoves(src: Path, dst: Path, p: Path)
    requires !(src <= dst) && src != []
    ensures MovedTo(if p == src then Parent(dst) else Parent(p), src, dst) == Parent(MovedTo(p, src, dst))
  {
    if p == src {
      assert MovedTo(p, src, dst) == dst;
    } else if src < p {
      assert src <= Parent(p) && Parent(p)[|src|..] == Parent(p[|src|..]);
    }
  }

  // ---------------------------------------------------------------- what landing means

  /** Where an entry of the old file system is once the entries `moved` of the temp directory got new names. */
  function Where(tmp: Path, cwd: Path, moved: map<Name, Name>, p: Path): Path {
    if tmp < p && p[|tmp|] in moved then cwd + [moved[p[|tmp|]]] + p[|tmp| + 1..] else p
  }

  /**
    * Every old entry is at exactly its place with its content, nothing else is there, and the new names were
    * free and are different. Once the temp directory itself is `gone`, it is the one entry that is missing.
    */
  predicate Landed(was: Nodes, now: Nodes, tmp: Path, cwd: Path, moved: map<Name, Name>, gone: bool) {
    && Kept(was, now, tmp, cwd, moved, gone) && NothingNew(was, now, tmp, cwd, moved, gone)
    && WereFree(was, tmp, cwd, moved) && AllDifferent(moved)
  }

  predicate Kept(was: Nodes, now: Nodes, tmp: Path, cwd: Path, moved: map<Name, Name>, gone: bool) {
    forall p :: p in was && !(gone && p == tmp) ==>
      Where(tmp, cwd, moved, p) in now && now[Where(tmp, cwd, moved, p)] == was[p]
  }

  predicate NothingNew(was: Nodes, now: Nodes, tmp: Path, cwd: Path, moved: map<Name, Name>, gone: bool) {
    forall q :: q in now ==> exists p :: p in was && !(gone && p == tmp) && Where(tmp, cwd, moved, p) == q
  }

  predicate WereFree(was: Nodes, tmp: Path, cwd: Path, moved: map<Name, Name>) {
    forall f :: f in moved ==> tmp + [f] in was && cwd + [moved[f]] !in was
  }

  predicate AllDifferent(moved: map<Name, Name>) {
    forall f, g :: f in moved && g in moved && moved[f] == moved[g] ==> f == g
  }

  /**
    * The new names: the own name or a number and the own name, and not the own name only if that was there before, is
    * protected, or went to another entry.
    */
  ghost predicate NamedWell(was: Nodes, cwd: Path, home: bool, moved: map<Name, Name>) {
    forall f :: f in moved ==> NameIsGood(was, cwd, home, moved, f)
  }

  ghost predicate NameIsGood(was: Nodes, cwd: Path, home: bool, moved: map<Name, Name>, f: Name)
    requires f in moved
  {
    moved[f] == f || (IsNumbered(moved[f], f)
                      && (cwd + [f] in was || IsProtected(f, home)
                          || exists g :: g in moved && g != f && moved[g] == f))
  }

  ghost predicate IsNumbered(x: Name, f: Name) {
    exists n: nat :: 1 <= n <= 999999 && x == Decimal(n) + [UNDERSCORE] + f
  }

  /** Where nothing is in the way, everything lands under its own name. */
  lemma {:induction false} OwnNameIsKept(was: Nodes, cwd: Path, home: bool, moved: map<Name, Name>, f: Name)
    requires NamedWell(was, cwd, home, moved) && f in moved
    requires forall g :: g in moved ==> cwd + [g] !in was && !IsProtected(g, home)
    ensures moved[f] == f
    decreases |f|
  {
    assert NameIsGood(was, cwd, home, moved, f);
    if moved[f] != f {
      var g :| g in moved && g != f && moved[g] == f;
      assert NameIsGood(was, cwd, home, moved, g);
      assert |g| < |f| by {
        var n: nat :| 1 <= n <= 999999 && f == Decimal(n) + [UNDERSCORE] + g;
      }
      OwnNameIsKept(was, cwd, home, moved, g);
    }
  }

  /** One more entry got its name. */
  lemma OneMoreName(was: Nodes, now: Nodes, tmp: Path, cwd: Path, home: bool, moved: map<Name, Name>, f: Name, x: Name)
    requires WellFormed(now) && IsDir(now, cwd) && LegalName(f) && f !in moved && |tmp| == |cwd| + 1
    requires Landed(was, now, tmp, cwd, moved, false) && NamedWell(was, cwd, home, moved)
    requires GetsName(now, cwd, f, home, Some(x))
    ensures NamedWell(was, cwd, home, moved[f := x])
  {
    hide Landed, WellFormed, GetsName, IsNumbered;
    var more := moved[f := x];
    forall g | g in more ensures NameIsGood(was, cwd, home, more, g) {
      if g != f {
        assert NameIsGood(was, cwd, home, moved, g);
        if h :| h in moved && h != g && moved[h] == g { assert more[h] == g; }
      } else if x != f {
        NumberedIsNumbered(now, cwd, f, home, x);
        LocateInCwd(now, cwd, f);
        if !IsProtected(f, home) && cwd + [f] !in was {
          var h := WhoseName(was, now, tmp, cwd, moved, f);
          assert more[h] == f;
        }
      }
    }
  }

  lemma NumberedIsNumbered(nodes: Nodes, cwd: Path, f: Name, home: bool, x: Name)
    requires GetsName(nodes, cwd, f, home, Some(x)) && x != f
    ensures IsNumbered(x, f) && (Exists(nodes, cwd, InCwd(f)) || IsProtected(f, home))
  {
    hide Exists;
    var n: nat :| LeastNumbered(nodes, cwd, f, n, x);
  }

  /** A name that was not there before is the new name of an entry. */
  lemma WhoseName(was: Nodes, now: Nodes, tmp: Path, cwd: Path, moved: map<Name, Name>, f: Name) returns (g: Name)
    requires Landed(was, now, tmp, cwd, moved, false) && cwd + [f] in now && cwd + [f] !in was && |tmp| == |cwd| + 1
    ensures g in moved && moved[g] == f
  {
    var p :| p in was && Where(tmp, cwd, moved, p) == cwd + [f];
    g := p[|tmp|];
    assert (cwd + [moved[g]] + p[|tmp| + 1..])[|cwd|] == moved[g];
    assert (cwd + [f])[|cwd|] == f;
  }

  lemma NothingMoved(nodes: Nodes, tmp: Path, cwd: Path)
    ensures Landed(nodes, nodes, tmp, cwd, map[], false)
  {
    assert forall p :: Where(tmp, cwd, map[], p) == p;
  }

  /** An entry outside the temp directory is where it was. */
  lemma OutsideStays(was: Nodes, now: Nodes, tmp: Path, cwd: Path, moved: map<Name, Name>, gone: bool, p: Path)
    requires Landed(was, now, tmp, cwd, moved, gone) && p in was && !(tmp <= p)
    ensures p in now && now[p] == was[p]
  {
    assert Where(tmp, cwd, moved, p) == p;
  }

  /** No two old entries end up in the same place. */
  ghost predicate OnePlaceEach(was: Nodes, tmp: Path, cwd: Path, moved: map<Name, Name>) {
    forall p, q :: p in was && q in was && Where(tmp, cwd, moved, p) == Where(tmp, cwd, moved, q) ==> p == q
  }

  /** That follows from the account of a landing, whether the temp directory is gone or not. */
  lemma PlacesDiffer(was: Nodes, now: Nodes, tmp: Path, cwd: Path, moved: map<Name, Name>, gone: bool)
    requires WellFormed(was) && tmp in was && |tmp| == |cwd| + 1 && Landed(was, now, tmp, cwd, moved, gone)
    ensures OnePlaceEach(was, tmp, cwd, moved)
  {
    hide Where, WellFormed;
    forall p, q | p in was && q in was && Where(tmp, cwd, moved, p) == Where(tmp, cwd, moved, q) ensures p == q {
      TwoPlaces(was, tmp, cwd, moved, p, q);
    }
  }

  lemma TwoPlaces(was: Nodes, tmp: Path, cwd: Path, moved: map<Name, Name>, p: Path, q: Path)
    requires WellFormed(was) && tmp in was && |tmp| == |cwd| + 1
    requires WereFree(was, tmp, cwd, moved) && AllDifferent(moved)
    requires p in was && q in was && Where(tmp, cwd, moved, p) == Where(tmp, cwd, moved, q)
    ensures p == q
  {
    if tmp < p && p[|tmp|] in moved {
      if tmp < q && q[|tmp|] in moved {
        SameSuffix(tmp, cwd, moved, p, q);
      } else {
        NewPlaceIsNew(was, cwd, moved[p[|tmp|]], p[|tmp| + 1..]);
      }
    } else if tmp < q && q[|tmp|] in moved {
      NewPlaceIsNew(was, cwd, moved[q[|tmp|]], q[|tmp| + 1..]);
    }
  }

  lemma SameSuffix(tmp: Path, cwd: Path, moved: map<Name, Name>, p: Path, q: Path)
    requires tmp < p && tmp < q && p[|tmp|] in moved && q[|tmp|] in moved
    requires AllDifferent(moved)
    requires Where(tmp, cwd, moved, p) == Where(tmp, cwd, moved, q)
    ensures p == q
  {
    var n := |cwd|;
    var w := Where(tmp, cwd, moved, p);
    assert w[n] == moved[p[|tmp|]] && w[n] == moved[q[|tmp|]];
    assert w[n + 1..] == p[|tmp| + 1..] && w[n + 1..] == q[|tmp| + 1..];
    assert p == tmp + [p[|tmp|]] + p[|tmp| + 1..] && q == tmp + [q[|tmp|]] + q[|tmp| + 1..];
  }

  lemma NewPlaceIsNew(was: Nodes, cwd: Path, x: Name, rest: Path)
    requires WellFormed(was) && cwd + [x] !in was
    ensures cwd + [x] + rest !in was
  {
    AbsentIsFree(was, cwd + [x]);
  }

  // ---------------------------------------------------------------- one more entry lands

  /** What moved is not in the temp directory any more. */
  lemma MovedLeavesTemp(was: Nodes, tmp: Path, cwd: Path, moved: map<Name, Name>, p: Path)
    requires tmp in was && |tmp| == |cwd| + 1 && tmp < p && p[|tmp|] in moved && WereFree(was, tmp, cwd, moved)
    ensures !(tmp <= Where(tmp, cwd, moved, p))
  {
    var w := Where(tmp, cwd, moved, p);
    assert w[..|tmp|] == cwd + [moved[p[|tmp|]]];
    PrefixIsSlice(tmp, w);
  }

  lemma MovedStep(was: Nodes, tmp: Path, cwd: Path, moved: map<Name, Name>, f: Name, x: Name, p: Path)
    requires tmp in was && |tmp| == |cwd| + 1 && f !in moved && WereFree(was, tmp, cwd, moved)
    ensures Where(tmp, cwd, moved[f := x], p) == MovedTo(Where(tmp, cwd, moved, p), tmp + [f], cwd + [x])
  {
    var src := tmp + [f];
    if tmp < p && p[|tmp|] == f {
      assert src <= p && p[|src|..] == p[|tmp| + 1..];
    } else if tmp < p && p[|tmp|] in moved {
      MovedLeavesTemp(was, tmp, cwd, moved, p);
      assert tmp <= src;
    }
  }

  lemma OneMoreLands(was: Nodes, now: Nodes, tmp: Path, cwd: Path, moved: map<Name, Name>, f: Name, x: Name)
    requires tmp in was && |tmp| == |cwd| + 1
    requires Landed(was, now, tmp, cwd, moved, false) && tmp + [f] in now && cwd + [x] !in now && Free(now, cwd + [x])
    ensures f !in moved && Landed(was, Renamed(now, tmp + [f], cwd + [x]), tmp, cwd, moved[f := x], false)
  {
    hide Where, MovedTo, Kept, NothingNew, WereFree, AllDifferent, Free;
    SourceIsThere(was, now, tmp, cwd, moved, f);
    NamesStayDifferent(was, now, tmp, cwd, moved, f, x);
    EveryOldEntry(was, now, tmp, cwd, moved, f, x);
    NothingElse(was, now, tmp, cwd, moved, f, x);
  }

  lemma NamesStayDifferent(was: Nodes, now: Nodes, tmp: Path, cwd: Path, moved: map<Name, Name>, f: Name, x: Name)
    requires tmp in was && |tmp| == |cwd| + 1 && tmp + [f] in was
    requires Landed(was, now, tmp, cwd, moved, false) && cwd + [x] !in now
    ensures WereFree(was, tmp, cwd, moved[f := x]) && AllDifferent(moved[f := x])
  {
    NameIsFresh(was, now, tmp, cwd, moved, x);
    hide Where, Kept, NothingNew;
  }

  lemma EveryOldEntry(was: Nodes, now: Nodes, tmp: Path, cwd: Path, moved: map<Name, Name>, f: Name, x: Name)
    requires tmp in was && |tmp| == |cwd| + 1 && f !in moved && Free(now, cwd + [x])
    requires Landed(was, now, tmp, cwd, moved, false)
    ensures Kept(was, Renamed(now, tmp + [f], cwd + [x]), tmp, cwd, moved[f := x], false)
  {
    forall p | p in was
      ensures Where(tmp, cwd, moved[f := x], p) == MovedTo(Where(tmp, cwd, moved, p), tmp + [f], cwd + [x])
    {
      MovedStep(was, tmp, cwd, moved, f, x, p);
    }
    hide Where, MovedTo;
  }

  lemma NothingElse(was: Nodes, now: Nodes, tmp: Path, cwd: Path, moved: map<Name, Name>, f: Name, x: Name)
    requires tmp in was && |tmp| == |cwd| + 1 && f !in moved && Free(now, cwd + [x])
    requires Landed(was, now, tmp, cwd, moved, false)
    ensures NothingNew(was, Renamed(now, tmp + [f], cwd + [x]), tmp, cwd, moved[f := x], false)
  {
    hide Where, MovedTo;
    var next := Renamed(now, tmp + [f], cwd + [x]);
    forall q | q in next ensures exists p :: p in was && Where(tmp, cwd, moved[f := x], p) == q {
      var m :| m in now && MovedTo(m, tmp + [f], cwd + [x]) == q;
      CameFrom(was, now, tmp, cwd, moved, f, x, m);
    }
  }

  lemma CameFrom(was: Nodes, now: Nodes, tmp: Path, cwd: Path, moved: map<Name, Name>, f: Name, x: Name, m: Path)
    requires tmp in was && |tmp| == |cwd| + 1 && f !in moved && Landed(was, now, tmp, cwd, moved, false) && m in now
    ensures exists p :: p in was && Where(tmp, cwd, moved[f := x], p) == MovedTo(m, tmp + [f], cwd + [x])
  {
    hide Where, MovedTo, Kept, AllDifferent;
    var p :| p in was && Where(tmp, cwd, moved, p) == m;
    MovedStep(was, tmp, cwd, moved, f, x, p);
  }

  lemma SourceIsThere(was: Nodes, now: Nodes, tmp: Path, cwd: Path, moved: map<Name, Name>, f: Name)
    requires tmp in was && |tmp| == |cwd| + 1
    requires Landed(was, now, tmp, cwd, moved, false) && tmp + [f] in now
    ensures f !in moved && tmp + [f] in was
  {
    var p :| p in was && Where(tmp, cwd, moved, p) == tmp + [f];
    if tmp < p && p[|tmp|] in moved {
      MovedLeavesTemp(was, tmp, cwd, moved, p);
    }
  }

  lemma NameIsFresh(was: Nodes, now: Nodes, tmp: Path, cwd: Path, moved: map<Name, Name>, x: Name)
    requires |tmp| == |cwd| + 1 && Landed(was, now, tmp, cwd, moved, false) && cwd + [x] !in now
    ensures cwd + [x] !in was && forall g :: g in moved ==> moved[g] != x
  {
    assert Where(tmp, cwd, moved, cwd + [x]) == cwd + [x];
    forall g | g in moved ensures moved[g] != x {
      assert Where(tmp, cwd, moved, tmp + [g]) == cwd + [moved[g]];
    }
  }

  lemma TempDirGoes(was: Nodes, now: Nodes, tmp: Path, cwd: Path, moved: map<Name, Name>)
    requires |tmp| == |cwd| + 1 && Landed(was, now, tmp, cwd, moved, false) && tmp in was
    requires forall f :: f in moved ==> cwd + [moved[f]] != tmp
    ensures Landed(was, now - {tmp}, tmp, cwd, moved, true)
  {
    assert Where(tmp, cwd, moved, tmp) == tmp;
    forall p | p in was && p != tmp ensures Where(tmp, cwd, moved, p) != tmp {
      if tmp < p && p[|tmp|] in moved {
        assert Where(tmp, cwd, moved, p)[..|tmp|] == cwd + [moved[p[|tmp|]]];
      }
    }
  }

  // ---------------------------------------------------------------- the code

  /** "clipshare.conf" and "1_" */
  const CONFIG_FILE: bytes := [99, 108, 105, 112, 115, 104, 97, 114, 101, 46, 99, 111, 110, 102]

  const UNDERSCORE: byte := 95

  /** The names that are tried; the configuration file of a server in its own directory is never one of them. */
  function Candidate(filename: Name, home: bool, n: nat): Name {
    if n > 0 then Decimal(n) + [UNDERSCORE] + filename
    else if home && filename == CONFIG_FILE then [49, UNDERSCORE] + filename
    else filename
  }

  /** A name without separators; it may still be empty, "." or "..". */
  predicate IsBaseName(n: bytes) { SLASH !in n && NUL !in n }

  lemma CandidateIsLegal(filename: Name, home: bool, n: nat)
    requires IsBaseName(filename)
    ensures LegalName(filename) || n > 0 ==> LegalName(Candidate(filename, home, n))
    ensures home ==> Candidate(filename, home, n) != CONFIG_FILE
  {
    if n > 0 {
      DecimalIsDigits(n);
      var d := Decimal(n);
      assert Candidate(filename, home, n)[0] == d[0] && d[0] in d;
      assert Candidate(filename, home, n)[|d|] == UNDERSCORE;
    }
  }

  function Power10(k: nat): nat {
    if k == 0 then 1 else 10 * Power10(k - 1)
  }

  lemma {:induction false} DecimalLength(n: nat, k: nat)
    requires k >= 1 && n < Power10(k)
    ensures |Decimal(n)| <= k
  {
    if n >= 10 {
      assert k > 1 by { assert Power10(1) == 10 * Power10(0); }
      DecimalLength(n / 10, k - 1);
    }
  }

  /** Every number that is tried leaves the buffer large enough. */
  lemma CandidateIsShort(filename: Name, home: bool, n: nat)
    requires n <= 999999
    ensures |Candidate(filename, home, n)| <= |filename| + 7
  {
    assert Power10(6) == 1000000 by {
      assert Power10(2) == 100 && Power10(4) == 10000;
    }
    DecimalLength(n, 6);
  }

  lemma {:induction false} DecimalIsInjective(a: nat, b: nat)
    requires Decimal(a) == Decimal(b)
    ensures a == b
  {
    var s, t := Decimal(a), Decimal(b);
    if a >= 10 && b >= 10 {
      assert s[..|s| - 1] == Decimal(a / 10) && t[..|t| - 1] == Decimal(b / 10);
      DecimalIsInjective(a / 10, b / 10);
      assert s[|s| - 1] == 48 + a % 10 && t[|t| - 1] == 48 + b % 10;
    } else {
      DecimalIsDigits(a / 10);
      DecimalIsDigits(b / 10);
      assert s[0] == t[0];
    }
  }

  /** "./name" */
  function InCwd(x: Name): bytes { [DOT, SLASH] + x }

  lemma LocateInCwd(nodes: Nodes, cwd: Path, x: Name)
    requires LegalName(x) && IsDir(nodes, cwd)
    ensures Locate(nodes, cwd, InCwd(x)) == Some(cwd + [x]) && NUL !in InCwd(x)
  {
    hide Split;
    assert InCwd(x) == [DOT] + [SLASH] + x;
    SplitConcat(SLASH, [DOT], x);
    SplitClean(SLASH, x);
    SplitClean(SLASH, [DOT]);
    assert Split(SLASH, InCwd(x)) == [[DOT], x];
    assert [[DOT], x][1..] == [x] && [x][1..] == [];
    assert Resolve(nodes, cwd, [x]) == Some(cwd + [x]);
  }

  /** "./", "./." and "./.." always exist, so a name of this kind is never given to a file. */
  lemma SpecialNameExists(nodes: Nodes, cwd: Path, n: bytes)
    requires WellFormed(nodes) && IsDir(nodes, cwd) && IsBaseName(n) && !LegalName(n)
    ensures Exists(nodes, cwd, InCwd(n))
  {
    hide Split;
    assert InCwd(n) == [DOT] + [SLASH] + n;
    SplitConcat(SLASH, [DOT], n);
    SplitClean(SLASH, n);
    SplitClean(SLASH, [DOT]);
    assert Attached(nodes, cwd);
    assert [[DOT], n][1..] == [n] && [n][1..] == [];
    assert Resolve(nodes, cwd, [n]) == Some(Enter(cwd, n));
  }

  lemma LocateInTemp(nodes: Nodes, cwd: Path, dirname: bytes, f: Name)
    requires TempDir(nodes, cwd, dirname) && LegalName(f)
    ensures Locate(nodes, cwd, dirname + [SLASH] + f) == Some(TempPath(cwd, dirname) + [f])
    ensures Locate(nodes, cwd, dirname) == Some(TempPath(cwd, dirname))
  {
    hide Split;
    SplitNewPath(dirname, f);
    SplitClean(SLASH, f);
    EnterTempDir(nodes, cwd, dirname, [f]);
    EnterTempDir(nodes, cwd, dirname, []);
    assert dirname == [DOT] + [SLASH] + dirname[2..];
    SplitConcat(SLASH, [DOT], dirname[2..]);
    SplitClean(SLASH, [DOT]);
    SplitClean(SLASH, dirname[2..]);
    assert [[DOT], dirname[2..]] + [] == [[DOT], dirname[2..]];
  }

  /** rename_file */
  method RenameFile(fs: Fs, oldPath: bytes, newPath: bytes) returns (failed: bool)
    requires fs.Valid()
    modifies fs
    ensures fs.calls == old(fs.calls) + 1 && (fs.faults(old(fs.calls)) ==> failed)
    ensures failed ==> fs.nodes == old(fs.nodes)
    ensures !failed ==> Locate(old(fs.nodes), fs.cwd, oldPath).Some? && Locate(old(fs.nodes), fs.cwd, newPath).Some?
                        && RenameResult(old(fs.nodes), Locate(old(fs.nodes), fs.cwd, oldPath).value,
                                        Locate(old(fs.nodes), fs.cwd, newPath).value) == Some(fs.nodes)
    ensures fs.Healthy() && Locate(old(fs.nodes), fs.cwd, oldPath).Some? && Locate(old(fs.nodes), fs.cwd, newPath).Some?
            && RenameResult(old(fs.nodes), Locate(old(fs.nodes), fs.cwd, oldPath).value,
                            Locate(old(fs.nodes), fs.cwd, newPath).value).Some?
            ==> !failed
  {
    var refused := fs.Refuses();
    var src, dst := Locate(fs.nodes, fs.cwd, oldPath), Locate(fs.nodes, fs.cwd, newPath);
    if refused || src.None? || dst.None? { return true; }
    var result := RenameResult(fs.nodes, src.value, dst.value);
    if result.None? { return true; }
    fs.nodes := result.value;
    return false;
  }

  /** `x` is the candidate number `k`, it does not exist, and all candidates before it do. */
  ghost predicate FirstFree(nodes: Nodes, cwd: Path, filename: Name, home: bool, k: nat, x: Name) {
    x == Candidate(filename, home, k) && !Exists(nodes, cwd, InCwd(x)) && TakenBelow(nodes, cwd, filename, home, k)
  }

  /** The candidates before number `n` all exist. */
  ghost predicate TakenBelow(nodes: Nodes, cwd: Path, filename: Name, home: bool, n: nat) {
    forall j :: 0 <= j < n ==> Exists(nodes, cwd, InCwd(Candidate(filename, home, j)))
  }

  lemma FreeNameIsLegal(nodes: Nodes, cwd: Path, filename: Name, home: bool, n: nat)
    requires WellFormed(nodes) && IsDir(nodes, cwd) && IsBaseName(filename)
    requires !Exists(nodes, cwd, InCwd(Candidate(filename, home, n)))
    ensures LegalName(Candidate(filename, home, n)) && (home ==> Candidate(filename, home, n) != CONFIG_FILE)
    ensures cwd + [Candidate(filename, home, n)] !in nodes
  {
    CandidateIsLegal(filename, home, n);
    if !LegalName(Candidate(filename, home, n)) {
      assert Candidate(filename, home, n) == filename;
      SpecialNameExists(nodes, cwd, filename);
    }
    LocateInCwd(nodes, cwd, Candidate(filename, home, n));
  }

  /** All the names that are tried exist. */
  ghost predicate AllTaken(nodes: Nodes, cwd: Path, filename: Name, home: bool) {
    TakenBelow(nodes, cwd, filename, home, 1000000)
  }

  /** The name in the configuration directory that is kept for the server. */
  predicate IsProtected(filename: Name, home: bool) { home && filename == CONFIG_FILE }

  /** `x` is the name with the least number from 1 on that is free. */
  ghost predicate LeastNumbered(nodes: Nodes, cwd: Path, filename: Name, n: nat, x: Name) {
    && 1 <= n <= 999999 && x == Decimal(n) + [UNDERSCORE] + filename && !Exists(nodes, cwd, InCwd(x))
    && forall m: nat :: 1 <= m < n ==> Exists(nodes, cwd, InCwd(Decimal(m) + [UNDERSCORE] + filename))
  }

  /** Which name a file gets: its own if that is free and not protected, and otherwise the one with the least number. */
  ghost predicate GetsName(nodes: Nodes, cwd: Path, filename: Name, home: bool, x: Option<Name>) {
    if !Exists(nodes, cwd, InCwd(filename)) && !IsProtected(filename, home) then x == Some(filename)
    else match x
      case None =>
        forall n: nat :: 1 <= n <= 999999 ==> Exists(nodes, cwd, InCwd(Decimal(n) + [UNDERSCORE] + filename))
      case Some(v) => exists n: nat :: LeastNumbered(nodes, cwd, filename, n, v)
  }

  lemma FirstFreeIsName(nodes: Nodes, cwd: Path, filename: Name, home: bool, k: nat, x: Name)
    requires k <= 999999 && FirstFree(nodes, cwd, filename, home, k, x)
    ensures GetsName(nodes, cwd, filename, home, Some(x))
  {
    hide Exists;
    DecimalOfOne();
    assert k > 0 ==> Exists(nodes, cwd, InCwd(Candidate(filename, home, 0)));
    if Exists(nodes, cwd, InCwd(filename)) || IsProtected(filename, home) {
      var n := if k == 0 then 1 else k;
      forall m: nat | 1 <= m < n ensures Exists(nodes, cwd, InCwd(Decimal(m) + [UNDERSCORE] + filename)) {
        assert Candidate(filename, home, m) == Decimal(m) + [UNDERSCORE] + filename;
      }
      assert LeastNumbered(nodes, cwd, filename, n, x);
    }
  }

  lemma AllTakenIsName(nodes: Nodes, cwd: Path, filename: Name, home: bool)
    requires AllTaken(nodes, cwd, filename, home)
    ensures GetsName(nodes, cwd, filename, home, None)
  {
    hide Exists;
    assert Exists(nodes, cwd, InCwd(Candidate(filename, home, 0)));
    forall n: nat | 1 <= n <= 999999 ensures Exists(nodes, cwd, InCwd(Decimal(n) + [UNDERSCORE] + filename)) {
      assert Candidate(filename, home, n) == Decimal(n) + [UNDERSCORE] + filename;
    }
  }

  lemma AllTakenIs(nodes: Nodes, cwd: Path, filename: Name, home: bool)
    ensures AllTaken(nodes, cwd, filename, home) <==> TakenBelow(nodes, cwd, filename, home, 1000000)
  {
  }

  lemma DecimalOfOne()
    ensures Decimal(1) == [49]
  {
  }

  /**
    * The loop that looks for a free name; the result is the first candidate that does not exist, and there is
    * none only if all the million candidates exist.
    */
  method FindFree(fs: Fs, filename: Name, home: bool, maxLen: nat) returns (x: Option<Name>)
    requires fs.Valid() && IsBaseName(filename) && maxLen >= |filename| + 10
    ensures x.None? <==> AllTaken(fs.nodes, fs.cwd, filename, home)
    ensures x.Some? ==> exists k :: 0 <= k <= 999999 && FirstFree(fs.nodes, fs.cwd, filename, home, k, x.value)
    ensures x.Some? ==> LegalName(x.value) && fs.cwd + [x.value] !in fs.nodes && (home ==> x.value != CONFIG_FILE)
    ensures GetsName(fs.nodes, fs.cwd, filename, home, x)
  {
    hide GetsName, AllTaken;
    if AllTaken(fs.nodes, fs.cwd, filename, home) { AllTakenIsName(fs.nodes, fs.cwd, filename, home); }
    AllTakenIs(fs.nodes, fs.cwd, filename, home);
    hide Candidate, Exists, InCwd, WellFormed, LegalName;
    var leaf := Candidate(filename, home, 0);
    CandidateIsShort(filename, home, 0);
    if 2 + |leaf| >= maxLen { return None; }
    var n := 1;
    while true
      invariant 1 <= n <= 1000000 && leaf == Candidate(filename, home, n - 1)
      invariant TakenBelow(fs.nodes, fs.cwd, filename, home, n - 1)
      decreases 1000000 - n
    {
      var there := fs.FileExists(InCwd(leaf));
      if !there { break; }
      if n > 999999 { return None; }
      leaf := Candidate(filename, home, n);
      CandidateIsShort(filename, home, n);
      if 2 + |leaf| >= maxLen { return None; }
      n := n + 1;
    }
    FreeNameIsLegal(fs.nodes, fs.cwd, filename, home, n - 1);
    assert FirstFree(fs.nodes, fs.cwd, filename, home, n - 1, leaf);
    FirstFreeIsName(fs.nodes, fs.cwd, filename, home, n - 1, leaf);
    x := Some(leaf);
  }

  /** The entry at `src` moved to the free place `dst`, with everything below it. */
  ghost predicate RenamedTo(nodes: Nodes, now: Nodes, src: Path, dst: Path) {
    src in nodes && dst !in nodes && Free(nodes, dst) && now == Renamed(nodes, src, dst)
  }

  /**
    * _check_and_rename: moves one entry of the temp directory to a free name and returns its new path,
    * or leaves everything as it is.
    */
  method CheckAndRename(fs: Fs, filename: Name, dirname: bytes, cwdText: bytes, home: bool)
    returns (path: Option<bytes>, ghost x: Name)
    requires fs.Valid() && TempDir(fs.nodes, fs.cwd, dirname) && LegalName(filename)
    modifies fs
    ensures fs.Valid() && fs.calls >= old(fs.calls) && (path.Some? ==> !fs.faults(old(fs.calls)))
    ensures path.None? ==> fs.nodes == old(fs.nodes)
    ensures path.Some? ==> RenamedTo(old(fs.nodes), fs.nodes, TempPath(fs.cwd, dirname) + [filename], fs.cwd + [x])
    ensures path.Some? ==> path.value == cwdText + [SLASH] + x && (home ==> x != CONFIG_FILE)
    ensures path.Some? ==> exists k :: 0 <= k <= 999999 && FirstFree(old(fs.nodes), fs.cwd, filename, home, k, x)
    ensures path.Some? ==> GetsName(old(fs.nodes), fs.cwd, filename, home, Some(x))
    ensures fs.Healthy() && |filename| <= MAX_FILE_NAME_LEN && |dirname| <= 16
            && TempPath(fs.cwd, dirname) + [filename] in old(fs.nodes)
            ==> (AllTaken(old(fs.nodes), fs.cwd, filename, home) <==> path.None?)
  {
    x := filename;
    if |filename| > MAX_FILE_NAME_LEN { return None, x; }
    var nameMaxLen := |filename| + 20;
    var oldPath := dirname + [SLASH] + filename;
    if |oldPath| >= nameMaxLen { return None, x; }
    var free := FindFree(fs, filename, home, nameMaxLen);
    if free.None? { return None, x; }
    x := free.value;
    var newPath := InCwd(free.value);
    LocateInTemp(fs.nodes, fs.cwd, dirname, filename);
    LocateInCwd(fs.nodes, fs.cwd, x);
    RenamedFromTemp(fs.nodes, fs.cwd, dirname, filename, x);
    var failed := RenameFile(fs, oldPath, newPath);
    if failed { return None, x; }
    path := Some(cwdText + [SLASH] + free.value);
  }

  lemma RenamedFromTemp(nodes: Nodes, cwd: Path, dirname: bytes, f: Name, x: Name)
    requires WellFormed(nodes) && TempDir(nodes, cwd, dirname) && LegalName(x) && cwd + [x] !in nodes
    ensures Free(nodes, cwd + [x])
    ensures var src, dst := TempPath(cwd, dirname) + [f], cwd + [x];
            match RenameResult(nodes, src, dst)
            case None => src !in nodes
            case Some(more) => src in nodes && more == Renamed(nodes, src, dst) && WellFormed(more) && IsDir(more, cwd)
  {
    var src, dst := TempPath(cwd, dirname) + [f], cwd + [x];
    AbsentIsFree(nodes, dst);
    assert nodes - {dst} == nodes;
    assert Attached(nodes, cwd);
    assert Attached(nodes, dst);
    if src in nodes {
      RenameKeepsWellFormed(nodes, src, dst);
      assert MovedTo(cwd, src, dst) == cwd;
    }
  }

  // ---------------------------------------------------------------- there is room to land

  lemma {:induction false} ImageIsSmall(s: set<Path>, src: Path, dst: Path)
    ensures |set p | p in s :: MovedTo(p, src, dst)| <= |s|
    decreases |s|
  {
    hide MovedTo;
    if s != {} {
      var p :| p in s;
      ImageIsSmall(s - {p}, src, dst);
      var less := set q | q in s - {p} :: MovedTo(q, src, dst);
      assert (set q | q in s :: MovedTo(q, src, dst)) == less + {MovedTo(p, src, dst)};
    }
  }

  lemma RenamedIsSmall(nodes: Nodes, src: Path, dst: Path)
    requires Free(nodes, dst)
    ensures |Renamed(nodes, src, dst)| <= |nodes|
  {
    hide MovedTo;
    var more := Renamed(nodes, src, dst);
    ImageIsSmall(nodes.Keys, src, dst);
    assert more.Keys == set p | p in nodes.Keys :: MovedTo(p, src, dst);
    assert |more| == |more.Keys| && |nodes| == |nodes.Keys|;
  }

  /** The places of the candidates numbered from 1 to `k`. */
  function CandidatePlaces(cwd: Path, filename: Name, home: bool, k: nat): (s: set<Path>)
    ensures forall p :: p in s ==> exists j :: 1 <= j <= k && p == cwd + [Candidate(filename, home, j)]
  {
    if k == 0 then {} else CandidatePlaces(cwd, filename, home, k - 1) + {cwd + [Candidate(filename, home, k)]}
  }

  lemma CandidatesDiffer(cwd: Path, filename: Name, home: bool, a: nat, b: nat)
    requires a >= 1 && b >= 1 && cwd + [Candidate(filename, home, a)] == cwd + [Candidate(filename, home, b)]
    ensures a == b
  {
    var x, y := Candidate(filename, home, a), Candidate(filename, home, b);
    assert (cwd + [x])[|cwd|] == x && (cwd + [y])[|cwd|] == y;
    assert x[..|x| - |filename| - 1] == Decimal(a) && y[..|y| - |filename| - 1] == Decimal(b);
    DecimalIsInjective(a, b);
  }

  lemma {:induction false} AllPlacesTaken(nodes: Nodes, cwd: Path, filename: Name, home: bool, k: nat)
    requires forall j :: 1 <= j <= k ==> cwd + [Candidate(filename, home, j)] in nodes
    ensures |CandidatePlaces(cwd, filename, home, k)| == k && CandidatePlaces(cwd, filename, home, k) <= nodes.Keys
  {
    hide Candidate;
    if k > 0 {
      AllPlacesTaken(nodes, cwd, filename, home, k - 1);
      OneMorePlace(cwd, filename, home, k);
      assert cwd + [Candidate(filename, home, k)] in nodes;
    }
  }

  lemma OneMorePlace(cwd: Path, filename: Name, home: bool, k: nat)
    requires k > 0
    ensures |CandidatePlaces(cwd, filename, home, k)| == |CandidatePlaces(cwd, filename, home, k - 1)| + 1
  {
    hide Candidate;
    var p, less := cwd + [Candidate(filename, home, k)], CandidatePlaces(cwd, filename, home, k - 1);
    forall j: nat | 1 <= j <= k - 1 ensures p != cwd + [Candidate(filename, home, j)] {
      if p == cwd + [Candidate(filename, home, j)] { CandidatesDiffer(cwd, filename, home, j, k); }
    }
    assert p !in less;
  }

  lemma {:induction false} SubsetIsSmall<T>(a: set<T>, b: set<T>)
    requires a <= b
    ensures |a| <= |b|
    decreases |a|
  {
    if a != {} {
      var x :| x in a;
      SubsetIsSmall(a - {x}, b - {x});
    }
  }

  /** Only a file system with a million entries can have no free name left. */
  lemma SomeNameIsFree(nodes: Nodes, cwd: Path, filename: Name, home: bool)
    requires WellFormed(nodes) && IsDir(nodes, cwd) && LegalName(filename) && |nodes| < 1000000
    ensures !AllTaken(nodes, cwd, filename, home)
  {
    if AllTaken(nodes, cwd, filename, home) {
      forall j: nat | 1 <= j <= 999999 ensures cwd + [Candidate(filename, home, j)] in nodes {
        CandidateIsLegal(filename, home, j);
        LocateInCwd(nodes, cwd, Candidate(filename, home, j));
      }
      AllPlacesTaken(nodes, cwd, filename, home, 999999);
      PlacesAndRoot(nodes, cwd, filename, home, 999999);
    }
  }

  lemma PlacesAndRoot(nodes: Nodes, cwd: Path, filename: Name, home: bool, k: nat)
    requires WellFormed(nodes) && CandidatePlaces(cwd, filename, home, k) <= nodes.Keys
    ensures |CandidatePlaces(cwd, filename, home, k)| + 1 <= |nodes|
  {
    var places := CandidatePlaces(cwd, filename, home, k);
    var root: Path := [];
    assert root !in places && root in nodes.Keys;
    SubsetIsSmall(places + {root}, nodes.Keys);
    assert |nodes| == |nodes.Keys|;
  }

  /** The list is complete, the names fit, and there are free names for all of them. */
  ghost predicate Landable(nodes: Nodes, cwd: Path, tmpDir: bytes, files: seq<Name>)
    requires |tmpDir| > 2
  {
    && |tmpDir| <= 16 && |nodes| < 1000000 && ListsDir(nodes, TempPath(cwd, tmpDir), files)
    && forall f :: f in files ==> |f| <= MAX_FILE_NAME_LEN
  }

  /** Nothing is left in the temp directory once every entry has moved. */
  lemma TempIsEmpty(was: Nodes, now: Nodes, tmp: Path, cwd: Path, moved: map<Name, Name>, files: seq<Name>)
    requires WellFormed(was) && tmp in was && |tmp| == |cwd| + 1 && Landed(was, now, tmp, cwd, moved, false)
    requires ListsDir(was, tmp, files) && forall f :: f in files ==> f in moved
    ensures forall q :: q in now ==> !(tmp < q)
  {
    forall q | q in now ensures !(tmp < q) {
      var p :| p in was && Where(tmp, cwd, moved, p) == q;
      if tmp < p {
        FirstNameIsListed(was, tmp, files, p);
        MovedLeavesTemp(was, tmp, cwd, moved, p);
      }
    }
    hide Where, ListsDir, WellFormed;
  }

  lemma FirstNameIsListed(nodes: Nodes, tmp: Path, files: seq<Name>, p: Path)
    requires WellFormed(nodes) && ListsDir(nodes, tmp, files) && p in nodes && tmp < p
    ensures p[|tmp|] in files
  {
    hide WellFormed;
    assert p[..|tmp| + 1] == tmp + [p[|tmp|]];
    PrefixIsEntry(nodes, p, tmp + [p[|tmp|]]);
  }

  // ---------------------------------------------------------------- the loop

  /**
    * clean_temp_dir. Whatever fails on the way, every entry of the old file system is at exactly one place:
    * its own, or for entries of the temp directory a name that was free. With a result, the temp directory is
    * gone and there is one path for each file, in order. It succeeds if the system refuses nothing.
    */
  method CleanTempDir(fs: Fs, tmpDir: bytes, files: seq<Name>, cwdText: bytes, home: bool)
    returns (destFiles: Option<seq<bytes>>, ghost moved: map<Name, Name>)
    requires fs.Valid() && TempDir(fs.nodes, fs.cwd, tmpDir) && forall f :: f in files ==> LegalName(f)
    modifies fs
    ensures fs.Valid() && fs.calls >= old(fs.calls)
    ensures destFiles.Some? && files != [] ==> !fs.faults(old(fs.calls)) && !fs.faults(old(fs.calls) + 1)
    ensures Landed(old(fs.nodes), fs.nodes, TempPath(fs.cwd, tmpDir), fs.cwd, moved, destFiles.Some?)
    ensures OnePlaceEach(old(fs.nodes), TempPath(fs.cwd, tmpDir), fs.cwd, moved)
    ensures forall f :: f in moved ==> f in files && (home ==> moved[f] != CONFIG_FILE)
    ensures destFiles.Some? ==> TempPath(fs.cwd, tmpDir) !in fs.nodes && |destFiles.value| == |files|
    ensures destFiles.Some? ==>
              forall i :: 0 <= i < |files| ==>
                files[i] in moved && destFiles.value[i] == cwdText + [SLASH] + moved[files[i]]
    ensures fs.Healthy() && Landable(old(fs.nodes), fs.cwd, tmpDir, files) ==> destFiles.Some?
    ensures files != [] && fs.RefusesFrom(old(fs.calls) + 1) ==> moved == map[] && fs.nodes == old(fs.nodes)
    ensures NamedWell(old(fs.nodes), fs.cwd, home, moved)
    ensures (forall f :: f in files ==> fs.cwd + [f] !in old(fs.nodes) && !IsProtected(f, home)) ==>
              forall f :: f in moved ==> moved[f] == f
  {
    hide Landed, Landable, WellFormed, OnePlaceEach, NameIsGood, IsProtected;
    ghost var before, tmp := fs.nodes, TempPath(fs.cwd, tmpDir);
    moved := map[];
    NothingMoved(before, tmp, fs.cwd);
    PlacesDiffer(before, before, tmp, fs.cwd, moved, false);
    var refused := fs.Refuses();  // init_list
    if refused { return None, moved; }
    var dests, success;
    dests, success, moved := LandEach(fs, tmpDir, files, cwdText, home);
    PlacesDiffer(before, fs.nodes, tmp, fs.cwd, moved, false);
    KeepsOwnNames(before, fs.cwd, home, moved, files);
    if success {
      LocateInTemp(fs.nodes, fs.cwd, tmpDir, tmpDir[2..]);
      TempDirCanGo(before, fs.nodes, tmp, fs.cwd, moved);
      EmptyAtTheEnd(before, fs.nodes, fs.cwd, tmpDir, moved, files);
      success := fs.Rmdir(tmpDir);
    }
    destFiles := if success then Some(dests) else None;
  }

  lemma KeepsOwnNames(was: Nodes, cwd: Path, home: bool, moved: map<Name, Name>, files: seq<Name>)
    requires NamedWell(was, cwd, home, moved) && forall f :: f in moved ==> f in files
    ensures (forall f :: f in files ==> cwd + [f] !in was && !IsProtected(f, home)) ==>
              forall f :: f in moved ==> moved[f] == f
  {
    hide NamedWell, IsProtected;
    if forall f :: f in files ==> cwd + [f] !in was && !IsProtected(f, home) {
      forall f | f in moved ensures moved[f] == f {
        OwnNameIsKept(was, cwd, home, moved, f);
      }
    }
  }

  lemma EmptyAtTheEnd(was: Nodes, now: Nodes, cwd: Path, tmpDir: bytes, moved: map<Name, Name>, files: seq<Name>)
    requires WellFormed(was) && TempDir(was, cwd, tmpDir) && TempDir(now, cwd, tmpDir)
    requires Landed(was, now, TempPath(cwd, tmpDir), cwd, moved, false)
    requires forall i :: 0 <= i < |files| ==> files[i] in moved
    ensures Landable(was, cwd, tmpDir, files) ==> IsEmptyDir(now, TempPath(cwd, tmpDir))
  {
    hide Landed, ListsDir, WellFormed, LegalName;
    if Landable(was, cwd, tmpDir, files) {
      TempIsEmpty(was, now, TempPath(cwd, tmpDir), cwd, moved, files);
    }
  }

  /** The loop of clean_temp_dir; a failure does not stop it. */
  method LandEach(fs: Fs, tmpDir: bytes, files: seq<Name>, cwdText: bytes, home: bool)
    returns (dests: seq<bytes>, success: bool, ghost moved: map<Name, Name>)
    requires fs.Valid() && TempDir(fs.nodes, fs.cwd, tmpDir) && forall f :: f in files ==> LegalName(f)
    modifies fs
    ensures fs.Valid() && TempDir(fs.nodes, fs.cwd, tmpDir)
    ensures fs.calls >= old(fs.calls) && (success && files != [] ==> !fs.faults(old(fs.calls)))
    ensures Landed(old(fs.nodes), fs.nodes, TempPath(fs.cwd, tmpDir), fs.cwd, moved, false)
    ensures forall f :: f in moved ==> f in files && (home ==> moved[f] != CONFIG_FILE)
    ensures success ==> |dests| == |files|
    ensures success ==>
              forall i :: 0 <= i < |files| ==> files[i] in moved && dests[i] == cwdText + [SLASH] + moved[files[i]]
    ensures fs.Healthy() && Landable(old(fs.nodes), fs.cwd, tmpDir, files) ==> success
    ensures fs.RefusesFrom(old(fs.calls)) ==> moved == map[] && fs.nodes == old(fs.nodes)
    ensures NamedWell(old(fs.nodes), fs.cwd, home, moved)
  {
    hide Landed, WellFormed, Landable, LegalName, NameIsGood;
    moved := map[];
    ghost var before, tmp := fs.nodes, TempPath(fs.cwd, tmpDir);
    NothingMoved(before, tmp, fs.cwd);
    dests, success := [], true;
    for i := 0 to |files|
      invariant fs.Valid() && TempDir(fs.nodes, fs.cwd, tmpDir) && |fs.nodes| <= |before|
      invariant fs.calls >= old(fs.calls) && (i == 0 ==> fs.calls == old(fs.calls))
      invariant success && i > 0 ==> !fs.faults(old(fs.calls))
      invariant Landed(before, fs.nodes, tmp, fs.cwd, moved, false)
      invariant forall f :: f in moved ==> f in files[..i] && (home ==> moved[f] != CONFIG_FILE)
      invariant success ==> |dests| == i
      invariant success ==>
                  forall j :: 0 <= j < i ==> files[j] in moved && dests[j] == cwdText + [SLASH] + moved[files[j]]
      invariant fs.Healthy() && Landable(before, fs.cwd, tmpDir, files) ==> success
      invariant fs.RefusesFrom(old(fs.calls)) ==> moved == map[] && fs.nodes == before
      invariant NamedWell(before, fs.cwd, home, moved)
    {
      StillListed(before, fs.nodes, fs.cwd, tmpDir, moved, files, i);
      var newPath;
      newPath, moved := LandOne(fs, tmpDir, files[i], cwdText, home, before, moved);
      assert files[..i + 1] == files[..i] + [files[i]];
      if newPath.None? {
        success := false;
        continue;
      }
      dests := dests + [newPath.value];
    }
    assert files[..|files|] == files;
  }

  lemma StillListed(was: Nodes, now: Nodes, cwd: Path, tmpDir: bytes, moved: map<Name, Name>, files: seq<Name>, i: nat)
    requires |tmpDir| > 2 && i < |files| && Landed(was, now, TempPath(cwd, tmpDir), cwd, moved, false) && |now| <= |was|
    requires forall f :: f in moved ==> f in files[..i]
    ensures Landable(was, cwd, tmpDir, files) ==> HasRoom(now, cwd, tmpDir, files[i])
  {
    var tmp := TempPath(cwd, tmpDir);
    if Landable(was, cwd, tmpDir, files) {
      assert files[i] in files;
      NotBefore(files, i);
      assert Where(tmp, cwd, moved, tmp + [files[i]]) == tmp + [files[i]];
    }
  }

  lemma NotBefore(files: seq<Name>, i: nat)
    requires NoDuplicates(files) && i < |files|
    ensures files[i] !in files[..i]
  {
  }

  lemma LandsNext(before: Nodes, now: Nodes, next: Nodes, cwd: Path, tmpDir: bytes, moved: map<Name, Name>, f: Name,
                  x: Name)
    requires TempDir(before, cwd, tmpDir) && Landed(before, now, TempPath(cwd, tmpDir), cwd, moved, false)
    requires RenamedTo(now, next, TempPath(cwd, tmpDir) + [f], cwd + [x])
    ensures Landed(before, next, TempPath(cwd, tmpDir), cwd, moved[f := x], false)
    ensures f !in moved && TempDir(next, cwd, tmpDir) && |next| <= |now|
  {
    hide Landed, Renamed, Free, LegalName;
    OneMoreLands(before, now, TempPath(cwd, tmpDir), cwd, moved, f, x);
    TempDirStays(before, next, TempPath(cwd, tmpDir), cwd, moved[f := x], tmpDir);
    RenamedIsSmall(now, TempPath(cwd, tmpDir) + [f], cwd + [x]);
  }

  /** The entry can land unless the system refuses. */
  predicate HasRoom(nodes: Nodes, cwd: Path, tmpDir: bytes, f: Name)
    requires |tmpDir| > 2
  {
    |tmpDir| <= 16 && |nodes| < 1000000 && |f| <= MAX_FILE_NAME_LEN && TempPath(cwd, tmpDir) + [f] in nodes
  }

  /** The body of the loop. */
  method LandOne(fs: Fs, tmpDir: bytes, filename: Name, cwdText: bytes, home: bool, ghost before: Nodes,
                 ghost moved: map<Name, Name>)
    returns (path: Option<bytes>, ghost more: map<Name, Name>)
    requires fs.Valid() && TempDir(fs.nodes, fs.cwd, tmpDir) && LegalName(filename)
    requires TempPath(fs.cwd, tmpDir) in before && TempDir(before, fs.cwd, tmpDir)
    requires Landed(before, fs.nodes, TempPath(fs.cwd, tmpDir), fs.cwd, moved, false)
    modifies fs
    ensures fs.Valid() && TempDir(fs.nodes, fs.cwd, tmpDir) && |fs.nodes| <= |old(fs.nodes)|
    ensures Landed(before, fs.nodes, TempPath(fs.cwd, tmpDir), fs.cwd, more, false)
    ensures path.None? ==> more == moved && fs.nodes == old(fs.nodes)
    ensures path.Some? ==> filename in more && filename !in moved && more == moved[filename := more[filename]]
    ensures path.Some? ==> path.value == cwdText + [SLASH] + more[filename] && (home ==> more[filename] != CONFIG_FILE)
    ensures fs.Healthy() && HasRoom(old(fs.nodes), fs.cwd, tmpDir, filename) ==> path.Some?
    ensures fs.calls >= old(fs.calls) && (path.Some? ==> !fs.faults(old(fs.calls)))
    ensures NamedWell(before, fs.cwd, home, moved) ==> NamedWell(before, fs.cwd, home, more)
  {
    hide Landed, WellFormed, RenamedTo, FirstFree, AllTaken, LegalName, NamedWell, GetsName;
    more := moved;
    ghost var now := fs.nodes;
    ghost var x;
    path, x := CheckAndRename(fs, filename, tmpDir, cwdText, home);
    if path.None? {
      if HasRoom(now, fs.cwd, tmpDir, filename) { SomeNameIsFree(now, fs.cwd, filename, home); }
      return;
    }
    more := moved[filename := x];
    LandsNext(before, now, fs.nodes, fs.cwd, tmpDir, moved, filename, x);
    if NamedWell(before, fs.cwd, home, moved) {
      OneMoreName(before, now, TempPath(fs.cwd, tmpDir), fs.cwd, home, moved, filename, x);
    }
  }

  lemma TempDirStays(was: Nodes, now: Nodes, tmp: Path, cwd: Path, moved: map<Name, Name>, dirname: bytes)
    requires Landed(was, now, tmp, cwd, moved, false) && TempDir(was, cwd, dirname) && tmp == TempPath(cwd, dirname)
    ensures TempDir(now, cwd, dirname)
  {
    assert Where(tmp, cwd, moved, tmp) == tmp && Where(tmp, cwd, moved, cwd) == cwd;
  }

  lemma TempDirCanGo(was: Nodes, now: Nodes, tmp: Path, cwd: Path, moved: map<Name, Name>)
    requires |tmp| == |cwd| + 1 && Landed(was, now, tmp, cwd, moved, false) && tmp in was
    ensures Landed(was, now - {tmp}, tmp, cwd, moved, true)
  {
    forall f | f in moved ensures cwd + [moved[f]] != tmp {
    }
    TempDirGoes(was, now, tmp, cwd, moved);
  }
}
