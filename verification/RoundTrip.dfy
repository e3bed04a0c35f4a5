/** A tree that is walked, sent and received is the same tree: the two ends of the file protocol put together. */
module RoundTrip {
  import opened Bytes
  import opened Common
  import opened Paths
  import opened FileSystem
  import opened NetUtils
  import opened Receive
  import Utf8
  import Send
  import Walk

  // ---------------------------------------------------------------- one record

  /** Names go out relative to the common directory; if that is the root they keep their slash. */
  function EntryName(lead: bytes, r: Path): bytes { lead + Join(r) }

  predicate IsLead(lead: bytes) { lead == [] || lead == [SLASH] }

  function Record(lead: bytes, r: Path, node: Node): bytes {
    match node
    case File(content) => Send.Framed(EntryName(lead, r), |content|) + content
    case Dir => Send.Framed(EntryName(lead, r), -1)
  }

  /** The part of a record after the name. */
  function Tail(node: Node): bytes {
    match node
    case File(content) => EncodeSize(|content|) + content
    case Dir => EncodeSize(-1)
  }

  lemma RecordParts(lead: bytes, r: Path, node: Node)
    ensures Record(lead, r, node) == EncodeSize(|EntryName(lead, r)|) + EntryName(lead, r) + Tail(node)
  {
    hide EncodeSize, EntryName;
  }

  /** The names, sizes and lengths that both ends accept. */
  predicate Transferable(dirname: bytes, lead: bytes, r: Path, node: Node, maxSize: int) {
    && r != [] && LegalPath(r) && Utf8.WellFormed(Join(r)) && (forall c :: c in Join(r) ==> c >= 32)
    && |EntryName(lead, r)| <= MAX_FILE_NAME_LEN
    && |dirname| + 1 + |Join(if node.Dir? then r else Parent(r))| <= MAX_FILE_NAME_LEN
    && (node.File? ==> |node.content| <= maxSize)
  }

  /** The entry at `r` can be made below `tmp`. */
  predicate Room(nodes: Nodes, tmp: Path, r: Path) {
    tmp + r !in nodes && forall k :: 0 <= k < |r| ==> (tmp + r[..k] in nodes ==> IsDir(nodes, tmp + r[..k]))
  }

  /** `q` lies strictly below `top`, on the way to `end`. */
  predicate OnTheWay(top: Path, q: Path, end: Path) { top < q && q <= end }

  /** The prefixes of a legal path are made where they are missing, and nothing else happens. */
  lemma {:induction false} EnsureLegal(nodes: Nodes, cur: Path, cs: Path)
    requires LegalPath(cs) && forall k :: 0 <= k <= |cs| ==> (cur + cs[..k] in nodes ==> IsDir(nodes, cur + cs[..k]))
    ensures EnsureDirs(nodes, cur, cs).Some?
    ensures Extends(nodes, EnsureDirs(nodes, cur, cs).value, cur, cur + cs)
    decreases |cs|
  {
    if cs == [] {
      forall q ensures !OnTheWay(cur, q, cur + cs) {
        NothingOnTheWay(cur, q);
      }
    } else {
      assert LegalName(cs[0]);
      var next := cur + [cs[0]];
      assert cs[..1] == [cs[0]];
      var mid := if next in nodes then nodes else nodes[next := Dir];
      forall k | 0 <= k <= |cs[1..]| ensures next + cs[1..][..k] in mid ==> IsDir(mid, next + cs[1..][..k]) {
        assert next + cs[1..][..k] == cur + cs[..k + 1];
      }
      EnsureLegal(mid, next, cs[1..]);
      assert next + cs[1..] == cur + cs;
      FirstOnTheWay(nodes, cur, cs, EnsureDirs(mid, next, cs[1..]).value);
    }
  }

  /** `more` is `nodes` with a directory at each place between `top` and `end` that was empty. */
  ghost predicate Extends(nodes: Nodes, more: Nodes, top: Path, end: Path) {
    && (forall q :: q in more <==> q in nodes || OnTheWay(top, q, end))
    && (forall q :: q in more ==> more[q] == if q in nodes then nodes[q] else Dir)
  }

  lemma NothingOnTheWay(cur: Path, q: Path)
    ensures !OnTheWay(cur, q, cur + [])
  {
    assert cur + [] == cur;
  }

  lemma FirstOnTheWay(nodes: Nodes, cur: Path, cs: Path, more: Nodes)
    requires cs != [] && var next := cur + [cs[0]];
                         Extends(if next in nodes then nodes else nodes[next := Dir], more, next, cur + cs)
    ensures Extends(nodes, more, cur, cur + cs)
  {
    var next := cur + [cs[0]];
    forall q ensures OnTheWay(cur, q, cur + cs) <==> q == next || OnTheWay(next, q, cur + cs) {
      if cur < q && q <= cur + cs {
        assert q[|cur|] == (cur + cs)[|cur|];
      }
    }
    hide OnTheWay;
  }

  /** If strstr finds "/../", some component after a separator is "..". */
  lemma {:induction false} BadPathHasDotDot(s: bytes)
    requires HasBadPath(s)
    ensures exists k :: 1 <= k < |Split(SLASH, s)| && Split(SLASH, s)[k] == DOTDOT
  {
    var r := Split(SLASH, s[1..]);
    if s[..4] == BAD_PATH {
      assert s[0] == SLASH && s[1..] == DOTDOT + [SLASH] + s[4..] by {
        assert s == s[..4] + s[4..];
      }
      SplitConcat(SLASH, DOTDOT, s[4..]);
      SplitClean(SLASH, DOTDOT);
      assert Split(SLASH, s)[1] == DOTDOT;
    } else {
      BadPathHasDotDot(s[1..]);
      var k :| 1 <= k < |r| && r[k] == DOTDOT;
      assert Split(SLASH, s)[if s[0] == SLASH then k + 1 else k] == DOTDOT;
    }
  }

  lemma NoDotDotIsNotBad(s: bytes)
    requires forall k :: 1 <= k < |Split(SLASH, s)| ==> Split(SLASH, s)[k] != DOTDOT
    ensures !HasBadPath(s)
  {
    hide Split, HasBadPath;
    if HasBadPath(s) { BadPathHasDotDot(s); }
  }

  /** The name of a record is accepted and leads to its place. */
  lemma NameIsAccepted(dirname: bytes, lead: bytes, r: Path, node: Node, maxSize: int)
    requires IsLead(lead) && Transferable(dirname, lead, r, node, maxSize)
    ensures ValidName(EntryName(lead, r)) && EntryName(lead, r) != []
    ensures NewPath(dirname, EntryName(lead, r)) == dirname + [SLASH] + Join(r)
  {
    hide Join, Utf8.WellFormed, CStr;
    var s := Join(r);
    JoinIsNulFree(r);
    LeadIsValid(lead, s);
    LeadIsRemoved(dirname, lead, s);
  }

  lemma LeadIsValid(lead: bytes, s: bytes)
    requires IsLead(lead) && s != [] && NUL !in s && Utf8.WellFormed(s) && forall c :: c in s ==> c >= 32
    ensures ValidName(lead + s)
  {
    hide CStr;
    assert Utf8.WellFormed(lead) by { if lead == [SLASH] { assert lead[1..] == []; } }
    Utf8.WellFormedConcat(lead, s);
    assert CStr(lead + s) == lead + s;
  }

  lemma LeadIsRemoved(dirname: bytes, lead: bytes, s: bytes)
    requires IsLead(lead) && s != [] && NUL !in s && s[0] != SLASH && s[|s| - 1] != SLASH
    ensures NewPath(dirname, lead + s) == dirname + [SLASH] + s
  {
    hide CStr;
    var name := lead + s;
    assert name[|name| - 1] == s[|s| - 1];
    assert CStr(name) == name;
    if lead == [] { assert name == s; } else { assert name[1..] == s; }
  }

  lemma PathOfRecord(dirname: bytes, r: Path)
    requires |dirname| > 2 && dirname[..2] == [DOT, SLASH] && LegalName(dirname[2..]) && r != [] && LegalPath(r)
    ensures var raw := dirname + [SLASH] + Join(r);
            && raw[0] == DOT && !HasBadPath(raw) && LastSlash(raw) >= 0
            && Split(SLASH, raw) == [[DOT], dirname[2..]] + r
            && Split(SLASH, raw[..LastSlash(raw)]) == [[DOT], dirname[2..]] + Parent(r)
  {
    hide Split, Join, HasBadPath;
    var raw := dirname + [SLASH] + Join(r);
    SplitNewPath(dirname, Join(r));
    SplitOfJoin(r);
    assert raw[0] == dirname[0] == dirname[..2][0];
    forall k | 1 <= k < |Split(SLASH, raw)| ensures Split(SLASH, raw)[k] != DOTDOT {
      if k >= 2 { assert LegalName(r[k - 2]); }
    }
    NoDotDotIsNotBad(raw);
    SplitParent(raw);
    var cs := Split(SLASH, raw);
    assert cs[..|cs| - 1] == [[DOT], dirname[2..]] + Parent(r);
  }

  lemma ParentText(dirname: bytes, r: Path)
    requires |dirname| > 2 && dirname[..2] == [DOT, SLASH] && LegalName(dirname[2..]) && r != [] && LegalPath(r)
    ensures var raw := dirname + [SLASH] + Join(r);
            LastSlash(raw) == |if Parent(r) == [] then dirname else dirname + [SLASH] + Join(Parent(r))|
            && raw[..LastSlash(raw)][0] == DOT
  {
    var raw, n := dirname + [SLASH] + Join(r), r[|r| - 1];
    assert LegalName(n) && Parent(r) + [n] == r;
    var front := if Parent(r) == [] then dirname else dirname + [SLASH] + Join(Parent(r));
    assert raw == front + [SLASH] + n;
    assert front[0] == dirname[0] == dirname[..2][0];
    hide Join;
    LastSlashBefore(front, n);
  }

  lemma LastSlashBefore(front: bytes, n: bytes)
    requires front != [] && SLASH !in n
    ensures LastSlash(front + [SLASH] + n) == |front| && (front + [SLASH] + n)[..|front|] == front
  {
    var raw := front + [SLASH] + n;
    assert raw[|front| + 1..] == n;
    LastSlashIs(raw, |front|);
  }

  /** mkdirs on a path into the temp directory is the making of the rest below it. */
  lemma MkdirsInTemp(nodes: Nodes, cwd: Path, dirname: bytes, raw: bytes, cs: Path)
    requires WellFormed(nodes) && TempDir(nodes, cwd, dirname) && LegalPath(cs)
    requires raw != [] && raw[0] == DOT && |raw| <= MAX_FILE_NAME_LEN
    requires Split(SLASH, raw) == [[DOT], dirname[2..]] + cs
    requires forall k :: 0 <= k <= |cs| ==>
               (TempPath(cwd, dirname) + cs[..k] in nodes ==> IsDir(nodes, TempPath(cwd, dirname) + cs[..k]))
    ensures Mkdirs(nodes, cwd, raw) == EnsureDirs(nodes, TempPath(cwd, dirname), cs)
    ensures Mkdirs(nodes, cwd, raw).Some?
  {
    hide Split;
    var tmp := TempPath(cwd, dirname);
    EnterTempDir(nodes, cwd, dirname, cs);
    EnsureLegal(nodes, tmp, cs);
    if Exists(nodes, cwd, raw) {
      Walk.LegalLeads(nodes, tmp, cs);
      assert cs[..|cs|] == cs;
      ExistingIsEnsured(nodes, tmp, cs);
    }
  }

  lemma LocateInTempDir(nodes: Nodes, cwd: Path, dirname: bytes, raw: bytes, r: Path)
    requires TempDir(nodes, cwd, dirname) && LegalPath(r) && raw != [] && raw[0] == DOT
    requires Split(SLASH, raw) == [[DOT], dirname[2..]] + r
    requires forall k :: 0 <= k < |r| ==> IsDir(nodes, TempPath(cwd, dirname) + r[..k])
    ensures Locate(nodes, cwd, raw) == Some(TempPath(cwd, dirname) + r)
  {
    EnterTempDir(nodes, cwd, dirname, r);
    ResolveLegal(nodes, TempPath(cwd, dirname), r);
  }

  /** The file system after one record: the directories above the entry, and the entry. */
  ghost predicate Placed(nodes: Nodes, more: Nodes, tmp: Path, r: Path, node: Node) {
    && (forall q :: q in more <==> q in nodes || OnTheWay(tmp, q, tmp + r))
    && (forall q :: q in more ==> more[q] == if q in nodes then nodes[q] else if q == tmp + r then node else Dir)
  }

  /** The way to an entry is the way to its parent and the entry. */
  lemma WayToParent(tmp: Path, r: Path, q: Path)
    requires r != []
    ensures OnTheWay(tmp, q, tmp + r) <==> OnTheWay(tmp, q, tmp + Parent(r)) || q == tmp + r
  {
    var end := tmp + r;
    assert Parent(end) == tmp + Parent(r);
    if tmp < q && q <= end && q != end {
      assert q == end[..|q|] && |q| < |end|;
      assert Parent(end)[..|q|] == q;
    }
    if q <= Parent(end) { assert Parent(end) <= end; }
  }

  lemma ExtendThenPlace(nodes: Nodes, mid: Nodes, tmp: Path, r: Path, node: Node)
    requires r != [] && tmp + r !in nodes && Extends(nodes, mid, tmp, tmp + Parent(r))
    ensures tmp + r !in mid
    ensures Placed(nodes, mid[tmp + r := node], tmp, r, node)
  {
    assert !OnTheWay(tmp, tmp + r, tmp + Parent(r)) by {
      assert |tmp + r| > |tmp + Parent(r)|;
    }
    forall q ensures OnTheWay(tmp, q, tmp + r) <==> OnTheWay(tmp, q, tmp + Parent(r)) || q == tmp + r {
      WayToParent(tmp, r, q);
    }
    hide OnTheWay;
  }

  /** All prefixes but the last are directories once the parents were made. */
  lemma ParentsAreDirs(nodes: Nodes, mid: Nodes, tmp: Path, r: Path)
    requires r != [] && Room(nodes, tmp, r) && IsDir(nodes, tmp) && Extends(nodes, mid, tmp, tmp + Parent(r))
    ensures forall k :: 0 <= k < |r| ==> IsDir(mid, tmp + r[..k])
  {
    forall k | 0 <= k < |r| ensures IsDir(mid, tmp + r[..k]) {
      if k == 0 {
        assert tmp + r[..0] == tmp;
      } else {
        assert r[..k] <= Parent(r);
        assert OnTheWay(tmp, tmp + r[..k], tmp + Parent(r));
      }
    }
  }

  /** The parents of a record are made, and its path then leads to a free place. */
  lemma ParentsOfRecord(nodes: Nodes, cwd: Path, dirname: bytes, lead: bytes, r: Path, node: Node, maxSize: int)
    returns (mid: Nodes)
    requires WellFormed(nodes) && TempDir(nodes, cwd, dirname) && |dirname| <= 16
    requires IsLead(lead) && Transferable(dirname, lead, r, node, maxSize) && Room(nodes, TempPath(cwd, dirname), r)
    ensures var raw := dirname + [SLASH] + Join(r);
            LastSlash(raw) >= 0 && Mkdirs(nodes, cwd, raw[..LastSlash(raw)]) == Some(mid)
    ensures Locate(mid, cwd, dirname + [SLASH] + Join(r)) == Some(TempPath(cwd, dirname) + r)
    ensures Extends(nodes, mid, TempPath(cwd, dirname), TempPath(cwd, dirname) + Parent(r))
    ensures WellFormed(mid) && TempDir(mid, cwd, dirname)
    ensures forall k :: 0 <= k < |r| ==> IsDir(mid, TempPath(cwd, dirname) + r[..k])
  {
    hide Split, Join, Extends, HasBadPath, WellFormed, Locate;
    var raw, tmp := dirname + [SLASH] + Join(r), TempPath(cwd, dirname);
    PathOfRecord(dirname, r);
    ParentText(dirname, r);
    var parent := raw[..LastSlash(raw)];
    assert LegalPath(Parent(r));
    forall k | 0 <= k <= |Parent(r)| ensures tmp + Parent(r)[..k] in nodes ==> IsDir(nodes, tmp + Parent(r)[..k]) {
      assert Parent(r)[..k] == r[..k];
    }
    JoinOfParent(r);
    MkdirsInTemp(nodes, cwd, dirname, parent, Parent(r));
    EnsureLegal(nodes, tmp, Parent(r));
    mid := EnsureDirs(nodes, tmp, Parent(r)).value;
    ExtendsKeeps(nodes, mid, cwd, tmp, Parent(r));
    ParentsAreDirs(nodes, mid, tmp, r);
    assert TempDir(mid, cwd, dirname);
    LocateInTempDir(mid, cwd, dirname, raw, r);
  }

  lemma JoinOfParent(r: Path)
    requires r != []
    ensures |Join(Parent(r))| <= |Join(r)|
  {
  }

  lemma ExtendsKeeps(nodes: Nodes, mid: Nodes, cwd: Path, tmp: Path, cs: Path)
    requires WellFormed(nodes) && LegalPath(cs) && IsDir(nodes, tmp)
    requires IsDir(nodes, cwd) && Extends(nodes, mid, tmp, tmp + cs)
    requires forall k :: 0 <= k <= |cs| ==> (tmp + cs[..k] in nodes ==> IsDir(nodes, tmp + cs[..k]))
    ensures WellFormed(mid) && IsDir(mid, tmp) && IsDir(mid, cwd)
  {
    assert Attached(nodes, tmp);
    forall q | q in mid ensures Attached(mid, q) {
      if q in nodes {
        assert Attached(nodes, q);
      } else {
        WayIsAttached(nodes, mid, tmp, cs, q);
      }
    }
  }

  lemma WayIsAttached(nodes: Nodes, mid: Nodes, tmp: Path, cs: Path, q: Path)
    requires LegalPath(tmp) && LegalPath(cs) && IsDir(nodes, tmp) && Extends(nodes, mid, tmp, tmp + cs)
    requires OnTheWay(tmp, q, tmp + cs) && q !in nodes
    requires forall k :: 0 <= k <= |cs| ==> (tmp + cs[..k] in nodes ==> IsDir(nodes, tmp + cs[..k]))
    ensures Attached(mid, q)
  {
    var end := tmp + cs;
    assert q == end[..|q|] && LegalPath(end);
    var k := |q| - |tmp| - 1;
    assert Parent(q) == tmp + cs[..k];
    if |q| > |tmp| + 1 {
      assert OnTheWay(tmp, Parent(q), end) by {
        assert Parent(q) == end[..|q| - 1] && tmp == end[..|tmp|] && tmp == Parent(q)[..|tmp|];
      }
    } else {
      assert Parent(q) == tmp;
    }
  }

  lemma BodyOfFile(mid: Nodes, cwd: Path, version: nat, maxSize: int, raw: bytes, p: Path, content: bytes, rest: bytes)
    requires Locate(mid, cwd, raw) == Some(p) && p !in mid && |content| <= maxSize && IsInt64(|content|)
    ensures SaveBody(mid, cwd, version, maxSize, raw, EncodeSize(|content|) + content + rest)
            == Got(mid[p := File(content)], rest)
  {
    hide EncodeSize, DecodeSize, Locate;
    var stream := EncodeSize(|content|) + content + rest;
    SizeRoundTrip(|content|);
    assert stream[..8] == EncodeSize(|content|);
    assert stream[8..] == content + rest;
    assert (content + rest)[..|content|] == content && (content + rest)[|content|..] == rest;
  }

  lemma BodyOfDirectory(mid: Nodes, more: Nodes, cwd: Path, version: nat, maxSize: int, raw: bytes, rest: bytes)
    requires version >= 3 && maxSize >= -1 && Mkdirs(mid, cwd, raw) == Some(more)
    ensures SaveBody(mid, cwd, version, maxSize, raw, EncodeSize(-1) + rest) == Got(more, rest)
  {
    hide EncodeSize, DecodeSize, Mkdirs;
    var stream := EncodeSize(-1) + rest;
    SizeRoundTrip(-1);
    assert stream[..8] == EncodeSize(-1) && stream[8..] == rest;
  }

  /** With the parents in place, mkdirs adds the directory itself and nothing else. */
  lemma LastDirectory(mid: Nodes, more: Nodes, tmp: Path, r: Path)
    requires r != [] && IsDir(mid, tmp) && Extends(mid, more, tmp, tmp + r)
    requires forall k :: 0 <= k < |r| ==> IsDir(mid, tmp + r[..k])
    ensures more == mid[tmp + r := Dir] || tmp + r in mid
  {
    forall q ensures OnTheWay(tmp, q, tmp + r) ==> q in mid || q == tmp + r {
      if OnTheWay(tmp, q, tmp + r) && q != tmp + r {
        var k := |q| - |tmp|;
        assert q == (tmp + r)[..|q|] == tmp + r[..k];
        assert IsDir(mid, tmp + r[..k]);
      }
    }
    assert OnTheWay(tmp, tmp + r, tmp + r);
  }

  lemma DirectoryIsMade(mid: Nodes, cwd: Path, dirname: bytes, r: Path)
    requires WellFormed(mid) && TempDir(mid, cwd, dirname) && r != []
    requires LegalPath(r) && TempPath(cwd, dirname) + r !in mid
    requires forall k :: 0 <= k < |r| ==> IsDir(mid, TempPath(cwd, dirname) + r[..k])
    requires |dirname| + 1 + |Join(r)| <= MAX_FILE_NAME_LEN
    ensures Mkdirs(mid, cwd, dirname + [SLASH] + Join(r)) == Some(mid[TempPath(cwd, dirname) + r := Dir])
  {
    hide Split, Join, Extends, HasBadPath, WellFormed;
    var raw, tmp := dirname + [SLASH] + Join(r), TempPath(cwd, dirname);
    PathOfRecord(dirname, r);
    assert r[..|r|] == r;
    MkdirsInTemp(mid, cwd, dirname, raw, r);
    EnsureLegal(mid, tmp, r);
    LastDirectory(mid, EnsureDirs(mid, tmp, r).value, tmp, r);
  }

  /** Receiving one record puts the entry in its place and leaves the rest of the stream. */
  lemma OneRecord(nodes: Nodes, cwd: Path, version: nat, maxSize: int, dirname: bytes, lead: bytes, r: Path, node: Node,
                  rest: bytes)
    returns (more: Nodes)
    requires WellFormed(nodes) && TempDir(nodes, cwd, dirname) && |dirname| <= 16
    requires version >= 3 && -1 <= maxSize && IsInt64(maxSize)
    requires IsLead(lead) && Transferable(dirname, lead, r, node, maxSize) && Room(nodes, TempPath(cwd, dirname), r)
    ensures SaveFile(nodes, cwd, version, maxSize, dirname, Record(lead, r, node) + rest) == Got(more, rest)
    ensures Placed(nodes, more, TempPath(cwd, dirname), r, node) && WellFormed(more) && TempDir(more, cwd, dirname)
  {
    hide EncodeSize, Join, Split, SaveBody, ValidName, NewPath, HasBadPath, Mkdirs, Locate, Placed, Extends, WellFormed,
         Room;
    var raw, tmp, name := dirname + [SLASH] + Join(r), TempPath(cwd, dirname), EntryName(lead, r);
    var mid := ParentsOfRecord(nodes, cwd, dirname, lead, r, node, maxSize);
    NameIsAccepted(dirname, lead, r, node, maxSize);
    PathOfRecord(dirname, r);
    RoomIsFree(nodes, tmp, r);
    ExtendThenPlace(nodes, mid, tmp, r, node);
    more := mid[tmp + r := node];
    PlaceKeepsWellFormed(mid, tmp, r, node, cwd);
    BodyOfRecord(mid, cwd, version, maxSize, dirname, lead, r, node, rest);
    assert SaveNamed(nodes, cwd, version, maxSize, dirname, name, Tail(node) + rest) == Got(more, rest);
    RecordIsParsed(nodes, cwd, version, maxSize, dirname, lead, r, node, rest);
  }

  lemma RoomIsFree(nodes: Nodes, tmp: Path, r: Path)
    requires Room(nodes, tmp, r)
    ensures tmp + r !in nodes
  {
  }

  lemma BodyOfRecord(mid: Nodes, cwd: Path, version: nat, maxSize: int, dirname: bytes, lead: bytes, r: Path,
                     node: Node, rest: bytes)
    requires WellFormed(mid) && TempDir(mid, cwd, dirname) && version >= 3 && -1 <= maxSize && IsInt64(maxSize)
    requires Transferable(dirname, lead, r, node, maxSize) && TempPath(cwd, dirname) + r !in mid
    requires Locate(mid, cwd, dirname + [SLASH] + Join(r)) == Some(TempPath(cwd, dirname) + r)
    requires forall k :: 0 <= k < |r| ==> IsDir(mid, TempPath(cwd, dirname) + r[..k])
    ensures SaveBody(mid, cwd, version, maxSize, dirname + [SLASH] + Join(r), Tail(node) + rest)
            == Got(mid[TempPath(cwd, dirname) + r := node], rest)
  {
    hide EncodeSize, Join, SaveBody, Locate, Mkdirs, WellFormed;
    var raw := dirname + [SLASH] + Join(r);
    match node
    case File(content) =>
      BodyOfFile(mid, cwd, version, maxSize, raw, TempPath(cwd, dirname) + r, content, rest);
    case Dir =>
      DirectoryIsMade(mid, cwd, dirname, r);
      BodyOfDirectory(mid, mid[TempPath(cwd, dirname) + r := Dir], cwd, version, maxSize, raw, rest);
  }

  lemma PlaceKeepsWellFormed(mid: Nodes, tmp: Path, r: Path, node: Node, cwd: Path)
    requires WellFormed(mid) && IsDir(mid, tmp) && IsDir(mid, cwd) && r != [] && LegalPath(r) && tmp + r !in mid
    requires forall k :: 0 <= k < |r| ==> IsDir(mid, tmp + r[..k])
    ensures WellFormed(mid[tmp + r := node]) && IsDir(mid[tmp + r := node], cwd) && IsDir(mid[tmp + r := node], tmp)
  {
    assert Attached(mid, tmp);
    assert Parent(tmp + r) == tmp + r[..|r| - 1];
    assert LegalPath(tmp + r);
    AddKeepsWellFormed(mid, tmp + r, node);
  }

  lemma RecordIsParsed(nodes: Nodes, cwd: Path, version: nat, maxSize: int, dirname: bytes, lead: bytes, r: Path,
                       node: Node, rest: bytes)
    requires EntryName(lead, r) != [] && |EntryName(lead, r)| <= MAX_FILE_NAME_LEN
    ensures SaveFile(nodes, cwd, version, maxSize, dirname, Record(lead, r, node) + rest)
            == SaveNamed(nodes, cwd, version, maxSize, dirname, EntryName(lead, r), Tail(node) + rest)
  {
    hide EncodeSize, DecodeSize, SaveNamed, Tail, Record, EntryName;
    var name := EntryName(lead, r);
    RecordParts(lead, r, node);
    var stream := Record(lead, r, node) + rest;
    SizeRoundTrip(|name|);
    assert stream == EncodeSize(|name|) + (name + (Tail(node) + rest));
    assert stream[..8] == EncodeSize(|name|);
    assert stream[8..8 + |name|] == name;
    assert stream[8 + |name|..] == Tail(node) + rest;
  }

  // ---------------------------------------------------------------- a batch of records

  /** A tree of entries, by their paths below a common directory that is not an entry itself. */
  predicate IsTree(t: Nodes) {
    forall r :: r in t ==> r != [] && LegalPath(r) && forall k :: 0 < k < |r| ==> IsDir(t, r[..k])
  }

  predicate IsLeaf(t: Nodes, r: Path) {
    r in t && (t[r].Dir? ==> forall s :: s in t ==> !(r < s))
  }

  /** The leaves of the tree, each once. */
  ghost predicate IsLeafList(t: Nodes, leaves: seq<Path>) {
    NoDuplicates(leaves) && forall r {:trigger r in leaves} :: r in leaves <==> IsLeaf(t, r)
  }

  /** The records of the leaves, one after another. */
  function Records(lead: bytes, t: Nodes, leaves: seq<Path>): bytes
    requires Walk.AllIn(t, leaves)
  {
    if leaves == [] then [] else Record(lead, leaves[0], t[leaves[0]]) + Records(lead, t, leaves[1..])
  }

  /** `q` is on the way to one of the first `i` leaves. */
  predicate Built(tmp: Path, leaves: seq<Path>, i: nat, q: Path)
    requires i <= |leaves|
  {
    exists j :: 0 <= j < i && OnTheWay(tmp, q, tmp + leaves[j])
  }

  /** Where `q` is below `tmp`. */
  function Below(tmp: Path, q: Path): Path
    requires tmp <= q
  {
    q[|tmp|..]
  }

  /** The file system `base` with what the first `i` leaves need below `tmp`. */
  ghost predicate Building(base: Nodes, nodes: Nodes, tmp: Path, t: Nodes, leaves: seq<Path>, i: nat)
    requires i <= |leaves|
  {
    && (forall q :: q in nodes <==> q in base || Built(tmp, leaves, i, q))
    && (forall q :: q in base ==> q in nodes && nodes[q] == base[q])
    && (forall q :: q in nodes && q !in base ==> tmp < q && Below(tmp, q) in t && nodes[q] == t[Below(tmp, q)])
  }

  /** Nothing is in the temp directory yet. */
  predicate IsFresh(base: Nodes, tmp: Path) {
    forall q :: q in base ==> !(tmp < q)
  }

  lemma WayIsInTree(t: Nodes, tmp: Path, r: Path, q: Path)
    requires IsTree(t) && r in t && OnTheWay(tmp, q, tmp + r)
    ensures tmp < q && Below(tmp, q) in t && Below(tmp, q) <= r
    ensures if q == tmp + r then Below(tmp, q) == r else t[Below(tmp, q)].Dir?
  {
    var k := |q| - |tmp|;
    assert q == (tmp + r)[..|q|];
    assert Below(tmp, q) == r[..k];
    if k == |r| { assert r[..k] == r; assert q == tmp + r; } else { assert IsDir(t, r[..k]); }
  }

  /** Before leaf `i` is received there is room for it. */
  lemma RoomForLeaf(base: Nodes, nodes: Nodes, tmp: Path, t: Nodes, leaves: seq<Path>, i: nat)
    requires IsTree(t) && IsLeafList(t, leaves) && IsFresh(base, tmp) && i < |leaves| && IsDir(base, tmp)
    requires Building(base, nodes, tmp, t, leaves, i)
    ensures Room(nodes, tmp, leaves[i])
  {
    var r := leaves[i];
    assert r in leaves && IsLeaf(t, r);
    forall k | 0 <= k < |r| ensures tmp + r[..k] in nodes ==> IsDir(nodes, tmp + r[..k]) {
      if k == 0 {
        assert tmp + r[..0] == tmp;
      } else {
        assert IsDir(t, r[..k]) && Below(tmp, tmp + r[..k]) == r[..k];
      }
    }
    LeafIsNotBuilt(tmp, t, leaves, i);
    assert tmp < tmp + r;
  }

  lemma LeafIsNotBuilt(tmp: Path, t: Nodes, leaves: seq<Path>, i: nat)
    requires IsTree(t) && IsLeafList(t, leaves) && i < |leaves|
    ensures !Built(tmp, leaves, i, tmp + leaves[i])
  {
    var r := leaves[i];
    assert r in leaves && IsLeaf(t, r);
    forall j | 0 <= j < i ensures !OnTheWay(tmp, tmp + r, tmp + leaves[j]) {
      assert leaves[j] in leaves && IsLeaf(t, leaves[j]) && leaves[j] != r;
      NoWayThroughLeaf(t, tmp, r, leaves[j]);
    }
  }

  lemma SameFront(tmp: Path, r: Path, s: Path)
    ensures tmp + r <= tmp + s ==> r <= s
  {
    if tmp + r <= tmp + s {
      assert forall k :: 0 <= k < |r| ==> r[k] == (tmp + r)[|tmp| + k] && s[k] == (tmp + s)[|tmp| + k];
    }
  }

  lemma NoWayThroughLeaf(t: Nodes, tmp: Path, r: Path, other: Path)
    requires IsTree(t) && IsLeaf(t, r) && other in t && other != r
    ensures !OnTheWay(tmp, tmp + r, tmp + other)
  {
    SameFront(tmp, r, other);
    PrefixIsSlice(r, other);
    if |r| < |other| { assert IsDir(t, other[..|r|]); }
  }

  lemma LeafPlaced(base: Nodes, nodes: Nodes, more: Nodes, tmp: Path, t: Nodes, leaves: seq<Path>, i: nat)
    requires IsTree(t) && i < |leaves| && leaves[i] in t && IsFresh(base, tmp)
    requires Building(base, nodes, tmp, t, leaves, i) && Placed(nodes, more, tmp, leaves[i], t[leaves[i]])
    ensures Building(base, more, tmp, t, leaves, i + 1)
  {
    hide OnTheWay, Built;
    var r := leaves[i];
    forall q ensures Built(tmp, leaves, i + 1, q) <==> Built(tmp, leaves, i, q) || OnTheWay(tmp, q, tmp + r) {
      BuiltNext(tmp, leaves, i, q);
    }
    forall q | OnTheWay(tmp, q, tmp + r)
      ensures tmp < q && Below(tmp, q) in t && (if q == tmp + r then Below(tmp, q) == r else t[Below(tmp, q)].Dir?)
    {
      WayIsInTree(t, tmp, r, q);
    }
  }

  lemma BuiltNext(tmp: Path, leaves: seq<Path>, i: nat, q: Path)
    requires i < |leaves|
    ensures Built(tmp, leaves, i + 1, q) <==> Built(tmp, leaves, i, q) || OnTheWay(tmp, q, tmp + leaves[i])
  {
    hide OnTheWay;
  }

  /** Receiving the records from leaf `i` on. */
  lemma {:induction false} BatchBuilds(base: Nodes, nodes: Nodes, cwd: Path, version: nat, maxSize: int, dirname: bytes,
                                       lead: bytes, t: Nodes, leaves: seq<Path>, i: nat, rest: bytes)
    returns (final: Nodes)
    requires WellFormed(nodes) && TempDir(nodes, cwd, dirname) && |dirname| <= 16
    requires version >= 3 && -1 <= maxSize && IsInt64(maxSize)
    requires IsTree(t) && IsLeafList(t, leaves) && Walk.AllIn(t, leaves) && IsLead(lead) && i <= |leaves|
    requires forall r :: r in t ==> Transferable(dirname, lead, r, t[r], maxSize)
    requires IsDir(base, TempPath(cwd, dirname)) && IsFresh(base, TempPath(cwd, dirname))
    requires Building(base, nodes, TempPath(cwd, dirname), t, leaves, i)
    ensures SaveAll(nodes, cwd, version, maxSize, dirname, |leaves| - i, Records(lead, t, leaves[i..]) + rest)
            == Got(final, rest)
    ensures Building(base, final, TempPath(cwd, dirname), t, leaves, |leaves|)
    decreases |leaves| - i
  {
    hide Transferable, Building, IsTree, IsLeafList, Placed, Room, SaveFile, Record, WellFormed;
    if i == |leaves| {
      assert leaves[i..] == [];
      assert [] + rest == rest;
      final := nodes;
    } else {
      var r, tail := leaves[i], leaves[i + 1..];
      assert leaves[i..][0] == r && leaves[i..][1..] == tail;
      RoomForLeaf(base, nodes, TempPath(cwd, dirname), t, leaves, i);
      var stream := Records(lead, t, tail) + rest;
      var more := OneRecord(nodes, cwd, version, maxSize, dirname, lead, r, t[r], stream);
      assert Records(lead, t, leaves[i..]) + rest == Record(lead, r, t[r]) + stream;
      LeafPlaced(base, nodes, more, TempPath(cwd, dirname), t, leaves, i);
      final := BatchBuilds(base, more, cwd, version, maxSize, dirname, lead, t, leaves, i + 1, rest);
    }
  }

  /** Every entry of a tree of bounded depth is on the way to a leaf. */
  lemma {:induction false} LeafBelow(t: Nodes, r: Path, depth: nat) returns (leaf: Path)
    requires r in t && forall s :: s in t ==> |s| <= depth
    ensures IsLeaf(t, leaf) && r <= leaf
    decreases depth - |r|
  {
    leaf := r;
    if t[r].Dir? && exists s :: s in t && r < s {
      var s :| s in t && r < s;
      leaf := LeafBelow(t, s, depth);
    }
  }

  /** When all leaves were built, the whole tree is there and nothing else. */
  lemma BuiltIsTree(t: Nodes, tmp: Path, leaves: seq<Path>, depth: nat, q: Path)
    requires IsTree(t) && IsLeafList(t, leaves) && forall s :: s in t ==> |s| <= depth
    ensures Built(tmp, leaves, |leaves|, q) <==> tmp < q && Below(tmp, q) in t
  {
    if Built(tmp, leaves, |leaves|, q) {
      var j :| 0 <= j < |leaves| && OnTheWay(tmp, q, tmp + leaves[j]);
      assert leaves[j] in leaves && IsLeaf(t, leaves[j]);
      WayIsInTree(t, tmp, leaves[j], q);
    }
    if tmp < q && Below(tmp, q) in t {
      var leaf := LeafBelow(t, Below(tmp, q), depth);
      assert leaf in leaves;
      var j :| 0 <= j < |leaves| && leaves[j] == leaf;
      assert q == tmp + Below(tmp, q);
      assert OnTheWay(tmp, q, tmp + leaves[j]);
    }
  }

  /** The temp directory of `nodes` holds exactly the tree, and the rest of the file system is `base`. */
  ghost predicate HoldsTree(base: Nodes, nodes: Nodes, tmp: Path, t: Nodes) {
    && (forall q :: q in nodes <==> q in base || (tmp < q && Below(tmp, q) in t))
    && (forall q :: q in base ==> q in nodes && nodes[q] == base[q])
    && (forall q :: tmp < q && q in nodes ==> Below(tmp, q) in t && nodes[q] == t[Below(tmp, q)])
  }

  lemma BuildingDone(base: Nodes, nodes: Nodes, tmp: Path, t: Nodes, leaves: seq<Path>, depth: nat)
    requires IsTree(t) && IsLeafList(t, leaves) && IsFresh(base, tmp) && forall s :: s in t ==> |s| <= depth
    requires Building(base, nodes, tmp, t, leaves, |leaves|)
    ensures HoldsTree(base, nodes, tmp, t)
  {
    forall q ensures Built(tmp, leaves, |leaves|, q) <==> tmp < q && Below(tmp, q) in t {
      BuiltIsTree(t, tmp, leaves, depth, q);
    }
    hide Built, IsTree, IsLeafList;
  }

  /**
    * The records of a tree, in whatever order its leaves were found, rebuild exactly that tree in a fresh temp
    * directory, and the receiver reads exactly those bytes.
    */
  lemma ReceivingRebuilds(base: Nodes, cwd: Path, version: nat, maxSize: int, dirname: bytes, lead: bytes, t: Nodes,
                          leaves: seq<Path>, depth: nat, rest: bytes)
    returns (final: Nodes)
    requires WellFormed(base) && TempDir(base, cwd, dirname) && IsFresh(base, TempPath(cwd, dirname))
    requires |dirname| <= 16 && version >= 3 && -1 <= maxSize && IsInt64(maxSize) && IsLead(lead)
    requires IsTree(t) && IsLeafList(t, leaves) && Walk.AllIn(t, leaves) && forall s :: s in t ==> |s| <= depth
    requires forall r :: r in t ==> Transferable(dirname, lead, r, t[r], maxSize)
    ensures SaveAll(base, cwd, version, maxSize, dirname, |leaves|, Records(lead, t, leaves) + rest) == Got(final, rest)
    ensures HoldsTree(base, final, TempPath(cwd, dirname), t)
  {
    hide SaveAll, Transferable, IsTree, IsLeafList, WellFormed, HoldsTree;
    assert leaves[0..] == leaves;
    assert Building(base, base, TempPath(cwd, dirname), t, leaves, 0);
    final := BatchBuilds(base, base, cwd, version, maxSize, dirname, lead, t, leaves, 0, rest);
    BuildingDone(base, final, TempPath(cwd, dirname), t, leaves, depth);
  }

  // ---------------------------------------------------------------- from the walk to the records

  /** The copied entries are in one directory, `base`. */
  predicate CopiedFrom(base: Path, roots: seq<Path>) {
    Walk.CopiedPaths(roots) && forall i :: 0 <= i < |roots| ==> Parent(roots[i]) == base
  }

  predicate UnderRoots(roots: seq<Path>, q: Path) {
    exists i :: 0 <= i < |roots| && roots[i] <= q
  }

  lemma BelowBase(base: Path, roots: seq<Path>, q: Path)
    requires CopiedFrom(base, roots) && UnderRoots(roots, q)
    ensures base < q && base + Below(base, q) == q
  {
    var i :| 0 <= i < |roots| && roots[i] <= q;
    assert Parent(roots[i]) == base;
    assert base < roots[i];
  }

  /** The copied entries with their paths below the common directory. */
  ghost function TreeOf(nodes: Nodes, base: Path, roots: seq<Path>): Nodes
    requires CopiedFrom(base, roots)
  {
    BelowBaseForAll(base, roots);
    map q | q in nodes && UnderRoots(roots, q) :: Below(base, q) := nodes[q]
  }

  lemma BelowBaseForAll(base: Path, roots: seq<Path>)
    requires CopiedFrom(base, roots)
    ensures forall q :: UnderRoots(roots, q) ==> base < q && base + Below(base, q) == q
  {
    forall q | UnderRoots(roots, q) ensures base < q && base + Below(base, q) == q {
      BelowBase(base, roots, q);
    }
  }

  lemma InTree(nodes: Nodes, base: Path, roots: seq<Path>, r: Path)
    requires CopiedFrom(base, roots)
    ensures r in TreeOf(nodes, base, roots) <==> base + r in nodes && UnderRoots(roots, base + r)
    ensures r in TreeOf(nodes, base, roots) ==> r != [] && TreeOf(nodes, base, roots)[r] == nodes[base + r]
  {
    BelowBaseForAll(base, roots);
    if UnderRoots(roots, base + r) {
      BelowBase(base, roots, base + r);
      assert Below(base, base + r) == r;
    }
  }

  lemma TreeOfIsTree(nodes: Nodes, base: Path, roots: seq<Path>)
    requires WellFormed(nodes) && CopiedFrom(base, roots)
    ensures IsTree(TreeOf(nodes, base, roots))
  {
    hide TreeOf, UnderRoots;
    forall r | r in TreeOf(nodes, base, roots)
      ensures r != [] && LegalPath(r) && forall k :: 0 < k < |r| ==> IsDir(TreeOf(nodes, base, roots), r[..k])
    {
      InTree(nodes, base, roots, r);
      LegalBelow(nodes, base, r);
      forall k | 0 < k < |r| ensures IsDir(TreeOf(nodes, base, roots), r[..k]) {
        PrefixUnderRoots(nodes, base, roots, r, k);
      }
    }
  }

  lemma LegalBelow(nodes: Nodes, base: Path, r: Path)
    requires WellFormed(nodes) && base + r in nodes
    ensures LegalPath(r)
  {
    assert Attached(nodes, base + r);
    assert forall j :: 0 <= j < |r| ==> r[j] == (base + r)[|base| + j];
  }

  lemma PrefixUnderRoots(nodes: Nodes, base: Path, roots: seq<Path>, r: Path, k: nat)
    requires WellFormed(nodes) && CopiedFrom(base, roots) && base + r in nodes
    requires UnderRoots(roots, base + r) && 0 < k < |r|
    ensures IsDir(TreeOf(nodes, base, roots), r[..k])
  {
    hide TreeOf, WellFormed;
    var q, s := base + r, base + r[..k];
    assert q[..|base| + k] == s;
    PrefixIsDir(nodes, q, |base| + k);
    var i :| 0 <= i < |roots| && roots[i] <= q;
    RootLength(base, roots, i);
    PrefixIsSlice(roots[i], q);
    assert s[..|roots[i]|] == roots[i];
    assert UnderRoots(roots, s);
    InTree(nodes, base, roots, r[..k]);
  }

  lemma RootLength(base: Path, roots: seq<Path>, i: nat)
    requires CopiedFrom(base, roots) && i < |roots|
    ensures |roots[i]| == |base| + 1
  {
    assert Parent(roots[i]) == base;
  }

  function Relatives(base: Path, qs: seq<Path>): (rs: seq<Path>)
    requires AllBelow(base, qs)
    ensures |rs| == |qs| && forall i :: 0 <= i < |qs| ==> rs[i] == Below(base, qs[i])
  {
    seq(|qs|, i requires 0 <= i < |qs| => Below(base, qs[i]))
  }

  predicate AllBelow(base: Path, qs: seq<Path>) {
    forall i :: 0 <= i < |qs| ==> base <= qs[i]
  }

  /** No copied entry is nested too deep for the walk. */
  predicate Shallow(nodes: Nodes, base: Path, roots: seq<Path>) {
    forall q :: q in nodes && UnderRoots(roots, q) ==>
      |q| - |base| <= Walk.MAX_RECURSE_DEPTH + (if nodes[q].File? then 1 else 0)
  }

  lemma ListedIsLeaf(nodes: Nodes, base: Path, roots: seq<Path>, qs: seq<Path>, q: Path)
    requires CopiedFrom(base, roots) && Walk.ListsRoots(nodes, roots, |roots|, true, qs, true) && q in qs
    ensures q in nodes && UnderRoots(roots, q) && base < q && base + Below(base, q) == q
    ensures IsLeaf(TreeOf(nodes, base, roots), Below(base, q))
  {
    hide TreeOf;
    assert Walk.CopiedBy(nodes, roots, |roots|, true, q);
    var i :| 0 <= i < |roots| && Walk.Listed(nodes, roots[i], 1, true, q);
    BelowBase(base, roots, q);
    var r := Below(base, q);
    InTree(nodes, base, roots, r);
    forall s | s in TreeOf(nodes, base, roots) && nodes[q].Dir? ensures !(r < s) {
      InTree(nodes, base, roots, s);
      LongerBelow(base, r, s);
    }
  }

  lemma LongerBelow(base: Path, r: Path, s: Path)
    ensures r < s <==> base + r < base + s
  {
    SameFront(base, r, s);
  }

  lemma LeafIsListed(nodes: Nodes, base: Path, roots: seq<Path>, qs: seq<Path>, r: Path)
    requires CopiedFrom(base, roots) && Shallow(nodes, base, roots)
    requires Walk.ListsRoots(nodes, roots, |roots|, true, qs, true) && IsLeaf(TreeOf(nodes, base, roots), r)
    ensures base + r in qs
  {
    hide TreeOf;
    var q := base + r;
    InTree(nodes, base, roots, r);
    var i :| 0 <= i < |roots| && roots[i] <= q;
    RootLength(base, roots, i);
    forall s | s in nodes && nodes[q].Dir? ensures !(q < s) {
      NothingBelowLeaf(nodes, base, roots, r, s);
    }
    assert Walk.Listed(nodes, roots[i], 1, true, q);
    assert Walk.CopiedBy(nodes, roots, |roots|, true, q);
  }

  lemma NothingBelowLeaf(nodes: Nodes, base: Path, roots: seq<Path>, r: Path, s: Path)
    requires base + r in nodes && nodes[base + r].Dir? && UnderRoots(roots, base + r) && s in nodes
    requires CopiedFrom(base, roots) && IsLeaf(TreeOf(nodes, base, roots), r)
    ensures !(base + r < s)
  {
    hide TreeOf;
    InTree(nodes, base, roots, r);
    if base + r <= s {
      var i :| 0 <= i < |roots| && roots[i] <= base + r;
      assert UnderRoots(roots, s);
      BelowBase(base, roots, s);
      InTree(nodes, base, roots, Below(base, s));
      LongerBelow(base, r, Below(base, s));
    }
  }

  /** What the walk lists are the leaves of the copied tree, each once. */
  lemma WalkListsLeaves(nodes: Nodes, base: Path, roots: seq<Path>, qs: seq<Path>)
    requires CopiedFrom(base, roots) && Shallow(nodes, base, roots)
    requires Walk.ListsRoots(nodes, roots, |roots|, true, qs, true)
    ensures AllBelow(base, qs) && IsLeafList(TreeOf(nodes, base, roots), Relatives(base, qs))
    ensures forall q :: q in qs ==> q in nodes && UnderRoots(roots, q)
  {
    hide TreeOf, Walk.ListsRoots, UnderRoots, Shallow, IsLeaf, CopiedFrom;
    forall q | q in qs
      ensures q in nodes && UnderRoots(roots, q) && base < q && base + Below(base, q) == q
      ensures IsLeaf(TreeOf(nodes, base, roots), Below(base, q))
    {
      ListedIsLeaf(nodes, base, roots, qs, q);
    }
    assert forall i :: 0 <= i < |qs| ==> qs[i] in qs;
    var rs := Relatives(base, qs);
    ListedOnce(nodes, roots, qs);
    assert NoDuplicates(rs) by {
      forall i, j | 0 <= i < j < |rs| ensures rs[i] != rs[j] {
        assert base + rs[i] == qs[i] && base + rs[j] == qs[j];
      }
    }
    forall r ensures r in rs <==> IsLeaf(TreeOf(nodes, base, roots), r) {
      if IsLeaf(TreeOf(nodes, base, roots), r) {
        LeafIsListed(nodes, base, roots, qs, r);
        var i :| 0 <= i < |qs| && qs[i] == base + r;
        assert rs[i] == r;
      }
    }
  }

  lemma ListedOnce(nodes: Nodes, roots: seq<Path>, qs: seq<Path>)
    requires Walk.ListsRoots(nodes, roots, |roots|, true, qs, true)
    ensures NoDuplicates(qs)
  {
  }

  // ---------------------------------------------------------------- from the records to the wire

  function LeadOf(base: Path): bytes { if base == [] then [SLASH] else [] }

  lemma LeadOfIsLead(base: Path)
    ensures IsLead(LeadOf(base))
  {
  }

  /** The text of an entry without the common directory is its name in the record, with a slash for a directory. */
  lemma NameOnTheWire(nodes: Nodes, base: Path, r: Path)
    requires r != [] && base + r in nodes
    ensures CutAt(base) <= |Walk.EntryText(nodes, base + r)|
    ensures Walk.EntryText(nodes, base + r)[CutAt(base)..]
            == EntryName(LeadOf(base), r) + (if nodes[base + r].Dir? then [SLASH] else [])
  {
    hide Join;
    var head := if base == [] then [] else Walk.DirText(base);
    var name, tail := EntryName(LeadOf(base), r), if nodes[base + r].Dir? then [SLASH] else [];
    assert base + r != [];
    if base == [] {
      assert base + r == r;
      WholeText(Walk.AbsPath(r));
    } else {
      JoinConcat(base, r);
      LongerText(Join(base), Join(r));
    }
    assert Walk.AbsPath(base + r) == head + name;
    assert Walk.EntryText(nodes, base + r) == head + name + tail;
    AfterHead(head, name, tail);
  }

  lemma WholeText(s: bytes)
    ensures [] + s == s
  {
  }

  lemma LongerText(a: bytes, b: bytes)
    ensures [SLASH] + (a + [SLASH] + b) == [SLASH] + a + [SLASH] + ([] + b)
  {
  }

  lemma AfterHead(head: bytes, name: bytes, tail: bytes)
    ensures (head + name + tail)[|head|..] == name + tail
  {
  }

  function CutAt(base: Path): nat {
    if base == [] then 0 else |Walk.DirText(base)|
  }

  lemma RecordOnTheWire(nodes: Nodes, cwd: Path, version: nat, base: Path, r: Path, dirname: bytes, maxSize: int)
    requires WellFormed(nodes) && 2 <= version <= 4 && base + r in nodes && |dirname| > 2
    requires Transferable(dirname, LeadOf(base), r, nodes[base + r], maxSize)
    ensures CutAt(base) <= |Walk.EntryText(nodes, base + r)|
    ensures Send.SentRecord(nodes, cwd, version, Walk.EntryText(nodes, base + r), CutAt(base), maxSize)
            == Some(Record(LeadOf(base), r, nodes[base + r]))
  {
    hide Join, EncodeSize, WellFormed, Send.Framed, Locate, CutAt, EntryName, LeadOf;
    var text, name := Walk.EntryText(nodes, base + r), EntryName(LeadOf(base), r);
    NameOnTheWire(nodes, base, r);
    LeadOfIsLead(base);
    NameEnds(dirname, LeadOf(base), r, nodes[base + r], maxSize);
    Walk.LocateAbsPath(nodes, cwd, base + r);
    match nodes[base + r]
    case File(content) =>
      assert text[CutAt(base)..] == name + [] == name;
      assert Send.ContentAt(nodes, cwd, text) == Some(content);
    case Dir =>
      assert (name + [SLASH])[..|name|] == name;
  }

  /** The name of an entry does not end in a slash. */
  lemma NameEnds(dirname: bytes, lead: bytes, r: Path, node: Node, maxSize: int)
    requires |dirname| > 2 && IsLead(lead) && Transferable(dirname, lead, r, node, maxSize)
    ensures EntryName(lead, r) != [] && EntryName(lead, r)[|EntryName(lead, r)| - 1] != SLASH
    ensures |EntryName(lead, r)| < MAX_FILE_NAME_LEN || node.File?
    ensures |EntryName(lead, r)| <= MAX_FILE_NAME_LEN
  {
    hide Join;
    JoinIsNulFree(r);
    assert EntryName(lead, r)[|EntryName(lead, r)| - 1] == Join(r)[|Join(r)| - 1];
  }

  lemma {:induction false} BatchOnTheWire(nodes: Nodes, cwd: Path, version: nat, base: Path, t: Nodes, qs: seq<Path>,
                                          dirname: bytes, maxSize: int, i: nat)
    requires WellFormed(nodes) && 2 <= version <= 4 && |dirname| > 2 && i <= |qs|
    requires Walk.AllIn(nodes, qs) && AllBelow(base, qs) && Walk.AllIn(t, Relatives(base, qs))
    requires forall j :: 0 <= j < |qs| ==>
               base + Relatives(base, qs)[j] == qs[j] && t[Relatives(base, qs)[j]] == nodes[qs[j]]
    requires forall r :: r in t ==> Transferable(dirname, LeadOf(base), r, t[r], maxSize)
    ensures Send.LongEnough(Walk.EntryTexts(nodes, qs)[..i], CutAt(base))
    ensures Send.SentBatch(nodes, cwd, version, Walk.EntryTexts(nodes, qs)[..i], CutAt(base), maxSize)
            == Some(Records(LeadOf(base), t, Relatives(base, qs)[..i]))
  {
    hide Transferable, WellFormed, Send.SentRecord, Record, Walk.EntryText, CutAt;
    var texts, rs := Walk.EntryTexts(nodes, qs), Relatives(base, qs);
    if i > 0 {
      BatchOnTheWire(nodes, cwd, version, base, t, qs, dirname, maxSize, i - 1);
      RecordOnTheWire(nodes, cwd, version, base, rs[i - 1], dirname, maxSize);
      assert texts[..i] == texts[..i - 1] + [texts[i - 1]];
      assert rs[..i] == rs[..i - 1] + [rs[i - 1]];
      RecordsSnoc(LeadOf(base), t, rs[..i - 1], rs[i - 1]);
    }
  }

  lemma {:induction false} RecordsSnoc(lead: bytes, t: Nodes, leaves: seq<Path>, r: Path)
    requires Walk.AllIn(t, leaves) && r in t
    ensures Walk.AllIn(t, leaves + [r])
    ensures Records(lead, t, leaves + [r]) == Records(lead, t, leaves) + Record(lead, r, t[r])
  {
    hide Record;
    if leaves == [] {
      assert [r][1..] == [] && Records(lead, t, [r]) == Record(lead, r, t[r]) + Records(lead, t, []);
    } else {
      RecordsSnoc(lead, t, leaves[1..], r);
      assert (leaves + [r])[1..] == leaves[1..] + [r];
    }
  }

  // ---------------------------------------------------------------- the theorem

  /**
    * The whole way: a walk over the copied entries, their records as one server sends them in version 3 or 4, and
    * another that receives them. The temp directory then holds exactly the copied tree, files with their contents
    * and empty directories included, and exactly the bytes that were sent are consumed.
    */
  lemma TreeRoundTrip(source: Nodes, sourceCwd: Path, base: Path, roots: seq<Path>, qs: seq<Path>, version: nat,
                      maxSize: int, dest: Nodes, cwd: Path, dirname: bytes, rest: bytes)
    returns (final: Nodes)
    requires WellFormed(source) && CopiedFrom(base, roots) && |roots| > 0 && Shallow(source, base, roots)
    requires Walk.ListsRoots(source, roots, |roots|, true, qs, true) && Walk.AllIn(source, qs)
    requires 3 <= version <= 4 && -1 <= maxSize && IsInt64(maxSize)
    requires WellFormed(dest) && TempDir(dest, cwd, dirname) && IsFresh(dest, TempPath(cwd, dirname)) && |dirname| <= 16
    requires forall r :: r in TreeOf(source, base, roots) ==>
               Transferable(dirname, LeadOf(base), r, TreeOf(source, base, roots)[r], maxSize)
    ensures Send.LongEnough(Walk.EntryTexts(source, qs), Walk.PathLength(roots[0]))
    ensures var sent := Send.SentBatch(source, sourceCwd, version, Walk.EntryTexts(source, qs),
                                        Walk.PathLength(roots[0]), maxSize);
            sent.Some? && SaveAll(dest, cwd, version, maxSize, dirname, |qs|, sent.value + rest) == Got(final, rest)
    ensures HoldsTree(dest, final, TempPath(cwd, dirname), TreeOf(source, base, roots))
  {
    hide SaveAll, Transferable, WellFormed, Send.SentBatch, HoldsTree, IsTree, IsLeafList, Records, TreeOf, Shallow,
         UnderRoots, Walk.ListsRoots, IsFresh;
    var t := TreeOf(source, base, roots);
    WalkListsLeaves(source, base, roots, qs);
    TreeOfIsTree(source, base, roots);
    var texts, rs := Walk.EntryTexts(source, qs), Relatives(base, qs);
    LeavesAreIn(source, base, roots, qs);
    RootCut(base, roots);
    BatchOnTheWire(source, sourceCwd, version, base, t, qs, dirname, maxSize, |qs|);
    assert texts[..|qs|] == texts && rs[..|qs|] == rs;
    DepthOfTree(source, base, roots);
    final := ReceivingRebuilds(dest, cwd, version, maxSize, dirname, LeadOf(base), t, rs,
                               Walk.MAX_RECURSE_DEPTH + 1, rest);
  }

  lemma RootCut(base: Path, roots: seq<Path>)
    requires CopiedFrom(base, roots) && |roots| > 0
    ensures roots[0] != [] && Walk.PathLength(roots[0]) == CutAt(base)
  {
    assert Parent(roots[0]) == base;
  }

  lemma LeavesAreIn(nodes: Nodes, base: Path, roots: seq<Path>, qs: seq<Path>)
    requires CopiedFrom(base, roots) && AllBelow(base, qs) && Walk.AllIn(nodes, qs)
    requires forall q :: q in qs ==> q in nodes && UnderRoots(roots, q)
    ensures Walk.AllIn(TreeOf(nodes, base, roots), Relatives(base, qs))
    ensures forall j :: 0 <= j < |qs| ==> base + Relatives(base, qs)[j] == qs[j]
    ensures forall j :: 0 <= j < |qs| ==> TreeOf(nodes, base, roots)[Relatives(base, qs)[j]] == nodes[qs[j]]
  {
    hide TreeOf, UnderRoots;
    forall j | 0 <= j < |qs|
      ensures base + Relatives(base, qs)[j] == qs[j] && Relatives(base, qs)[j] in TreeOf(nodes, base, roots)
              && TreeOf(nodes, base, roots)[Relatives(base, qs)[j]] == nodes[qs[j]]
    {
      assert qs[j] in qs;
      BelowBase(base, roots, qs[j]);
      InTree(nodes, base, roots, Relatives(base, qs)[j]);
    }
  }

  lemma DepthOfTree(nodes: Nodes, base: Path, roots: seq<Path>)
    requires CopiedFrom(base, roots) && Shallow(nodes, base, roots)
    ensures forall s :: s in TreeOf(nodes, base, roots) ==> |s| <= Walk.MAX_RECURSE_DEPTH + 1
  {
    hide TreeOf, UnderRoots;
    forall s | s in TreeOf(nodes, base, roots) ensures |s| <= Walk.MAX_RECURSE_DEPTH + 1 {
      InTree(nodes, base, roots, s);
    }
  }
}
