/** Two servers: a tree that is copied on one is sent, received and landed on the other. */
module Transfer {
  import opened Bytes
  import opened Common
  import opened Paths
  import opened FileSystem
  import opened NetUtils
  import opened Receive
  import opened Landing
  import opened Batch
  import CutFiles
  import CutReader
  import CutRoundTrip
  import RoundTrip
  import Send
  import Walk

  /** What one server announces after its status byte is what another one takes as the number and the records. */
  lemma AnnouncedIsReceived(cnt: nat, records: bytes, rest: bytes)
    requires IsInt64(cnt)
    ensures var payload := Send.Announced(cnt, records)[1..] + rest;
            |payload| >= 8 && DecodeSize(payload[..8]) == cnt && payload[8..] == records + rest
  {
    hide EncodeSize, DecodeSize;
    var payload := Send.Announced(cnt, records)[1..] + rest;
    assert payload == EncodeSize(cnt) + records + rest;
    assert payload[..8] == EncodeSize(cnt);
    SizeRoundTrip(cnt);
  }

  /** A fresh directory in the working directory. */
  lemma FreshTempDir(dest: Nodes, cwd: Path, dirname: bytes)
    requires WellFormed(dest) && IsDir(dest, cwd) && FreshName(dest, cwd, dirname)
    ensures var tmp := TempPath(cwd, dirname); var more := dest[tmp := Dir];
            WellFormed(more) && TempDir(more, cwd, dirname) && RoundTrip.IsFresh(more, tmp)
  {
    var tmp := TempPath(cwd, dirname);
    assert Attached(dest, cwd);
    assert Attached(dest, tmp);
    AddKeepsWellFormed(dest, tmp, Dir);
    AbsentIsFree(dest, tmp);
  }

  /** What the two ends have to do with each other: the copied tree, the limits, and the fresh name. */
  ghost predicate CanBeCopied(source: Nodes, base: Path, roots: seq<Path>, conf: Config, dest: Nodes, cwd: Path,
                              dirname: bytes) {
    && WellFormed(source) && RoundTrip.CopiedFrom(base, roots) && |roots| > 0 && RoundTrip.Shallow(source, base, roots)
    && -1 <= conf.maxFileSize && IsInt64(conf.maxFileSize) && conf.maxFileCount <= 0xFFFF_FFFF
    && WellFormed(dest) && IsDir(dest, cwd) && FreshName(dest, cwd, dirname)
    && forall r :: r in RoundTrip.TreeOf(source, base, roots) ==>
         RoundTrip.Transferable(dirname, RoundTrip.LeadOf(base), r, RoundTrip.TreeOf(source, base, roots)[r],
                                conf.maxFileSize)
  }

  /** The records of the leaves `qs` as a server sends them. */
  function SentLeaves(source: Nodes, sourceCwd: Path, roots: seq<Path>, qs: seq<Path>, version: nat,
                      maxSize: int): Option<bytes>
    requires Walk.AllIn(source, qs) && |roots| > 0 && roots[0] != []
  {
    Send.SentBatch(source, sourceCwd, version, Walk.EntryTexts(source, qs), Walk.PathLength(roots[0]), maxSize)
  }

  /**
    * What one server answers when its user has copied a tree is, from the file count on, accepted by another one, and
    * after it the fresh temp directory holds exactly the tree.
    */
  lemma CopiedTreeArrives(source: Nodes, sourceCwd: Path, base: Path, roots: seq<Path>, qs: seq<Path>, version: nat,
                          conf: Config, dest: Nodes, cwd: Path, dirname: bytes, rest: bytes)
    returns (mid: Nodes)
    requires CanBeCopied(source, base, roots, conf, dest, cwd, dirname) && 3 <= version <= 4
    requires Walk.ListsRoots(source, roots, |roots|, true, qs, true)
    requires Walk.AllIn(source, qs) && 0 < |qs| <= conf.maxFileCount
    ensures roots[0] != [] && Send.LongEnough(Walk.EntryTexts(source, qs), Walk.PathLength(roots[0]))
    ensures SentLeaves(source, sourceCwd, roots, qs, version, conf.maxFileSize).Some?
    ensures var sent := SentLeaves(source, sourceCwd, roots, qs, version, conf.maxFileSize).value;
            BatchResult(dest, cwd, version, conf, dirname, Send.Announced(|qs|, sent)[1..] + rest) == Got(mid, rest)
    ensures RoundTrip.HoldsTree(dest[TempPath(cwd, dirname) := Dir], mid, TempPath(cwd, dirname),
                                RoundTrip.TreeOf(source, base, roots))
  {
    FreshTempDir(dest, cwd, dirname);
    assert 2 < |dirname| <= 16;
    hide RoundTrip.TreeOf, RoundTrip.Transferable, RoundTrip.Shallow, RoundTrip.HoldsTree, RoundTrip.IsFresh,
         WellFormed, SaveAll, Walk.ListsRoots, Walk.EntryTexts, Walk.PathLength, Send.SentBatch, FreshName, TempDir,
         EncodeSize, Send.LongEnough, BatchResult;
    RoundTrip.RootCut(base, roots);
    mid := RoundTrip.TreeRoundTrip(source, sourceCwd, base, roots, qs, version, conf.maxFileSize,
                                   dest[TempPath(cwd, dirname) := Dir], cwd, dirname, rest);
    var sent := SentLeaves(source, sourceCwd, roots, qs, version, conf.maxFileSize).value;
    PayloadArrives(dest, mid, cwd, version, conf, dirname, |qs|, sent, rest);
  }

  lemma PayloadArrives(dest: Nodes, mid: Nodes, cwd: Path, version: nat, conf: Config, dirname: bytes, cnt: nat,
                       sent: bytes, rest: bytes)
    requires |dirname| > 2 && 0 < cnt <= conf.maxFileCount <= 0xFFFF_FFFF
    requires SaveAll(dest[TempPath(cwd, dirname) := Dir], cwd, version, conf.maxFileSize, dirname, cnt, sent + rest)
             == Got(mid, rest)
    ensures |Send.Announced(cnt, sent)| > 0
    ensures BatchResult(dest, cwd, version, conf, dirname, Send.Announced(cnt, sent)[1..] + rest) == Got(mid, rest)
  {
    hide SaveAll, DecodeSize, EncodeSize;
    AnnouncedIsReceived(cnt, sent, rest);
  }

  // ---------------------------------------------------------------- there is room

  /** What the temp directory holds after the reception of a tree can land. */
  lemma TreeIsRoomy(dest: Nodes, mid: Nodes, cwd: Path, dirname: bytes, lead: bytes, t: Nodes, maxSize: int)
    requires WellFormed(dest) && FreshName(dest, cwd, dirname) && RoundTrip.IsTree(t) && |t| > 0
    requires RoundTrip.HoldsTree(dest[TempPath(cwd, dirname) := Dir], mid, TempPath(cwd, dirname), t)
    requires forall r :: r in t ==> RoundTrip.Transferable(dirname, lead, r, t[r], maxSize)
    requires |dest| + |t| + 1 < 1000000
    ensures Roomy(mid, TempPath(cwd, dirname))
  {
    hide WellFormed, RoundTrip.Transferable;
    var tmp := TempPath(cwd, dirname);
    TreeIsSmall(dest[tmp := Dir], mid, tmp, t);
    assert |dest[tmp := Dir]| <= |dest| + 1 by { assert dest[tmp := Dir].Keys == dest.Keys + {tmp}; }
    var r :| r in t;
    TopIsHeld(dest[tmp := Dir], mid, tmp, t, r);
    forall n | tmp + [n] in mid ensures |n| <= MAX_FILE_NAME_LEN {
      NothingBelowFresh(dest, tmp, n);
      assert RoundTrip.Below(tmp, tmp + [n]) == [n];
      NameIsShort(dirname, lead, [n], t[[n]], maxSize);
    }
  }

  lemma NameIsShort(dirname: bytes, lead: bytes, r: Path, node: Node, maxSize: int)
    requires RoundTrip.Transferable(dirname, lead, r, node, maxSize)
    ensures |r| == 1 ==> |r[0]| <= MAX_FILE_NAME_LEN
  {
  }

  lemma NothingBelowFresh(dest: Nodes, tmp: Path, n: Name)
    requires WellFormed(dest) && tmp !in dest
    ensures tmp + [n] !in dest[tmp := Dir]
  {
    AbsentIsFree(dest, tmp);
    assert tmp <= tmp + [n];
  }

  lemma TopIsHeld(base: Nodes, mid: Nodes, tmp: Path, t: Nodes, r: Path)
    requires RoundTrip.HoldsTree(base, mid, tmp, t) && RoundTrip.IsTree(t) && r in t
    ensures r != [] && tmp + [r[0]] in mid
  {
    var top := tmp + [r[0]];
    assert r[..1] == [r[0]];
    assert |r| == 1 ==> r == [r[0]];
    assert [r[0]] in t by { if |r| > 1 { assert IsDir(t, r[..1]); } }
    assert tmp < top && RoundTrip.Below(tmp, top) == [r[0]];
  }

  lemma TreeIsSmall(base: Nodes, mid: Nodes, tmp: Path, t: Nodes)
    requires RoundTrip.HoldsTree(base, mid, tmp, t)
    ensures |mid| <= |base| + |t|
  {
    var held := set r | r in t.Keys :: MovedTo(r, [], tmp);
    ImageIsSmall(t.Keys, [], tmp);
    forall q | q in mid ensures q in base.Keys + held {
      if q !in base {
        var r := RoundTrip.Below(tmp, q);
        assert r in t.Keys && MovedTo(r, [], tmp) == q;
      }
    }
    SubsetIsSmall(mid.Keys, base.Keys + held);
    assert |base.Keys + held| <= |base.Keys| + |held|;
    assert |mid| == |mid.Keys| && |base| == |base.Keys| && |t| == |t.Keys|;
  }

  // ---------------------------------------------------------------- the tree after landing

  /**
    * Put together with the round trip: once a batch that holds a tree has landed, every entry of the tree is below
    * the new name of its first component, with its content.
    */
  lemma TreeHasLanded(before: Nodes, mid: Nodes, now: Nodes, tmp: Path, cwd: Path, t: Nodes, moved: map<Name, Name>,
                      r: Path)
    requires |tmp| == |cwd| + 1 && tmp in before && RoundTrip.HoldsTree(before, mid, tmp, t) && RoundTrip.IsTree(t)
    requires HasLanded(mid, now, tmp, cwd, moved) && r in t
    ensures r[0] in moved && cwd + [moved[r[0]]] + r[1..] in now && now[cwd + [moved[r[0]]] + r[1..]] == t[r]
  {
    var p := tmp + r;
    assert tmp < p && RoundTrip.Below(tmp, p) == r;
    TopIsHeld(before, mid, tmp, t, r);
    assert p[|tmp| + 1..] == r[1..];
    assert Where(tmp, cwd, moved, p) == cwd + [moved[r[0]]] + r[1..];
  }

  /** Every entry of the tree is in the working directory, below a new name for its first component. */
  ghost predicate IsCopied(now: Nodes, cwd: Path, t: Nodes, moved: map<Name, Name>) {
    forall r :: r in t ==>
      r != [] && r[0] in moved && cwd + [moved[r[0]]] + r[1..] in now && now[cwd + [moved[r[0]]] + r[1..]] == t[r]
  }

  lemma AllHaveArrived(before: Nodes, mid: Nodes, now: Nodes, tmp: Path, cwd: Path, t: Nodes, moved: map<Name, Name>)
    requires |tmp| == |cwd| + 1 && tmp in before && RoundTrip.HoldsTree(before, mid, tmp, t) && RoundTrip.IsTree(t)
    requires HasLanded(mid, now, tmp, cwd, moved)
    ensures IsCopied(now, cwd, t, moved)
  {
    hide RoundTrip.HoldsTree, HasLanded;
    forall r | r in t
      ensures r != [] && r[0] in moved && cwd + [moved[r[0]]] + r[1..] in now
      ensures now[cwd + [moved[r[0]]] + r[1..]] == t[r]
    {
      TreeHasLanded(before, mid, now, tmp, cwd, t, moved, r);
    }
  }

  // ---------------------------------------------------------------- the whole way

  /** The top-level names of the tree are free in the directory, and none is protected or that of the temp directory. */
  ghost predicate NamesAreFree(dest: Nodes, cwd: Path, dirname: bytes, home: bool, t: Nodes)
    requires |dirname| > 2
  {
    forall n :: [n] in t ==> cwd + [n] !in dest && n != dirname[2..] && !IsProtected(n, home)
  }

  /** The tree is in the working directory as it was. */
  ghost predicate IsCopiedAsIs(now: Nodes, cwd: Path, t: Nodes) {
    forall r :: r in t ==> cwd + r in now && now[cwd + r] == t[r]
  }

  lemma NothingInTheWayOf(dest: Nodes, mid: Nodes, cwd: Path, dirname: bytes, home: bool, t: Nodes)
    requires WellFormed(dest) && FreshName(dest, cwd, dirname)
    requires RoundTrip.HoldsTree(dest[TempPath(cwd, dirname) := Dir], mid, TempPath(cwd, dirname), t)
    ensures NamesAreFree(dest, cwd, dirname, home, t) ==>
              NothingInTheWay(dest, mid, TempPath(cwd, dirname), cwd, home)
  {
    hide WellFormed, IsProtected;
    var tmp := TempPath(cwd, dirname);
    if NamesAreFree(dest, cwd, dirname, home, t) {
      forall n | tmp + [n] in mid ensures cwd + [n] !in dest && cwd + [n] != tmp && !IsProtected(n, home) {
        NothingBelowFresh(dest, tmp, n);
        assert RoundTrip.Below(tmp, tmp + [n]) == [n];
        assert (cwd + [n])[|cwd|] == n && tmp[|cwd|] == dirname[2..];
      }
    }
  }

  lemma ArrivedAsIs(now: Nodes, cwd: Path, t: Nodes, moved: map<Name, Name>)
    requires IsCopied(now, cwd, t, moved) && forall f :: f in moved ==> moved[f] == f
    ensures IsCopiedAsIs(now, cwd, t)
  {
    forall r | r in t ensures cwd + r in now && now[cwd + r] == t[r] {
      assert cwd + [r[0]] + r[1..] == cwd + r;
    }
  }

  /**
    * The receiving end: with nothing failing and room left, _send_files_dirs succeeds on what another server sends
    * for a copied tree, every entry of the tree is in the working directory, and what follows on the connection is
    * not read.
    */
  method ReceiveTree(sock: Socket, fs: Fs, conf: Config, ids: seq<nat>, memory: nat -> bool, ghost dirname: bytes,
                     version: nat, ghost source: Nodes, ghost sourceCwd: Path, ghost base: Path, ghost roots: seq<Path>,
                     ghost qs: seq<Path>, ghost sent: bytes, ghost rest: bytes)
    returns (ok: bool, destFiles: Option<seq<bytes>>, ghost moved: map<Name, Name>)
    requires fs.Valid() && Picks(fs.nodes, fs.cwd, ids, dirname) && 3 <= version <= 4
    requires CanBeCopied(source, base, roots, conf, fs.nodes, fs.cwd, dirname)
    requires Walk.ListsRoots(source, roots, |roots|, true, qs, true)
    requires Walk.AllIn(source, qs) && 0 < |qs| <= conf.maxFileCount
    requires roots[0] != []
    requires SentLeaves(source, sourceCwd, roots, qs, version, conf.maxFileSize) == Some(sent)
    requires sock.incoming == Send.Announced(|qs|, sent)[1..] + rest
    requires |fs.nodes| + |RoundTrip.TreeOf(source, base, roots)| + 1 < 1000000
    requires sock.open && sock.Reliable() && fs.Healthy()
    modifies sock, fs
    ensures fs.Valid() && destFiles.Some? && sock.incoming == rest
    ensures IsCopied(fs.nodes, fs.cwd, RoundTrip.TreeOf(source, base, roots), moved)
    ensures NamesAreFree(old(fs.nodes), fs.cwd, dirname, conf.home, RoundTrip.TreeOf(source, base, roots)) ==>
              IsCopiedAsIs(fs.nodes, fs.cwd, RoundTrip.TreeOf(source, base, roots))
    ensures GrowsBelow(old(fs.nodes), fs.nodes, fs.cwd) && TempPath(fs.cwd, dirname) !in fs.nodes
    ensures ok <==> (conf.cutSentFiles ==> CutFiles.CutFits(destFiles.value, memory))
    ensures sock.sent == old(sock.sent) + if version >= 4 then [STATUS_OK, ACK] else [STATUS_OK]
  {
    ghost var before, cwd, t := fs.nodes, fs.cwd, RoundTrip.TreeOf(source, base, roots);
    ghost var full := CopiedTreeArrives(source, sourceCwd, base, roots, qs, version, conf, before, cwd, dirname, rest);
    TreeWillLand(source, base, roots, qs, conf, before, full, cwd, dirname);
    NothingInTheWayOf(before, full, cwd, dirname, conf.home, t);
    hide NamesAreFree, IsCopiedAsIs, NothingInTheWay, NamedWell;
    hide Picks, CanBeCopied, SentLeaves, BatchResult, Roomy, RoundTrip.HoldsTree, RoundTrip.TreeOf, RoundTrip.IsTree,
         IsCopied, WellFormed, HasLanded, Accounted, GrowsBelow, Walk.ListsRoots, Walk.EntryTexts, Walk.PathLength,
         Send.LongEnough, Send.Announced, CutFiles.CutFits;
    var clip;
    ghost var mid, attempt;
    ok, destFiles, clip, mid, moved, attempt := SendFilesDirs(version, sock, fs, conf, ids, memory, dirname);
    LandedIsGone(mid, fs.nodes, TempPath(cwd, dirname), cwd, moved);
    AllHaveArrived(before[TempPath(cwd, dirname) := Dir], mid, fs.nodes, TempPath(cwd, dirname), cwd, t, moved);
    if forall f :: f in moved ==> moved[f] == f { ArrivedAsIs(fs.nodes, cwd, t, moved); }
  }

  lemma LandedIsGone(mid: Nodes, now: Nodes, tmp: Path, cwd: Path, moved: map<Name, Name>)
    ensures HasLanded(mid, now, tmp, cwd, moved) ==> tmp !in now
  {
    hide Landed;
  }

  lemma TreeWillLand(source: Nodes, base: Path, roots: seq<Path>, qs: seq<Path>, conf: Config, dest: Nodes, mid: Nodes,
                     cwd: Path, dirname: bytes)
    requires CanBeCopied(source, base, roots, conf, dest, cwd, dirname)
    requires Walk.ListsRoots(source, roots, |roots|, true, qs, true) && |qs| > 0
    requires RoundTrip.HoldsTree(dest[TempPath(cwd, dirname) := Dir], mid, TempPath(cwd, dirname),
                                 RoundTrip.TreeOf(source, base, roots))
    requires |dest| + |RoundTrip.TreeOf(source, base, roots)| + 1 < 1000000
    ensures Roomy(mid, TempPath(cwd, dirname)) && RoundTrip.IsTree(RoundTrip.TreeOf(source, base, roots))
  {
    hide RoundTrip.TreeOf, RoundTrip.HoldsTree, RoundTrip.Transferable, Walk.ListsRoots, WellFormed, Roomy, FreshName,
         RoundTrip.IsTree, RoundTrip.Shallow;
    RoundTrip.TreeOfIsTree(source, base, roots);
    RoundTrip.WalkListsLeaves(source, base, roots, qs);
    SomeLeaf(source, base, roots, qs);
    TreeIsRoomy(dest, mid, cwd, dirname, RoundTrip.LeadOf(base), RoundTrip.TreeOf(source, base, roots),
                conf.maxFileSize);
  }

  lemma SomeLeaf(source: Nodes, base: Path, roots: seq<Path>, qs: seq<Path>)
    requires RoundTrip.CopiedFrom(base, roots) && RoundTrip.AllBelow(base, qs) && |qs| > 0
    requires RoundTrip.IsLeafList(RoundTrip.TreeOf(source, base, roots), RoundTrip.Relatives(base, qs))
    ensures |RoundTrip.TreeOf(source, base, roots)| > 0
  {
    hide RoundTrip.TreeOf;
    var t, r := RoundTrip.TreeOf(source, base, roots), RoundTrip.Relatives(base, qs)[0];
    assert r in RoundTrip.Relatives(base, qs);
    assert RoundTrip.IsLeaf(t, r);
    assert r in t.Keys && |t| == |t.Keys|;
    assert t.Keys != {};
  }

  /** The paths fit the limits of the reader. */
  ghost predicate ListFits(roots: seq<Path>) {
    CutRoundTrip.UrlsFit(Walk.AbsPaths(roots))
    && forall i :: 0 <= i < |roots| ==> |Walk.AbsPath(roots[i])| <= MAX_FILE_NAME_LEN
  }

  /** The list of the copied paths is read as it was written. */
  lemma CopiedListIsRead(verb: bytes, buf: bytes, roots: seq<Path>)
    requires |roots| > 0 && Walk.CopiedPaths(roots) && ListFits(roots)
    requires CutRoundTrip.Holds(verb, buf, Walk.AbsPaths(roots))
    ensures CutReader.HasHeader(CutReader.TextOf(buf))
    ensures CutReader.NamesIn(CutReader.DirsToo, buf) == Some(Walk.AbsPaths(roots))
  {
    hide CutRoundTrip.UrlsFit, CutReader.NamesIn, CutReader.HasHeader, CutRoundTrip.Holds, Walk.AbsPath, Walk.Apart;
    var paths := Walk.AbsPaths(roots);
    forall i | 0 <= i < |paths| ensures CutRoundTrip.Listable(paths[i]) && paths[i][|paths[i]| - 1] != SLASH {
      RootIsListable(roots[i]);
    }
    CutRoundTrip.CutListRoundTrip(CutReader.DirsToo, verb, buf, paths);
  }

  lemma RootIsListable(root: Path)
    requires root != [] && LegalPath(root)
    ensures CutRoundTrip.Listable(Walk.AbsPath(root))
    ensures Walk.AbsPath(root)[|Walk.AbsPath(root)| - 1] != SLASH
  {
    hide Join;
    JoinIsNulFree(root);
  }

  /**
    * Both ends, from the clipboard of the one to the directory of the other: the paths of a tree are in the clipboard,
    * get_files answers with it, and send_files on another server gets what the first one sent after its status. If
    * nothing fails and the limits allow it, the tree is then in the working directory of the second server, whatever
    * else is there.
    */
  method CopyTree(walk: Walk.DirWalk, up: Socket, buf: array<byte>, maxCount: nat, fs: Fs, oracle: nat -> IoResult,
                  conf: Config, ids: seq<nat>, memory: nat -> bool, ghost dirname: bytes, version: nat,
                  ghost verb: bytes, ghost base: Path, ghost roots: seq<Path>)
    returns (sent: bool, destFiles: Option<seq<bytes>>, ghost qs: seq<Path>, ghost moved: map<Name, Name>)
    requires walk.fs != fs && walk.fs.Valid() && fs.Valid()
    requires Picks(fs.nodes, fs.cwd, ids, dirname) && 3 <= version <= 4
    requires CanBeCopied(walk.fs.nodes, base, roots, conf, fs.nodes, fs.cwd, dirname)
    requires buf.Length > 0 && buf[buf.Length - 1] == NUL
    requires CutRoundTrip.Holds(verb, buf[..], Walk.AbsPaths(roots)) && ListFits(roots)
    requires Walk.RootsShort(walk.fs.nodes, roots) && walk.lst == [] && maxCount <= 0xFFFF_FFFF
    requires |fs.nodes| + |RoundTrip.TreeOf(walk.fs.nodes, base, roots)| + 1 < 1000000
    requires up.open && up.Reliable() && walk.fs.Healthy() && fs.Healthy()
    requires forall i: nat :: oracle(i).Moved? && oracle(i).count > 0
    modifies walk, walk.fs`calls, buf, up, fs
    ensures fs.Valid() && GrowsBelow(old(fs.nodes), fs.nodes, fs.cwd)
    ensures Walk.ListsRoots(walk.fs.nodes, roots, |roots|, true, qs, true)
    ensures 0 < |qs| <= maxCount && |qs| <= conf.maxFileCount ==>
              sent && destFiles.Some? && IsCopied(fs.nodes, fs.cwd, RoundTrip.TreeOf(walk.fs.nodes, base, roots), moved)
    ensures 0 < |qs| <= maxCount && |qs| <= conf.maxFileCount ==>
              (NamesAreFree(old(fs.nodes), fs.cwd, dirname, conf.home, RoundTrip.TreeOf(walk.fs.nodes, base, roots)) ==>
                IsCopiedAsIs(fs.nodes, fs.cwd, RoundTrip.TreeOf(walk.fs.nodes, base, roots)))
  {
    hide NamesAreFree, IsCopiedAsIs, Picks, SentLeaves, RoundTrip.TreeOf, IsCopied, WellFormed, Walk.ListsRoots,
         Walk.RootsShort, Walk.EntryTexts, Walk.CopiedPaths, CutFiles.CutFits, GrowsBelow, CutRoundTrip.Holds, ListFits,
         Walk.AbsPath, CanBeCopied, Send.Announced, Send.LongEnough, BatchResult, RoundTrip.HoldsTree;
    ghost var source, sourceCwd := walk.fs.nodes, walk.fs.cwd;
    PickedIsLong(fs.nodes, fs.cwd, ids, dirname);
    destFiles, moved, sent := None, map[], false;
    Receive.NothingGrows(fs.nodes, fs.cwd);
    CopiedRoots(walk.fs.nodes, base, roots, conf, fs.nodes, fs.cwd, dirname);
    RootsAreCopied(base, roots);
    ghost var before := up.sent;
    var n := |up.sent|;
    sent, qs := OfferTree(walk, up, buf, conf.maxFileSize, maxCount, version, verb, roots);
    if |walk.lst| == 0 || |walk.lst| > maxCount || |walk.lst| > conf.maxFileCount { return; }
    ghost var mid := CopiedTreeArrives(source, sourceCwd, base, roots, qs, version, conf, fs.nodes, fs.cwd,
                                       dirname, []);
    ghost var records := SentLeaves(source, sourceCwd, roots, qs, version, conf.maxFileSize).value;
    AfterStatus(before, up.sent, |qs|, records);
    var down := new Socket(up.sent[n + 1..], oracle);
    var ok;
    ok, destFiles, moved := ReceiveTree(down, fs, conf, ids, memory, dirname, version, source,
                                        sourceCwd, base, roots, qs, records, []);
  }

  /** The sending end: the selection is read, the tree is walked, and its records are sent. */
  method OfferTree(walk: Walk.DirWalk, up: Socket, buf: array<byte>, maxSize: int, maxCount: nat, version: nat,
                   ghost verb: bytes, ghost roots: seq<Path>)
    returns (sent: bool, ghost qs: seq<Path>)
    requires walk.fs.Valid() && walk.lst == [] && 3 <= version <= 4 && IsInt64(maxSize) && maxCount <= 0xFFFF_FFFF
    requires |roots| > 0 && Walk.CopiedPaths(roots) && buf.Length > 0 && buf[buf.Length - 1] == NUL
    requires CutRoundTrip.Holds(verb, buf[..], Walk.AbsPaths(roots)) && ListFits(roots)
    requires Walk.RootsShort(walk.fs.nodes, roots) && up.open && up.Reliable() && walk.fs.Healthy()
    modifies walk, walk.fs`calls, buf, up
    ensures Walk.AllIn(walk.fs.nodes, qs) && |walk.lst| == |qs| && roots[0] != []
    ensures Walk.ListsRoots(walk.fs.nodes, roots, |roots|, true, qs, true)
    ensures var records := SentLeaves(walk.fs.nodes, walk.fs.cwd, roots, qs, version, maxSize);
            0 < |qs| <= maxCount && records.Some? ==>
              sent && up.sent == old(up.sent) + Send.Announced(|qs|, records.value)
  {
    hide WellFormed, Walk.ListsRoots, Walk.RootsShort, Walk.EntryTexts, Walk.PathLength, Walk.CopiedPaths,
         Send.SentBatch, Send.Sendable, Send.ReadsOff, EncodeSize, CutReader.NamesIn, CutReader.HasHeader,
         CutRoundTrip.Holds, ListFits, Walk.AbsPath, SentLeaves, Send.Announced, Send.LongEnough, CutReader.TextOf;
    Walk.FirstIsNamed(roots);
    CopiedListIsRead(verb, buf[..], roots);
    var found, pathLen, overrun;
    found, pathLen, qs := walk.GetCopiedDirsFiles(buf, true, roots);
    NothingBefore(walk.lst, Walk.EntryTexts(walk.fs.nodes, qs));
    SentLeavesIs(walk.fs.nodes, walk.fs.cwd, roots, qs, version, maxSize);
    sent, overrun := Send.GetFilesCommon(version, up, walk.fs, walk.lst, pathLen, maxSize, maxCount);
  }

  lemma CopiedRoots(source: Nodes, base: Path, roots: seq<Path>, conf: Config, dest: Nodes, cwd: Path, dirname: bytes)
    requires CanBeCopied(source, base, roots, conf, dest, cwd, dirname)
    ensures RoundTrip.CopiedFrom(base, roots) && |roots| > 0 && IsInt64(conf.maxFileSize)
  {
    hide RoundTrip.CopiedFrom, RoundTrip.Shallow, RoundTrip.TreeOf, RoundTrip.Transferable, WellFormed;
  }

  lemma RootsAreCopied(base: Path, roots: seq<Path>)
    requires RoundTrip.CopiedFrom(base, roots) && |roots| > 0
    ensures Walk.CopiedPaths(roots) && roots[0] != []
  {
  }

  lemma NothingBefore(lst: seq<bytes>, texts: seq<bytes>)
    requires lst == [] + texts
    ensures lst == texts
  {
  }

  lemma SentLeavesIs(source: Nodes, sourceCwd: Path, roots: seq<Path>, qs: seq<Path>, version: nat, maxSize: int)
    requires Walk.AllIn(source, qs) && |roots| > 0 && roots[0] != []
    ensures SentLeaves(source, sourceCwd, roots, qs, version, maxSize)
            == Send.SentBatch(source, sourceCwd, version, Walk.EntryTexts(source, qs),
                              Walk.PathLength(roots[0]), maxSize)
  {
  }

  /** What follows the status byte on the wire. */
  lemma AfterStatus(before: bytes, after: bytes, cnt: nat, records: bytes)
    requires after == before + Send.Announced(cnt, records)
    ensures |Send.Announced(cnt, records)| > 0 && |before| + 1 <= |after|
    ensures after[|before| + 1..] == Send.Announced(cnt, records)[1..] + []
  {
    hide EncodeSize;
  }

  // ---------------------------------------------------------------- the received files in the clipboard

  /** The names of the new entries can be in a list. */
  lemma LandedAreListable(paths: seq<bytes>, cwdText: bytes, mid: Nodes, now: Nodes, tmp: Path, cwd: Path,
                          moved: map<Name, Name>)
    requires WellFormed(now) && HasLanded(mid, now, tmp, cwd, moved) && NamesLanded(paths, cwdText, moved)
    requires NUL !in cwdText && |tmp| == |cwd| + 1
    ensures CutRoundTrip.AllListable(paths)
    ensures cwd != [] && cwdText == Walk.AbsPath(cwd) ==>
              forall p :: p in paths ==> exists x :: cwd + [x] in now && p == Walk.AbsPath(cwd + [x])
  {
    hide Walk.AbsPath, WellFormed, HasLanded;
    forall p | p in paths
      ensures CutRoundTrip.Listable(p)
      ensures cwd != [] && cwdText == Walk.AbsPath(cwd) ==> exists x :: cwd + [x] in now && p == Walk.AbsPath(cwd + [x])
    {
      var f :| f in moved && p == cwdText + [SLASH] + moved[f];
      NewNameIsThere(mid, now, tmp, cwd, moved, f);
      NewPath(cwdText, cwd, moved[f]);
    }
  }

  lemma NewPath(cwdText: bytes, cwd: Path, x: Name)
    requires NUL !in cwdText && LegalName(x)
    ensures CutRoundTrip.Listable(cwdText + [SLASH] + x)
    ensures cwd != [] && cwdText == Walk.AbsPath(cwd) ==> cwdText + [SLASH] + x == Walk.AbsPath(cwd + [x])
  {
    hide Walk.AbsPath;
    Walk.ChildText(cwd, x);
    if cwd != [] { Walk.DirTextIs(cwd); }
  }

  lemma NewNameIsThere(mid: Nodes, now: Nodes, tmp: Path, cwd: Path, moved: map<Name, Name>, f: Name)
    requires WellFormed(now) && HasLanded(mid, now, tmp, cwd, moved) && f in moved && |tmp| == |cwd| + 1
    ensures cwd + [moved[f]] in now && LegalName(moved[f])
  {
    var p := tmp + [f];
    assert Where(tmp, cwd, moved, p) == cwd + [moved[f]] + [] == cwd + [moved[f]];
    assert Attached(now, cwd + [moved[f]]);
    assert (cwd + [moved[f]])[|cwd|] == moved[f];
  }

  /**
    * A batch that landed can be pasted: what a reader gets from the selection are the paths of the new entries, in
    * order, if they fit the limits of the list and there is memory for their URLs.
    */
  method ReceiveAndPaste(mode: CutReader.Mode, version: nat, sock: Socket, fs: Fs, conf: Config, ids: seq<nat>,
                         memory: nat -> bool, ghost dirname: bytes)
    returns (ok: bool, destFiles: Option<seq<bytes>>, names: Option<seq<bytes>>)
    requires fs.Valid() && Picks(fs.nodes, fs.cwd, ids, dirname) && NUL !in conf.cwdText
    modifies sock, fs
    ensures fs.Valid() && GrowsBelow(old(fs.nodes), fs.nodes, fs.cwd)
    ensures ok && destFiles.Some? && conf.cutSentFiles && (forall i: nat :: memory(i)) ==>
              (CutRoundTrip.ReadsBack(mode, true, destFiles.value) ==> names == destFiles)
    ensures destFiles.Some? && fs.cwd != [] && conf.cwdText == Walk.AbsPath(fs.cwd) ==>
              forall p :: p in destFiles.value ==>
                exists x :: fs.cwd + [x] in fs.nodes && p == Walk.AbsPath(fs.cwd + [x])
  {
    hide Picks, WellFormed, HasLanded, Accounted, GrowsBelow, BatchResult, Receivable, Outcome, NamesLanded,
         Walk.AbsPath, CutFiles.CutText, CutFiles.Granted, CutFiles.CutFits, CutRoundTrip.ReadsBack,
         CutRoundTrip.AllListable, CutRoundTrip.HasNoUrl;
    var clip;
    ghost var mid, moved, attempt;
    PickedIsLong(fs.nodes, fs.cwd, ids, dirname);
    ok, destFiles, clip, mid, moved, attempt := SendFilesDirs(version, sock, fs, conf, ids, memory, dirname);
    names := None;
    if destFiles.Some? {
      LandedAreListable(destFiles.value, conf.cwdText, mid, fs.nodes, TempPath(fs.cwd, dirname), fs.cwd, moved);
      SomeName(destFiles.value, conf.cwdText, moved);
    }
    if clip.Some? {
      if forall i: nat :: memory(i) { CutFiles.AllGranted(destFiles.value, memory); }
      names := PasteGranted(mode, clip.value, destFiles.value, memory);
    }
  }

  /** Nothing but the bytes in the selection is read. */
  method PasteGranted(mode: CutReader.Mode, clip: bytes, ghost paths: seq<bytes>, ghost memory: nat -> bool)
    returns (names: Option<seq<bytes>>)
    requires CutFiles.CutText(CutFiles.Granted(paths, memory)) + [NUL] <= clip && CutRoundTrip.AllListable(paths)
    ensures var listed := CutFiles.Granted(paths, memory);
            listed != [] && CutRoundTrip.ReadsBack(mode, true, listed) ==> names == Some(listed)
  {
    hide CutFiles.CutText, CutFiles.Granted, CutRoundTrip.ReadsBack, CutRoundTrip.HasNoUrl;
    CutRoundTrip.GrantedAreThere(paths, memory);
    names := CutRoundTrip.Paste(mode, clip, CutFiles.Granted(paths, memory));
  }

  lemma SomeName(paths: seq<bytes>, cwdText: bytes, moved: map<Name, Name>)
    requires NamesLanded(paths, cwdText, moved)
    ensures paths != []
  {
  }
}
