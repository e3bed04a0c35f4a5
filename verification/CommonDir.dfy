/** The length of the common directory, which comes from the first copied path and is applied to all of them. */
module CommonDir {
  import opened Bytes
  import opened Common
  import opened Paths
  import opened FileSystem
  import opened NetUtils
  import CutReader
  import Send
  import Walk

  /** Every copied path reaches to the end of the directory of the first one. */
  ghost predicate AllReach(roots: seq<Path>)
    requires roots != [] && roots[0] != []
  {
    forall i :: 0 <= i < |roots| ==> Walk.PathLength(roots[0]) <= |Walk.AbsPath(roots[i])|
  }

  lemma PrefixIsShorter(p: Path, q: Path)
    requires p <= q
    ensures |Walk.AbsPath(p)| <= |Walk.AbsPath(q)|
  {
    hide Join;
    var rest := q[|p|..];
    assert q == p + rest;
    if rest == [] {
      assert q == p;
    } else if p == [] {
      Walk.JoinOfNothing();
    } else {
      JoinConcat(p, rest);
    }
  }

  /** Then no name is looked for behind its path, whatever the walk lists. */
  lemma ListReaches(nodes: Nodes, roots: seq<Path>, leaf: bool, qs: seq<Path>, all: bool)
    requires roots != [] && roots[0] != [] && Walk.AllIn(nodes, qs)
    requires Walk.ListsRoots(nodes, roots, |roots|, leaf, qs, all)
    ensures AllReach(roots) ==> Send.LongEnough(Walk.EntryTexts(nodes, qs), Walk.PathLength(roots[0]))
  {
    hide Walk.PathLength, Walk.AbsPath, Walk.Listed, Walk.EntryText;
    if AllReach(roots) {
      forall j | 0 <= j < |qs| ensures Walk.PathLength(roots[0]) <= |Walk.EntryTexts(nodes, qs)[j]| {
        assert qs[j] in qs;
        var i :| 0 <= i < |roots| && Walk.Listed(nodes, roots[i], 1, leaf, qs[j]);
        EntryIsLonger(nodes, roots[i], leaf, qs[j]);
      }
    }
  }

  lemma EntryIsLonger(nodes: Nodes, root: Path, leaf: bool, q: Path)
    requires Walk.Listed(nodes, root, 1, leaf, q)
    ensures q in nodes && |Walk.AbsPath(root)| <= |Walk.EntryText(nodes, q)|
  {
    hide Join;
    PrefixIsShorter(root, q);
  }

  /** For a path that is a regular file the condition is necessary: the file itself is listed. */
  lemma FileMustReach(nodes: Nodes, roots: seq<Path>, leaf: bool, qs: seq<Path>, i: nat)
    requires roots != [] && roots[0] != [] && Walk.AllIn(nodes, qs)
    requires Walk.ListsRoots(nodes, roots, |roots|, leaf, qs, true)
    requires i < |roots| && roots[i] in nodes && nodes[roots[i]].File?
    ensures Send.LongEnough(Walk.EntryTexts(nodes, qs), Walk.PathLength(roots[0])) ==>
              Walk.PathLength(roots[0]) <= |Walk.AbsPath(roots[i])|
  {
    hide Walk.PathLength, Walk.AbsPath;
    assert Walk.Listed(nodes, roots[i], 1, leaf, roots[i]);
    assert Walk.CopiedBy(nodes, roots, |roots|, leaf, roots[i]);
    var j :| 0 <= j < |qs| && qs[j] == roots[i];
    assert Walk.EntryTexts(nodes, qs)[j] == Walk.AbsPath(roots[i]);
  }

  // ---------------------------------------------------------------- which entries can be sent

  /** The names are short, no entry is just the common directory, and no file is too large. */
  predicate Ordinary(nodes: Nodes, qs: seq<Path>, pathLen: nat, maxSize: int)
    requires Walk.AllIn(nodes, qs)
  {
    forall j :: 0 <= j < |qs| ==>
      && qs[j] != [] && |Walk.EntryText(nodes, qs[j])| <= MAX_FILE_NAME_LEN
      && |Walk.EntryText(nodes, qs[j])| != pathLen
      && (nodes[qs[j]].File? ==> |nodes[qs[j]].content| <= maxSize)
  }

  lemma EntryCanBeSent(nodes: Nodes, cwd: Path, version: nat, q: Path, pathLen: nat, maxSize: int)
    requires WellFormed(nodes) && q in nodes && q != [] && 2 <= version <= 4
    requires pathLen < |Walk.EntryText(nodes, q)| <= MAX_FILE_NAME_LEN
    requires nodes[q].File? ==> |nodes[q].content| <= maxSize
    ensures Send.SentRecord(nodes, cwd, version, Walk.EntryText(nodes, q), pathLen, maxSize).Some?
  {
    hide Join, WellFormed, Send.Framed, Locate;
    var text := Walk.EntryText(nodes, q);
    assert Attached(nodes, q) by { EntryIsAttached(nodes, q); }
    JoinIsNulFree(q);
    assert text[pathLen..][|text| - pathLen - 1] == text[|text| - 1];
    if nodes[q].File? {
      Walk.LocateAbsPath(nodes, cwd, q);
      assert text[|text| - 1] == Join(q)[|Join(q)| - 1];
    }
  }

  lemma EntryIsAttached(nodes: Nodes, q: Path)
    requires WellFormed(nodes) && q in nodes
    ensures Attached(nodes, q)
  {
  }

  /**
    * The exact condition for a list of entries that can otherwise be sent: no read leaves a path if and only if every
    * listed path reaches to the end of the common directory.
    */
  lemma StaysInsideIff(nodes: Nodes, cwd: Path, version: nat, qs: seq<Path>, pathLen: nat, maxSize: int)
    requires WellFormed(nodes) && Walk.AllIn(nodes, qs) && 2 <= version <= 4 && Ordinary(nodes, qs, pathLen, maxSize)
    ensures !Send.ReadsOff(nodes, cwd, version, Walk.EntryTexts(nodes, qs), pathLen, maxSize)
            <==> Send.LongEnough(Walk.EntryTexts(nodes, qs), pathLen)
  {
    hide Send.SentRecord, Send.ReadsOff, Walk.EntryText, WellFormed;
    var texts := Walk.EntryTexts(nodes, qs);
    Send.StaysInsideIff(nodes, cwd, version, texts, pathLen, maxSize);
    forall j | 0 <= j < |texts| && pathLen <= |texts[j]|
      ensures Send.SentRecord(nodes, cwd, version, texts[j], pathLen, maxSize).Some?
    {
      EntryCanBeSent(nodes, cwd, version, qs[j], pathLen, maxSize);
    }
  }

  /** On the copied paths, when they are regular files. */
  lemma FilesStayInsideIff(nodes: Nodes, cwd: Path, version: nat, roots: seq<Path>, leaf: bool, qs: seq<Path>,
                           maxSize: int)
    requires WellFormed(nodes) && Walk.AllIn(nodes, qs) && 2 <= version <= 4
    requires roots != [] && roots[0] != [] && Walk.ListsRoots(nodes, roots, |roots|, leaf, qs, true)
    requires forall i :: 0 <= i < |roots| ==> roots[i] in nodes && nodes[roots[i]].File?
    requires Ordinary(nodes, qs, Walk.PathLength(roots[0]), maxSize)
    ensures !Send.ReadsOff(nodes, cwd, version, Walk.EntryTexts(nodes, qs), Walk.PathLength(roots[0]), maxSize)
            <==> AllReach(roots)
  {
    hide Send.ReadsOff, Walk.EntryTexts, Walk.ListsRoots, WellFormed, Ordinary, Walk.PathLength, Walk.AbsPath,
         Send.LongEnough;
    StaysInsideIff(nodes, cwd, version, qs, Walk.PathLength(roots[0]), maxSize);
    ListReaches(nodes, roots, leaf, qs, true);
    forall i | 0 <= i < |roots|
      ensures Send.LongEnough(Walk.EntryTexts(nodes, qs), Walk.PathLength(roots[0])) ==>
                Walk.PathLength(roots[0]) <= |Walk.AbsPath(roots[i])|
    {
      FileMustReach(nodes, roots, leaf, qs, i);
    }
  }

  // ---------------------------------------------------------------- the code

  /**
    * get_files_v2 to get_files_v4 up to the acknowledgement: the walk, and the answer. If every copied path reaches
    * to the end of the directory of the first, no read leaves a path, whatever the network and the system do. If
    * nothing is refused, all paths are short and nothing else is in the way, exactly the lists with a path that is
    * too short are read behind it.
    */
  method GetFiles(version: nat, walk: Walk.DirWalk, sock: Socket, buf: array<byte>, maxSize: int, maxCount: nat,
                  ghost roots: seq<Path>)
    returns (ok: bool, overrun: bool, ghost qs: seq<Path>)
    requires walk.fs.Valid() && walk.lst == [] && 2 <= version <= 4 && IsInt64(maxSize) && maxCount <= 0xFFFF_FFFF
    requires buf.Length > 0 && buf[buf.Length - 1] == NUL && |roots| > 0 && Walk.CopiedPaths(roots)
    requires CutReader.HasHeader(CutReader.TextOf(buf[..])) ==>
               CutReader.NamesIn(CutReader.DirsToo, buf[..]) == Some(Walk.AbsPaths(roots))
    modifies walk, walk.fs`calls, buf, sock`sent, sock`calls, sock`open
    ensures Walk.AllIn(walk.fs.nodes, qs) && walk.lst == Walk.EntryTexts(walk.fs.nodes, qs)
    ensures AllReach(roots) ==> !overrun
    ensures old(sock.open) && sock.Reliable() && walk.fs.Healthy() && 0 < |qs| <= maxCount
            && Ordinary(walk.fs.nodes, qs, Walk.PathLength(roots[0]), maxSize) ==>
              (overrun <==> !Send.LongEnough(Walk.EntryTexts(walk.fs.nodes, qs), Walk.PathLength(roots[0])))
    ensures old(sock.sent) <= sock.sent
  {
    hide Walk.ListsRoots, Walk.EntryTexts, Walk.PathLength, Walk.CopiedPaths, Walk.AbsPath, Walk.RootsShort, WellFormed,
         CutReader.HasHeader, CutReader.NamesIn, Send.ReadsOff, Send.LongEnough, Send.SentBatch, Send.Sendable,
         Ordinary, AllReach, Send.Announced;
    Walk.FirstIsNamed(roots);
    var found, pathLen;
    found, pathLen, qs := walk.GetCopiedDirsFiles(buf, version >= 3, roots);
    ghost var nodes, texts := walk.fs.nodes, Walk.EntryTexts(walk.fs.nodes, qs);
    FromNothing(walk.lst, texts);
    if !found {
      NothingToRead(nodes, walk.fs.cwd, version, pathLen, maxSize);
    } else {
      ListReaches(nodes, roots, version >= 3, qs, walk.fs.Healthy() && Walk.RootsShort(nodes, roots));
      Send.StaysInsideIff(nodes, walk.fs.cwd, version, texts, pathLen, maxSize);
      if Ordinary(nodes, qs, pathLen, maxSize) { StaysInsideIff(nodes, walk.fs.cwd, version, qs, pathLen, maxSize); }
    }
    ok, overrun := Send.GetFilesCommon(version, sock, walk.fs, walk.lst, pathLen, maxSize, maxCount);
  }

  lemma NothingToRead(nodes: Nodes, cwd: Path, version: nat, pathLen: nat, maxSize: int)
    ensures !Send.ReadsOff(nodes, cwd, version, [], pathLen, maxSize)
  {
  }

  lemma FromNothing(lst: seq<bytes>, texts: seq<bytes>)
    requires lst == [] + texts
    ensures lst == texts
  {
  }

  // ---------------------------------------------------------------- an example

  /** "/aaaa/b" and "/c" */
  const FIRST_PATH: Path := [[97, 97, 97, 97], [98]]
  const SECOND_PATH: Path := [[99]]

  /** Two copied files: the directory of the first has six bytes, the path of the second has two. */
  lemma ShortPathReadsOff(nodes: Nodes, cwd: Path, version: nat, qs: seq<Path>, maxSize: int)
    requires WellFormed(nodes) && Walk.AllIn(nodes, qs) && 2 <= version <= 4
    requires FIRST_PATH in nodes && nodes[FIRST_PATH].File? && |nodes[FIRST_PATH].content| <= maxSize
    requires SECOND_PATH in nodes && nodes[SECOND_PATH].File? && |nodes[SECOND_PATH].content| <= maxSize
    requires Walk.ListsRoots(nodes, [FIRST_PATH, SECOND_PATH], 2, true, qs, true)
    ensures Walk.CopiedPaths([FIRST_PATH, SECOND_PATH])
    ensures Walk.PathLength(FIRST_PATH) == 6 && |Walk.EntryText(nodes, SECOND_PATH)| == 2
    ensures Send.ReadsOff(nodes, cwd, version, Walk.EntryTexts(nodes, qs), 6, maxSize)
  {
    hide WellFormed, Send.ReadsOff, Walk.ListsRoots, Walk.EntryTexts;
    var roots := [FIRST_PATH, SECOND_PATH];
    PathsOfExample();
    OnlyTheTwo(nodes, qs);
    FilesStayInsideIff(nodes, cwd, version, roots, true, qs, maxSize);
    assert !(Walk.PathLength(roots[0]) <= |Walk.AbsPath(roots[1])|);
  }

  lemma PathsOfExample()
    ensures Walk.AbsPath(FIRST_PATH) == [SLASH, 97, 97, 97, 97, SLASH, 98] && Walk.AbsPath(SECOND_PATH) == [SLASH, 99]
    ensures Walk.PathLength(FIRST_PATH) == 6
    ensures Walk.CopiedPaths([FIRST_PATH, SECOND_PATH])
  {
    assert FIRST_PATH[..1] == [[97, 97, 97, 97]] && Parent(FIRST_PATH) == FIRST_PATH[..1];
    assert Join(FIRST_PATH[..1]) == [97, 97, 97, 97];
    assert !(FIRST_PATH <= SECOND_PATH) && !(SECOND_PATH <= FIRST_PATH) by { assert SECOND_PATH[0] != FIRST_PATH[0]; }
  }

  lemma OnlyTheTwo(nodes: Nodes, qs: seq<Path>)
    requires WellFormed(nodes) && Walk.AllIn(nodes, qs)
    requires FIRST_PATH in nodes && nodes[FIRST_PATH].File? && SECOND_PATH in nodes && nodes[SECOND_PATH].File?
    requires Walk.ListsRoots(nodes, [FIRST_PATH, SECOND_PATH], 2, true, qs, true)
    ensures forall j :: 0 <= j < |qs| ==> qs[j] == FIRST_PATH || qs[j] == SECOND_PATH
  {
    forall j | 0 <= j < |qs| ensures qs[j] == FIRST_PATH || qs[j] == SECOND_PATH {
      assert qs[j] in qs;
      if FIRST_PATH <= qs[j] && qs[j] != FIRST_PATH { Walk.NothingBelowFile(nodes, FIRST_PATH, qs[j]); }
      if SECOND_PATH <= qs[j] && qs[j] != SECOND_PATH { Walk.NothingBelowFile(nodes, SECOND_PATH, qs[j]); }
    }
  }
}
