/** The recursive directory listing of src/utils/utils.c, lines 606 to 736. */
module Walk {
  import opened Bytes
  import opened Common
  import opened Paths
  import opened FileSystem
  import CutReader

  const MAX_RECURSE_DEPTH := 256

  // ---------------------------------------------------------------- the texts of paths

  function AbsPath(p: Path): bytes { [SLASH] + Join(p) }

  /** The path with the separator after it. */
  function DirText(p: Path): bytes {
    if p == [] then AbsPath(p) else AbsPath(p) + [SLASH]
  }

  lemma DirTextIs(p: Path)
    requires p != []
    ensures DirText(p) == AbsPath(p) + [SLASH]
  {
  }

  lemma ChildText(p: Path, n: Name)
    ensures AbsPath(p + [n]) == DirText(p) + n
  {
    assert (p + [n])[..|p|] == p;
    if p == [] { assert Join([n]) == n; }
  }

  lemma LocateAbsPath(nodes: Nodes, cwd: Path, p: Path)
    requires WellFormed(nodes) && p in nodes
    ensures Locate(nodes, cwd, AbsPath(p)) == Some(p) && NUL !in AbsPath(p)
  {
    hide Split, Join;
    assert Attached(nodes, p);
    JoinIsNulFree(p);
    assert AbsPath(p) == [] + [SLASH] + Join(p);
    SplitConcat(SLASH, [], Join(p));
    SplitClean(SLASH, []);
    if p == [] {
      SplitClean(SLASH, []);
      JoinOfNothing();
      var empty: bytes := [];
      assert Split(SLASH, AbsPath(p)) == [empty, empty];
      assert [empty, empty][1..] == [empty] && [empty][1..] == [];
      assert Resolve(nodes, [], [empty]) == Some([]);
    } else {
      SplitOfJoin(p);
      assert Split(SLASH, AbsPath(p)) == [[]] + p;
      forall k | 0 <= k < |p| ensures IsDir(nodes, [] + p[..k]) {
        PrefixIsDir(nodes, p, k);
        assert [] + p[..k] == p[..k];
      }
      ResolveLegal(nodes, [], p);
      assert ([[]] + p)[1..] == p && [] + p == p;
    }
  }

  lemma JoinOfNothing()
    ensures Join([]) == []
  {
  }

  // ---------------------------------------------------------------- what is listed

  /** A regular file, or with `leaf` a directory that holds nothing. */
  predicate Shown(nodes: Nodes, q: Path, leaf: bool) {
    q in nodes && (nodes[q].Dir? ==> leaf && forall r :: r in nodes ==> !(q < r))
  }

  /** A directory that is `k` levels down is opened at depth `depth + k`; a file is found by its directory. */
  predicate InReach(nodes: Nodes, p: Path, depth: nat, q: Path)
    requires q in nodes
  {
    |q| - |p| + depth <= MAX_RECURSE_DEPTH + (if nodes[q].File? then 1 else 0)
  }

  /** What a walk that opens `p` at this depth lists. */
  predicate Listed(nodes: Nodes, p: Path, depth: nat, leaf: bool, q: Path) {
    p <= q && Shown(nodes, q, leaf) && InReach(nodes, p, depth, q)
  }

  /** How an entry is listed: directories end with the separator. */
  function EntryText(nodes: Nodes, q: Path): bytes
    requires q in nodes
  {
    if nodes[q].Dir? then DirText(q) else AbsPath(q)
  }

  predicate AllIn(nodes: Nodes, qs: seq<Path>) {
    forall i :: 0 <= i < |qs| ==> qs[i] in nodes
  }

  function EntryTexts(nodes: Nodes, qs: seq<Path>): (r: seq<bytes>)
    requires AllIn(nodes, qs)
    ensures |r| == |qs| && forall i :: 0 <= i < |qs| ==> r[i] == EntryText(nodes, qs[i])
  {
    seq(|qs|, i requires 0 <= i < |qs| => EntryText(nodes, qs[i]))
  }

  /** No path below `p` is longer than the buffers. */
  predicate AllShort(nodes: Nodes, p: Path) {
    forall q :: q in nodes && p <= q ==> |AbsPath(q)| <= MAX_FILE_NAME_LEN
  }

  /** Exactly the entries to be listed, each once; `all` tells whether none may be missing. */
  ghost predicate Lists(nodes: Nodes, p: Path, depth: nat, leaf: bool, qs: seq<Path>, all: bool) {
    && NoDuplicates(qs) && (forall q :: q in qs ==> Listed(nodes, p, depth, leaf, q))
    && (all ==> forall q :: Listed(nodes, p, depth, leaf, q) ==> q in qs)
  }

  /** The same for the entries below the first `i` names of the directory `p`, which are visited one level down. */
  ghost predicate ListsChildren(nodes: Nodes, p: Path, names: seq<Name>, i: nat, depth: nat, leaf: bool, qs: seq<Path>,
                                all: bool)
    requires i <= |names|
  {
    && NoDuplicates(qs)
    && (forall q :: q in qs ==> Listed(nodes, p, depth, leaf, q) && p < q && q[|p|] in names[..i])
    && (all ==> forall q :: Listed(nodes, p, depth, leaf, q) && p < q && q[|p|] in names[..i] ==> q in qs)
  }

  lemma ChildIsListed(nodes: Nodes, p: Path, n: Name, depth: nat, leaf: bool, q: Path)
    requires p + [n] <= q
    ensures Listed(nodes, p + [n], depth + 1, leaf, q) <==> Listed(nodes, p, depth, leaf, q)
  {
    assert p <= q;
  }

  lemma OneMoreChild(nodes: Nodes, p: Path, names: seq<Name>, i: nat, depth: nat, leaf: bool, qs: seq<Path>,
                     more: seq<Path>, all: bool)
    requires i < |names| && NoDuplicates(names) && ListsChildren(nodes, p, names, i, depth, leaf, qs, all)
    requires Lists(nodes, p + [names[i]], depth + 1, leaf, more, all)
    ensures ListsChildren(nodes, p, names, i + 1, depth, leaf, qs + more, all)
  {
    var c := p + [names[i]];
    var done := names[..i];
    assert names[..i + 1] == done + [names[i]] && names[i] !in done;
    forall q | q in more ensures Listed(nodes, p, depth, leaf, q) && p < q && q[|p|] == names[i] && q !in qs {
      ChildIsListed(nodes, p, names[i], depth, leaf, q);
    }
    NoDuplicatesConcat(qs, more);
    forall q | all && Listed(nodes, p, depth, leaf, q) && p < q && q[|p|] in names[..i + 1] ensures q in qs + more {
      if q[|p|] == names[i] {
        assert c <= q;
        ChildIsListed(nodes, p, names[i], depth, leaf, q);
      }
    }
    hide Listed;
  }

  /** The entries of one more name were visited. */
  lemma ChildStep(nodes: Nodes, p: Path, names: seq<Name>, i: nat, depth: nat, leaf: bool, qs: seq<Path>,
                  more: seq<Path>, healthy: bool)
    requires i < |names| && NoDuplicates(names)
    requires ListsChildren(nodes, p, names, i, depth, leaf, qs, healthy && AllShort(nodes, p))
    requires Lists(nodes, p + [names[i]], depth + 1, leaf, more, healthy && AllShort(nodes, p + [names[i]]))
    ensures ListsChildren(nodes, p, names, i + 1, depth, leaf, qs + more, healthy && AllShort(nodes, p))
  {
    hide Lists, ListsChildren, AllShort;
    var c := p + [names[i]];
    ShortBelow(nodes, p, c);
    WeakerList(nodes, c, depth + 1, leaf, more, healthy && AllShort(nodes, c), healthy && AllShort(nodes, p));
    OneMoreChild(nodes, p, names, i, depth, leaf, qs, more, healthy && AllShort(nodes, p));
  }

  lemma NoTexts(nodes: Nodes)
    ensures AllIn(nodes, []) && EntryTexts(nodes, []) == []
  {
  }

  lemma NoChildren(nodes: Nodes, p: Path, names: seq<Name>, depth: nat, leaf: bool, all: bool)
    ensures ListsChildren(nodes, p, names, 0, depth, leaf, [], all)
  {
    assert names[..0] == [];
  }

  lemma NameInDir(nodes: Nodes, p: Path, names: seq<Name>, i: nat)
    requires ListsDir(nodes, p, names) && i < |names|
    ensures NoDuplicates(names) && p + [names[i]] in nodes && AbsPath(p + [names[i]]) == DirText(p) + names[i]
  {
    assert names[i] in names;
    ChildText(p, names[i]);
  }

  lemma TextsConcat(nodes: Nodes, qs: seq<Path>, more: seq<Path>)
    requires AllIn(nodes, qs) && AllIn(nodes, more)
    ensures AllIn(nodes, qs + more) && EntryTexts(nodes, qs + more) == EntryTexts(nodes, qs) + EntryTexts(nodes, more)
  {
    hide EntryText;
  }

  /** When every name was visited, the directory itself is all that can be missing. */
  lemma AllChildren(nodes: Nodes, p: Path, names: seq<Name>, depth: nat, leaf: bool, qs: seq<Path>, all: bool)
    requires WellFormed(nodes) && IsDir(nodes, p) && ListsDir(nodes, p, names) && depth <= MAX_RECURSE_DEPTH
    requires ListsChildren(nodes, p, names, |names|, depth, leaf, qs, all)
    ensures Lists(nodes, p, depth, leaf, if leaf && names == [] then qs + [p] else qs, all)
  {
    assert names[..|names|] == names;
    forall q | q in nodes && p < q ensures q[|p|] in names {
      PrefixIsEntry(nodes, q, p + [q[|p|]]);
    }
    if names != [] {
      assert names[0] in names && p < p + [names[0]];
    }
    assert Listed(nodes, p, depth, leaf, p) <==> leaf && names == [];
    forall q | Listed(nodes, p, depth, leaf, q) ensures p < q || q == p {
    }
    hide Shown, InReach;
  }

  lemma TooDeep(nodes: Nodes, p: Path, depth: nat, leaf: bool)
    requires IsDir(nodes, p) && depth > MAX_RECURSE_DEPTH
    ensures Lists(nodes, p, depth, leaf, [], true)
  {
    forall q | p <= q && q in nodes && nodes[q].File? ensures |q| > |p| {
      assert q != p;
    }
  }

  // ---------------------------------------------------------------- the code

  /** The walk and the list it appends to. */
  class DirWalk {
    const fs: Fs
    var lst: seq<bytes>

    constructor (fs: Fs)
      ensures this.fs == fs && lst == []
    {
      this.fs, lst := fs, [];
    }

    /** append; a call that the system refuses leaves the list as it is. */
    method Append(text: bytes, ghost q: Path) returns (ghost qs: seq<Path>)
      requires q in fs.nodes && text == EntryText(fs.nodes, q)
      modifies this`lst, fs`calls
      ensures qs == [q] || (qs == [] && !fs.Healthy())
      ensures AllIn(fs.nodes, qs) && lst == old(lst) + EntryTexts(fs.nodes, qs)
    {
      var refused := fs.Refuses();
      qs := [];
      if !refused {
        lst := lst + [text];
        qs := [q];
      }
    }

    /** _process_path on the entry `q`, found while the walk was at `depth`. */
    method ProcessPath(path: bytes, depth: nat, leaf: bool, ghost q: Path) returns (ghost qs: seq<Path>)
      requires fs.Valid() && q in fs.nodes && path == AbsPath(q) && depth <= MAX_RECURSE_DEPTH
      modifies this`lst, fs`calls
      ensures AllIn(fs.nodes, qs) && lst == old(lst) + EntryTexts(fs.nodes, qs)
      ensures Lists(fs.nodes, q, depth + 1, leaf, qs, fs.Healthy() && AllShort(fs.nodes, q))
      decreases MAX_RECURSE_DEPTH + 1 - depth, 0
    {
      LocateAbsPath(fs.nodes, fs.cwd, q);
      qs := [];
      var refused := fs.Refuses();
      if refused { return; }
      var isDir := fs.IsDirectory(path);
      if isDir {
        qs := RecurseDir(path, depth + 1, leaf, q);
      } else {
        qs := Append(path, q);
        FileAlone(fs.nodes, q, depth, leaf);
        MaybeListed(fs.nodes, q, depth + 1, leaf, qs, fs.Healthy(), AllShort(fs.nodes, q));
      }
    }

    /** _recurse_dir on the directory `p`. */
    method RecurseDir(path: bytes, depth: nat, leaf: bool, ghost p: Path) returns (ghost qs: seq<Path>)
      requires fs.Valid() && IsDir(fs.nodes, p) && path == AbsPath(p) && depth <= MAX_RECURSE_DEPTH + 1
      modifies this`lst, fs`calls
      ensures AllIn(fs.nodes, qs) && lst == old(lst) + EntryTexts(fs.nodes, qs)
      ensures Lists(fs.nodes, p, depth, leaf, qs, fs.Healthy() && AllShort(fs.nodes, p))
      decreases MAX_RECURSE_DEPTH + 1 - depth, 2
    {
      hide Lists, ListsChildren, ListsDir, AllShort, WellFormed;
      qs := [];
      if depth > MAX_RECURSE_DEPTH {
        TooDeep(fs.nodes, p, depth, leaf);
        WeakerList(fs.nodes, p, depth, leaf, qs, true, fs.Healthy() && AllShort(fs.nodes, p));
        return;
      }
      LocateAbsPath(fs.nodes, fs.cwd, p);
      NothingListed(fs.nodes, p, depth, leaf);
      var names := fs.ReadDir(path);
      if names.None? { return; }
      if |path| > MAX_FILE_NAME_LEN {
        LongPath(fs.nodes, p, p);
        return;
      }
      var dirText := if path[|path| - 1] != SLASH then path + [SLASH] else path;
      SlashAtEnd(fs.nodes, p);
      var finished;
      qs, finished := VisitNames(dirText, names.value, depth, leaf, p);
      if !finished { return; }
      AllChildren(fs.nodes, p, names.value, depth, leaf, qs, fs.Healthy() && AllShort(fs.nodes, p));
      if leaf && names.value == [] {
        ghost var last := Append(dirText, p);
        LastListed(fs.nodes, p, depth, leaf, qs, last, fs.Healthy(), AllShort(fs.nodes, p));
        TextsConcat(fs.nodes, qs, last);
        qs := qs + last;
      }
    }

    /** The readdir loop; it gives up at the first path that is too long. */
    method VisitNames(dirText: bytes, names: seq<Name>, depth: nat, leaf: bool, ghost p: Path)
      returns (ghost qs: seq<Path>, finished: bool)
      requires fs.Valid() && IsDir(fs.nodes, p) && dirText == DirText(p) && depth <= MAX_RECURSE_DEPTH
      requires ListsDir(fs.nodes, p, names)
      modifies this`lst, fs`calls
      ensures AllIn(fs.nodes, qs) && lst == old(lst) + EntryTexts(fs.nodes, qs)
      ensures finished ==>
                ListsChildren(fs.nodes, p, names, |names|, depth, leaf, qs, fs.Healthy() && AllShort(fs.nodes, p))
      ensures !finished ==> Lists(fs.nodes, p, depth, leaf, qs, fs.Healthy() && AllShort(fs.nodes, p))
      decreases MAX_RECURSE_DEPTH + 1 - depth, 1
    {
      hide Lists, ListsChildren, AllShort, WellFormed, AllIn, EntryTexts;
      qs := [];
      NoTexts(fs.nodes);
      NoChildren(fs.nodes, p, names, depth, leaf, fs.Healthy() && AllShort(fs.nodes, p));
      for i := 0 to |names|
        invariant AllIn(fs.nodes, qs) && lst == old(lst) + EntryTexts(fs.nodes, qs)
        invariant ListsChildren(fs.nodes, p, names, i, depth, leaf, qs, fs.Healthy() && AllShort(fs.nodes, p))
      {
        ghost var c := p + [names[i]];
        NameInDir(fs.nodes, p, names, i);
        if |dirText| + |names[i]| > MAX_FILE_NAME_LEN {
          LongPath(fs.nodes, p, c);
          SomeChildren(fs.nodes, p, names, i, depth, leaf, qs);
          return qs, false;
        }
        ghost var more := ProcessPath(dirText + names[i], depth, leaf, c);
        ChildStep(fs.nodes, p, names, i, depth, leaf, qs, more, fs.Healthy());
        TextsConcat(fs.nodes, qs, more);
        qs := qs + more;
      }
      finished := true;
    }

    /**
      * get_copied_dirs_files on the text of the selection: it is split and decoded in `buf`, and every name is
      * listed. The first name alone determines the length of the common directory.
      */
    method GetCopiedDirsFiles(buf: array<byte>, leaf: bool, ghost roots: seq<Path>)
      returns (found: bool, pathLen: nat, ghost qs: seq<Path>)
      requires fs.Valid() && buf.Length > 0 && buf[buf.Length - 1] == NUL && |roots| > 0 && CopiedPaths(roots)
      requires CutReader.HasHeader(CutReader.TextOf(buf[..])) ==>
                 CutReader.NamesIn(CutReader.DirsToo, buf[..]) == Some(AbsPaths(roots))
      modifies this`lst, fs`calls, buf
      ensures found <==> CutReader.HasHeader(CutReader.TextOf(old(buf[..])))
      ensures found ==> pathLen == PathLength(roots[0])
      ensures found ==> pathLen == if |roots[0]| == 1 then 0 else |Join(roots[0][..|roots[0]| - 1])| + 2
      ensures !found ==> qs == []
      ensures AllIn(fs.nodes, qs) && lst == old(lst) + EntryTexts(fs.nodes, qs)
      ensures found ==> ListsRoots(fs.nodes, roots, |roots|, leaf, qs, fs.Healthy() && RootsShort(fs.nodes, roots))
      ensures NoDuplicates(qs) && forall q :: q in qs ==> BelongsToSome(fs.nodes, roots, leaf, q)
      ensures found && fs.Healthy() && RootsShort(fs.nodes, roots) ==>
                forall q :: BelongsToSome(fs.nodes, roots, leaf, q) ==> q in qs
      ensures lst[..|old(lst)|] == old(lst) && AreTexts(fs.nodes, qs, lst[|old(lst)|..])
    {
      hide CutReader.NamesIn, CutReader.HasHeader, CutReader.TextOf, ListsRoots, RootsShort, WellFormed, PathLength,
           AllIn, EntryTexts, CopiedPaths, AbsPath, BelongsToSome, AreTexts;
      var overrun, names;
      qs, pathLen := [], 0;
      NoTexts(fs.nodes);
      TextsOfListed(fs.nodes, qs);
      found, overrun, names := CutReader.CopiedNames(CutReader.DirsToo, buf);
      if !found { return; }
      pathLen, qs := WalkNames(names, leaf, roots);
      LengthIs(roots);
      RootsOnce(fs.nodes, roots, leaf, qs, fs.Healthy() && RootsShort(fs.nodes, roots));
      ListedBelong(fs.nodes, roots, leaf, qs, fs.Healthy() && RootsShort(fs.nodes, roots));
      TextsOfListed(fs.nodes, qs);
    }

    /** The loop over the names. */
    method WalkNames(fnames: seq<bytes>, leaf: bool, ghost roots: seq<Path>) returns (pathLen: nat, ghost qs: seq<Path>)
      requires fs.Valid() && |roots| > 0 && CopiedPaths(roots) && fnames == AbsPaths(roots)
      modifies this`lst, fs`calls
      ensures pathLen == PathLength(roots[0])
      ensures AllIn(fs.nodes, qs) && lst == old(lst) + EntryTexts(fs.nodes, qs)
      ensures ListsRoots(fs.nodes, roots, |roots|, leaf, qs, fs.Healthy() && RootsShort(fs.nodes, roots))
    {
      hide Lists, ListsRoots, AllShort, RootsShort, WellFormed, AbsPath, PathLength, Apart, AllIn, EntryTexts;
      pathLen := CommonLength(fnames[0], roots[0]);
      qs := [];
      NoTexts(fs.nodes);
      NoRoots(fs.nodes, roots, leaf, fs.Healthy() && RootsShort(fs.nodes, roots));
      for i := 0 to |fnames|
        invariant AllIn(fs.nodes, qs) && lst == old(lst) + EntryTexts(fs.nodes, qs)
        invariant ListsRoots(fs.nodes, roots, i, leaf, qs, fs.Healthy() && RootsShort(fs.nodes, roots))
      {
        ghost var more := AddRoot(fnames[i], leaf, roots[i]);
        RootStep(fs.nodes, roots, i, leaf, qs, more, fs.Healthy());
        TextsConcat(fs.nodes, qs, more);
        qs := qs + more;
      }
    }

    /** What it does with the first name: the length up to the separator before its last component. */
    static method CommonLength(first: bytes, ghost root: Path) returns (pathLen: nat)
      requires LegalPath(root) && root != [] && first == AbsPath(root)
      ensures pathLen == PathLength(root)
    {
      pathLen := 0;
      SeparatorOfPath(root);
      LastSlashIs(first, |DirText(Parent(root))| - 1);
      if LastSlash(first) > 0 { pathLen := LastSlash(first) + 1; }
    }

    /** One turn of its loop: stat, then a walk for a directory, or the path itself for a file. */
    method AddRoot(fname: bytes, leaf: bool, ghost root: Path) returns (ghost qs: seq<Path>)
      requires fs.Valid() && LegalPath(root) && root != [] && fname == AbsPath(root)
      modifies this`lst, fs`calls
      ensures AllIn(fs.nodes, qs) && lst == old(lst) + EntryTexts(fs.nodes, qs)
      ensures Lists(fs.nodes, root, 1, leaf, qs, fs.Healthy() && AllShort(fs.nodes, root))
    {
      hide Lists, AllShort, WellFormed;
      qs := [];
      NothingListed(fs.nodes, root, 1, leaf);
      var refused := fs.Refuses();
      if refused { return; }
      var there := fs.FileExists(fname);
      if !there {
        if root in fs.nodes { LocateAbsPath(fs.nodes, fs.cwd, root); }
        AbsentRoot(fs.nodes, fs.cwd, root, leaf, fs.Healthy() && AllShort(fs.nodes, root));
        return;
      }
      if root !in fs.nodes { AbsentRoot(fs.nodes, fs.cwd, root, leaf, true); }
      LocateAbsPath(fs.nodes, fs.cwd, root);
      var isDir := fs.IsDirectory(fname);
      if isDir {
        qs := RecurseDir(fname, 1, leaf, root);
      } else {
        qs := Append(fname, root);
        FileAlone(fs.nodes, root, 0, leaf);
        MaybeListed(fs.nodes, root, 1, leaf, qs, fs.Healthy(), AllShort(fs.nodes, root));
      }
    }
  }

  function AbsPaths(roots: seq<Path>): (r: seq<bytes>)
    ensures |r| == |roots| && forall i :: 0 <= i < |roots| ==> r[i] == AbsPath(roots[i])
  {
    seq(|roots|, i requires 0 <= i < |roots| => AbsPath(roots[i]))
  }

  /** What a user can have copied: named entries, none of which lies below another. */
  predicate CopiedPaths(roots: seq<Path>) {
    Apart(roots) && forall i :: 0 <= i < |roots| ==> roots[i] != [] && LegalPath(roots[i])
  }

  lemma FirstIsNamed(roots: seq<Path>)
    requires |roots| > 0 && CopiedPaths(roots)
    ensures roots[0] != []
  {
  }

  predicate RootsShort(nodes: Nodes, roots: seq<Path>) {
    forall i :: 0 <= i < |roots| ==> AllShort(nodes, roots[i])
  }

  lemma RootStep(nodes: Nodes, roots: seq<Path>, n: nat, leaf: bool, qs: seq<Path>, more: seq<Path>, healthy: bool)
    requires n < |roots| && Apart(roots) && ListsRoots(nodes, roots, n, leaf, qs, healthy && RootsShort(nodes, roots))
    requires Lists(nodes, roots[n], 1, leaf, more, healthy && AllShort(nodes, roots[n]))
    ensures ListsRoots(nodes, roots, n + 1, leaf, qs + more, healthy && RootsShort(nodes, roots))
  {
    hide Lists, ListsRoots, Apart, AllShort;
    WeakerList(nodes, roots[n], 1, leaf, more, healthy && AllShort(nodes, roots[n]),
               healthy && RootsShort(nodes, roots));
    OneMoreRoot(nodes, roots, n, leaf, qs, more, healthy && RootsShort(nodes, roots));
  }

  lemma NoRoots(nodes: Nodes, roots: seq<Path>, leaf: bool, all: bool)
    ensures ListsRoots(nodes, roots, 0, leaf, [], all)
  {
  }

  lemma FileAlone(nodes: Nodes, q: Path, depth: nat, leaf: bool)
    requires WellFormed(nodes) && q in nodes && nodes[q].File? && depth <= MAX_RECURSE_DEPTH
    ensures Lists(nodes, q, depth + 1, leaf, [q], true)
  {
    forall r | Listed(nodes, q, depth + 1, leaf, r) ensures r in [q] {
      NothingBelowFile(nodes, q, r);
    }
  }

  /** An entry that was appended, or refused. */
  lemma MaybeListed(nodes: Nodes, q: Path, depth: nat, leaf: bool, qs: seq<Path>, healthy: bool, short: bool)
    requires Lists(nodes, q, depth, leaf, [q], true) && (qs == [q] || (qs == [] && !healthy))
    ensures Lists(nodes, q, depth, leaf, qs, healthy && short)
  {
  }

  lemma LastListed(nodes: Nodes, p: Path, depth: nat, leaf: bool, qs: seq<Path>, last: seq<Path>, healthy: bool,
                   short: bool)
    requires Lists(nodes, p, depth, leaf, qs + [p], healthy && short) && (last == [p] || (last == [] && !healthy))
    ensures Lists(nodes, p, depth, leaf, qs + last, healthy && short)
  {
    var all := qs + [p];
    if last == [] {
      assert forall i :: 0 <= i < |qs| ==> qs[i] == all[i] && all[i] in all;
      assert qs + last == qs;
    }
  }

  lemma NothingBelowFile(nodes: Nodes, q: Path, r: Path)
    requires WellFormed(nodes) && q in nodes && nodes[q].File? && r in nodes && q <= r
    ensures r == q
  {
    assert r[..|q|] == q;
    if |q| < |r| { PrefixIsDir(nodes, r, |q|); }
  }

  lemma NothingListed(nodes: Nodes, p: Path, depth: nat, leaf: bool)
    ensures Lists(nodes, p, depth, leaf, [], false)
  {
  }

  lemma LongPath(nodes: Nodes, p: Path, q: Path)
    requires q in nodes && p <= q && |AbsPath(q)| > MAX_FILE_NAME_LEN
    ensures !AllShort(nodes, p)
  {
  }

  lemma ShortBelow(nodes: Nodes, p: Path, c: Path)
    requires p <= c
    ensures AllShort(nodes, p) ==> AllShort(nodes, c)
  {
  }

  lemma WeakerList(nodes: Nodes, p: Path, depth: nat, leaf: bool, qs: seq<Path>, all: bool, some: bool)
    requires Lists(nodes, p, depth, leaf, qs, all) && (some ==> all)
    ensures Lists(nodes, p, depth, leaf, qs, some)
  {
  }

  lemma SomeChildren(nodes: Nodes, p: Path, names: seq<Name>, i: nat, depth: nat, leaf: bool, qs: seq<Path>)
    requires i <= |names| && ListsChildren(nodes, p, names, i, depth, leaf, qs, false)
    ensures Lists(nodes, p, depth, leaf, qs, false)
  {
  }

  lemma SlashAtEnd(nodes: Nodes, p: Path)
    requires WellFormed(nodes) && p in nodes
    ensures AbsPath(p)[|AbsPath(p)| - 1] == SLASH <==> p == []
  {
    assert Attached(nodes, p);
    JoinIsNulFree(p);
  }

  // ---------------------------------------------------------------- the copied files and directories

  /** None of the copied paths lies below another. */
  predicate Apart(roots: seq<Path>) {
    forall i, j :: 0 <= i < |roots| && 0 <= j < |roots| && i != j ==> !(roots[i] <= roots[j])
  }

  /** `q` is listed because of one of the first `n` copied paths. */
  predicate CopiedBy(nodes: Nodes, roots: seq<Path>, n: nat, leaf: bool, q: Path)
    requires n <= |roots|
  {
    exists i :: 0 <= i < n && Listed(nodes, roots[i], 1, leaf, q)
  }

  ghost predicate ListsRoots(nodes: Nodes, roots: seq<Path>, n: nat, leaf: bool, qs: seq<Path>, all: bool)
    requires n <= |roots|
  {
    && NoDuplicates(qs) && (forall q :: q in qs ==> CopiedBy(nodes, roots, n, leaf, q))
    && (all ==> forall q :: CopiedBy(nodes, roots, n, leaf, q) ==> q in qs)
  }

  /** A file at most 256 levels below, or, if asked for, a directory without entries at most 255 levels below. */
  ghost predicate Belongs(nodes: Nodes, root: Path, leaf: bool, q: Path) {
    && root <= q && q in nodes
    && match nodes[q]
       case File(_) => |q| - |root| <= 256
       case Dir => leaf && |q| - |root| <= 255 && !exists r :: r in nodes && q < r
  }

  ghost predicate BelongsToSome(nodes: Nodes, roots: seq<Path>, leaf: bool, q: Path) {
    exists i :: 0 <= i < |roots| && Belongs(nodes, roots[i], leaf, q)
  }

  /** The texts are the absolute paths, with a separator at the end of a directory. */
  ghost predicate AreTexts(nodes: Nodes, qs: seq<Path>, texts: seq<bytes>) {
    |texts| == |qs|
    && forall i :: 0 <= i < |qs| ==> qs[i] in nodes && IsText(texts[i], qs[i], nodes[qs[i]].Dir? && qs[i] != [])
  }

  predicate IsText(text: bytes, q: Path, slash: bool) {
    text == [SLASH] + Join(q) + if slash then [SLASH] else []
  }

  lemma ListedBelong(nodes: Nodes, roots: seq<Path>, leaf: bool, qs: seq<Path>, all: bool)
    requires ListsRoots(nodes, roots, |roots|, leaf, qs, all)
    ensures forall q :: q in qs ==> BelongsToSome(nodes, roots, leaf, q)
    ensures all ==> forall q :: BelongsToSome(nodes, roots, leaf, q) ==> q in qs
  {
    forall q ensures CopiedBy(nodes, roots, |roots|, leaf, q) <==> BelongsToSome(nodes, roots, leaf, q) {
      forall i | 0 <= i < |roots| ensures Listed(nodes, roots[i], 1, leaf, q) <==> Belongs(nodes, roots[i], leaf, q) {}
    }
  }

  lemma LengthIs(roots: seq<Path>)
    requires |roots| > 0 && CopiedPaths(roots)
    ensures roots[0] != []
    ensures PathLength(roots[0]) == if |roots[0]| == 1 then 0 else |Join(roots[0][..|roots[0]| - 1])| + 2
  {
  }

  lemma RootsOnce(nodes: Nodes, roots: seq<Path>, leaf: bool, qs: seq<Path>, all: bool)
    requires ListsRoots(nodes, roots, |roots|, leaf, qs, all)
    ensures NoDuplicates(qs)
  {
  }

  lemma TextsOfListed(nodes: Nodes, qs: seq<Path>)
    requires AllIn(nodes, qs)
    ensures AreTexts(nodes, qs, EntryTexts(nodes, qs))
  {
    hide Join;
    forall i | 0 <= i < |qs| ensures IsText(EntryText(nodes, qs[i]), qs[i], nodes[qs[i]].Dir? && qs[i] != []) {
      var text := [SLASH] + Join(qs[i]);
      assert text + [] == text;
    }
  }

  lemma OneMoreRoot(nodes: Nodes, roots: seq<Path>, n: nat, leaf: bool, qs: seq<Path>, more: seq<Path>, all: bool)
    requires n < |roots| && Apart(roots) && ListsRoots(nodes, roots, n, leaf, qs, all)
    requires Lists(nodes, roots[n], 1, leaf, more, all)
    ensures ListsRoots(nodes, roots, n + 1, leaf, qs + more, all)
  {
    forall q | q in more ensures CopiedBy(nodes, roots, n + 1, leaf, q) && q !in qs {
      if q in qs {
        var i :| 0 <= i < n && Listed(nodes, roots[i], 1, leaf, q);
        TwoPrefixes(roots[i], roots[n], q);
      }
    }
    NoDuplicatesConcat(qs, more);
    forall q | q in qs ensures CopiedBy(nodes, roots, n + 1, leaf, q) {
      var i :| 0 <= i < n && Listed(nodes, roots[i], 1, leaf, q);
    }
    forall q | all && CopiedBy(nodes, roots, n + 1, leaf, q) ensures q in qs + more {
      var i :| 0 <= i < n + 1 && Listed(nodes, roots[i], 1, leaf, q);
      if i < n { assert CopiedBy(nodes, roots, n, leaf, q); }
    }
  }

  lemma TwoPrefixes(a: Path, b: Path, q: Path)
    requires a <= q && b <= q
    ensures a <= b || b <= a
  {
    assert q[..|a|] == a && q[..|b|] == b;
    if |a| <= |b| { assert b[..|a|] == a; } else { assert a[..|b|] == b; }
  }

  lemma AbsentRoot(nodes: Nodes, cwd: Path, p: Path, leaf: bool, all: bool)
    requires WellFormed(nodes) && LegalPath(p) && p != [] && p !in nodes
    ensures !Exists(nodes, cwd, AbsPath(p)) && Lists(nodes, p, 1, leaf, [], all)
  {
    hide Split, Join;
    assert AbsPath(p) == [] + [SLASH] + Join(p);
    SplitConcat(SLASH, [], Join(p));
    SplitClean(SLASH, []);
    SplitOfJoin(p);
    assert ([[]] + p)[1..] == p;
    LegalLeads(nodes, [], p);
    assert [] + p == p;
    forall q ensures !Listed(nodes, p, 1, leaf, q) {
      if p <= q && q in nodes { PrefixIsEntry(nodes, q, p); }
    }
  }

  lemma {:induction false} LegalLeads(nodes: Nodes, cur: Path, cs: Path)
    requires LegalPath(cs)
    ensures Resolve(nodes, cur, cs).Some? ==> Resolve(nodes, cur, cs).value == cur + cs
    decreases |cs|
  {
    if cs == [] {
      assert cur + cs == cur;
    } else {
      assert LegalName(cs[0]);
      LegalLeads(nodes, cur + [cs[0]], cs[1..]);
      assert cur + [cs[0]] + cs[1..] == cur + cs;
    }
  }

  /** How many bytes of each listed path the receiver does not get: the directory of the first copied path. */
  function PathLength(first: Path): nat
    requires first != []
  {
    if Parent(first) == [] then 0 else |DirText(Parent(first))|
  }

  /** strrchr on the first path. */
  lemma SeparatorOfPath(p: Path)
    requires LegalPath(p) && p != []
    ensures |AbsPath(p)| > |DirText(Parent(p))| >= 1 && AbsPath(p)[|DirText(Parent(p))| - 1] == SLASH
    ensures SLASH !in AbsPath(p)[|DirText(Parent(p))|..]
    ensures |DirText(Parent(p))| == 1 <==> Parent(p) == []
  {
    var n := p[|p| - 1];
    assert Parent(p) + [n] == p && LegalName(n);
    ChildText(Parent(p), n);
    assert AbsPath(p)[|DirText(Parent(p))|..] == n;
    assert LegalPath(Parent(p));
    JoinIsNulFree(Parent(p));
  }
}
