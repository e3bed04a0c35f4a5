/** The file system as the server uses it: a map from absolute paths to files and directories. */
module FileSystem {
  import opened Bytes
  import opened Common
  import opened Paths

  datatype Node = File(content: bytes) | Dir

  type Nodes = map<Path, Node>

  predicate IsDir(nodes: Nodes, p: Path) {
    p in nodes && nodes[p].Dir?
  }

  function Parent(p: Path): Path {
    if p == [] then [] else p[..|p| - 1]
  }

  /** Every entry lies in a directory, under a name that readdir can return. */
  predicate WellFormed(nodes: Nodes) {
    IsDir(nodes, []) && forall p {:trigger Attached(nodes, p)} :: p in nodes ==> Attached(nodes, p)
  }

  predicate Attached(nodes: Nodes, p: Path) {
    IsDir(nodes, Parent(p)) && LegalPath(p)
  }

  // ---------------------------------------------------------------- path resolution

  /** One component of a path, looked up in the directory `cur`. */
  function Enter(cur: Path, c: bytes): Path {
    if c == [] || c == [DOT] then cur else if c == DOTDOT then Parent(cur) else cur + [c]
  }

  /** Where the components lead from `cur`. Every step starts in a directory; the last entry need not exist. */
  function Resolve(nodes: Nodes, cur: Path, cs: seq<bytes>): Option<Path>
    decreases |cs|
  {
    if cs == [] then Some(cur)
    else if !IsDir(nodes, cur) then None
    else Resolve(nodes, Enter(cur, cs[0]), cs[1..])
  }

  function Locate(nodes: Nodes, cwd: Path, raw: bytes): Option<Path> {
    if raw == [] then None
    else Resolve(nodes, if raw[0] == SLASH then [] else cwd, Split(SLASH, raw))
  }

  predicate Exists(nodes: Nodes, cwd: Path, raw: bytes) {
    Locate(nodes, cwd, raw).Some? && Locate(nodes, cwd, raw).value in nodes
  }

  /** The path names an entry that could be created. */
  predicate Vacant(nodes: Nodes, cwd: Path, raw: bytes) {
    Locate(nodes, cwd, raw).Some? && Locate(nodes, cwd, raw).value !in nodes
  }

  lemma {:induction false} ResolveConcat(nodes: Nodes, cur: Path, a: seq<bytes>, b: seq<bytes>)
    ensures Resolve(nodes, cur, a + b) ==
            match Resolve(nodes, cur, a) { case None => None case Some(mid) => Resolve(nodes, mid, b) }
    decreases |a|
  {
    if a == [] {
      assert a + b == b;
    } else if IsDir(nodes, cur) {
      assert (a + b)[1..] == a[1..] + b;
      ResolveConcat(nodes, Enter(cur, a[0]), a[1..], b);
    }
  }

  lemma {:induction false} PrefixIsDir(nodes: Nodes, p: Path, k: nat)
    requires WellFormed(nodes) && p in nodes && k < |p|
    ensures IsDir(nodes, p[..k])
    decreases |p|
  {
    assert Attached(nodes, p);
    if k + 1 < |p| {
      PrefixIsDir(nodes, Parent(p), k);
      assert Parent(p)[..k] == p[..k];
    }
  }

  lemma PrefixIsEntry(nodes: Nodes, p: Path, d: Path)
    requires WellFormed(nodes) && p in nodes && d <= p
    ensures d in nodes
  {
    assert p[..|d|] == d;
    if |d| < |p| { PrefixIsDir(nodes, p, |d|); } else { assert d == p; }
  }

  /** A legal path leads where it says. */
  lemma {:induction false} ResolveLegal(nodes: Nodes, cur: Path, cs: Path)
    requires LegalPath(cs) && (forall k :: 0 <= k < |cs| ==> IsDir(nodes, cur + cs[..k]))
    ensures Resolve(nodes, cur, cs) == Some(cur + cs)
    decreases |cs|
  {
    if cs == [] {
      assert cur + cs == cur;
    } else {
      assert cur + cs[..0] == cur;
      assert LegalName(cs[0]);
      var next := cur + [cs[0]];
      forall k | 0 <= k < |cs[1..]| ensures IsDir(nodes, next + cs[1..][..k]) {
        assert next + cs[1..][..k] == cur + cs[..k + 1];
      }
      ResolveLegal(nodes, next, cs[1..]);
      assert next + cs[1..] == cur + cs;
    }
  }

  /** A path that leads to no entry leads to a legal name in a directory. */
  lemma {:induction false} ResolveIsAttached(nodes: Nodes, cur: Path, cs: seq<bytes>)
    requires WellFormed(nodes) && cur in nodes && Resolve(nodes, cur, cs).Some?
    requires forall i :: 0 <= i < |cs| ==> SLASH !in cs[i] && NUL !in cs[i]
    ensures Attached(nodes, Resolve(nodes, cur, cs).value)
    decreases |cs|
  {
    assert Attached(nodes, cur);
    if cs != [] {
      var next := Enter(cur, cs[0]);
      EnterIsAttached(nodes, cur, cs[0]);
      if next in nodes {
        ResolveIsAttached(nodes, next, cs[1..]);
      }
    }
  }

  lemma EnterIsAttached(nodes: Nodes, cur: Path, c: bytes)
    requires WellFormed(nodes) && IsDir(nodes, cur) && SLASH !in c && NUL !in c
    ensures Attached(nodes, Enter(cur, c))
  {
    assert Attached(nodes, cur);
    assert Attached(nodes, Parent(cur));
    if Enter(cur, c) == cur + [c] { assert Parent(cur + [c]) == cur; }
  }

  // ---------------------------------------------------------------- making directories

  /** mkdir -p, one component after another. */
  function EnsureDirs(nodes: Nodes, cur: Path, cs: seq<bytes>): Option<Nodes>
    decreases |cs|
  {
    if cs == [] then Some(nodes)
    else
      var next := Enter(cur, cs[0]);
      if next !in nodes then EnsureDirs(nodes[next := Dir], next, cs[1..])
      else if nodes[next].Dir? then EnsureDirs(nodes, next, cs[1..])
      else None
  }

  /** Nothing is lost, and whatever is new lies strictly below `root`. */
  predicate GrowsBelow(nodes: Nodes, more: Nodes, root: Path) {
    && (forall p :: p in nodes ==> p in more && more[p] == nodes[p])
    && (forall p :: p in more && p !in nodes ==> root < p)
  }

  lemma {:induction false} EnsureDirsGrows(nodes: Nodes, cur: Path, cs: seq<bytes>, root: Path)
    requires cur in nodes && root <= cur && EnsureDirs(nodes, cur, cs).Some?
    requires forall i :: 0 <= i < |cs| ==> cs[i] != DOTDOT
    ensures GrowsBelow(nodes, EnsureDirs(nodes, cur, cs).value, root)
    decreases |cs|
  {
    if cs != [] {
      var next := Enter(cur, cs[0]);
      var more := if next in nodes then nodes else nodes[next := Dir];
      EnsureDirsGrows(more, next, cs[1..], root);
      if next !in nodes {
        EnterStaysBelow(cur, cs[0], root);
      }
    }
  }

  lemma EnterStaysBelow(cur: Path, c: bytes, root: Path)
    requires root <= cur && c != DOTDOT
    ensures root <= Enter(cur, c) && (Enter(cur, c) == cur || root < Enter(cur, c))
  {
  }

  /** Where the components lead when every one of them is a directory. */
  function Follow(cur: Path, cs: seq<bytes>): Path
    decreases |cs|
  {
    if cs == [] then cur else Follow(Enter(cur, cs[0]), cs[1..])
  }

  lemma {:induction false} EnsureDirsConcat(nodes: Nodes, cur: Path, a: seq<bytes>, b: seq<bytes>)
    ensures EnsureDirs(nodes, cur, a + b) ==
            match EnsureDirs(nodes, cur, a) { case None => None case Some(mid) => EnsureDirs(mid, Follow(cur, a), b) }
    decreases |a|
  {
    if a == [] {
      assert a + b == b;
    } else {
      assert (a + b)[1..] == a[1..] + b;
      var next := Enter(cur, a[0]);
      EnsureDirsConcat(if next in nodes then nodes else nodes[next := Dir], next, a[1..], b);
    }
  }

  /** What was ensured can be walked through, and nothing that was there has changed. */
  lemma {:induction false} EnsuredResolves(nodes: Nodes, cur: Path, cs: seq<bytes>)
    requires IsDir(nodes, cur) && EnsureDirs(nodes, cur, cs).Some?
    ensures var more := EnsureDirs(nodes, cur, cs).value;
            && Resolve(more, cur, cs) == Some(Follow(cur, cs)) && IsDir(more, Follow(cur, cs))
            && forall p :: p in nodes ==> p in more && more[p] == nodes[p]
    decreases |cs|
  {
    if cs != [] {
      var next := Enter(cur, cs[0]);
      EnsuredResolves(if next in nodes then nodes else nodes[next := Dir], next, cs[1..]);
    }
  }

  lemma {:induction false} ExistingIsEnsured(nodes: Nodes, cur: Path, cs: seq<bytes>)
    requires WellFormed(nodes) && Resolve(nodes, cur, cs).Some? && IsDir(nodes, Resolve(nodes, cur, cs).value)
    ensures EnsureDirs(nodes, cur, cs) == Some(nodes)
    decreases |cs|
  {
    if cs != [] { ExistingIsEnsured(nodes, Enter(cur, cs[0]), cs[1..]); }
  }

  /** mkdirs */
  function Mkdirs(nodes: Nodes, cwd: Path, path: bytes): Option<Nodes> {
    if path == [] || path[0] != DOT then None
    else if Exists(nodes, cwd, path) then
      if IsDir(nodes, Locate(nodes, cwd, path).value) then Some(nodes) else None
    else if |path| > MAX_FILE_NAME_LEN then None
    else EnsureDirs(nodes, cwd, Split(SLASH, path))
  }

  /** The directories of some first components of the path were made. */
  ghost predicate Stage(nodes: Nodes, more: Nodes, cwd: Path, path: bytes) {
    exists k :: 0 <= k <= |Split(SLASH, path)| && EnsureDirs(nodes, cwd, Split(SLASH, path)[..k]) == Some(more)
  }

  /** The names, each once, of everything in the directory. */
  ghost predicate ListsDir(nodes: Nodes, d: Path, names: seq<Name>) {
    NoDuplicates(names) && forall n {:trigger n in names} :: n in names <==> d + [n] in nodes
  }

  /** A directory, not the root, with nothing in it. */
  predicate IsEmptyDir(nodes: Nodes, d: Path) {
    IsDir(nodes, d) && d != [] && forall p :: p in nodes ==> !(d < p)
  }

  /** Where fopen in mode "wb" puts the file. */
  function OpenTarget(nodes: Nodes, cwd: Path, raw: bytes): Option<Path> {
    match Locate(nodes, cwd, raw)
    case None => None
    case Some(p) => if IsDir(nodes, p) then None else Some(p)
  }

  // ---------------------------------------------------------------- the calls

  class Fs {
    var nodes: Nodes
    const cwd: Path
    /** Which calls the operating system refuses: no permission, no space, no memory and the like. */
    const faults: nat -> bool
    var calls: nat

    constructor (nodes: Nodes, cwd: Path, faults: nat -> bool)
      ensures this.nodes == nodes && this.cwd == cwd && this.faults == faults && calls == 0
    {
      this.nodes, this.cwd, this.faults, calls := nodes, cwd, faults, 0;
    }

    ghost predicate Valid()
      reads this
    {
      WellFormed(nodes) && IsDir(nodes, cwd)
    }

    ghost predicate Healthy() {
      forall i: nat :: !faults(i)
    }

    /** From call `k` on everything is refused, as when the file system was remounted read-only. */
    ghost predicate RefusesFrom(k: nat) {
      forall i: nat :: i >= k ==> faults(i)
    }

    /** Every call that can be refused has its number. */
    method Refuses() returns (r: bool)
      modifies this`calls
      ensures r == faults(old(calls)) && calls == old(calls) + 1
    {
      r := faults(calls);
      calls := calls + 1;
    }

    /** file_exists */
    method FileExists(raw: bytes) returns (b: bool)
      ensures b == Exists(nodes, cwd, raw)
    {
      var p := Locate(nodes, cwd, raw);
      b := p.Some? && p.value in nodes;
    }

    /** is_directory without following links */
    method IsDirectory(raw: bytes) returns (b: bool)
      ensures b == (Exists(nodes, cwd, raw) && nodes[Locate(nodes, cwd, raw).value].Dir?)
    {
      var p := Locate(nodes, cwd, raw);
      b := p.Some? && p.value in nodes && nodes[p.value].Dir?;
    }

    method MkdirCall(raw: bytes) returns (ok: bool)
      requires Valid() && NUL !in raw
      modifies this
      ensures calls >= old(calls)
      ensures Valid()
      ensures ok ==> Vacant(old(nodes), cwd, raw) && nodes == old(nodes)[Locate(old(nodes), cwd, raw).value := Dir]
      ensures !ok ==> nodes == old(nodes)
      ensures Healthy() && Vacant(old(nodes), cwd, raw) ==> ok
    {
      var refused := Refuses();
      var p := Locate(nodes, cwd, raw);
      if refused || p.None? || p.value in nodes { return false; }
      VacantIsAttached(nodes, cwd, raw);
      AddKeepsWellFormed(nodes, p.value, Dir);
      nodes := nodes[p.value := Dir];
      return true;
    }

    /** _mkdir_check: afterwards there is a directory at the path, new or not. */
    method MkdirCheck(raw: bytes, ghost cur: Path, ghost c: bytes) returns (ok: bool)
      requires Valid() && NUL !in raw && Locate(nodes, cwd, raw) == Some(Enter(cur, c))
      modifies this
      ensures calls >= old(calls)
      ensures Valid()
      ensures ok ==> EnsureDirs(old(nodes), cur, [c]) == Some(nodes)
      ensures !ok ==> nodes == old(nodes)
      ensures Healthy() && EnsureDirs(old(nodes), cur, [c]).Some? ==> ok
    {
      var there := FileExists(raw);
      if there {
        ok := IsDirectory(raw);
      } else {
        ok := MkdirCall(raw);
      }
    }

    /** mkdirs: the directory at `path` and everything above it, made by cutting the path at each separator. */
    method MkdirsCall(path: bytes) returns (ok: bool)
      requires Valid() && NUL !in path
      modifies this
      ensures calls >= old(calls)
      ensures Valid()
      ensures ok ==> Mkdirs(old(nodes), cwd, path) == Some(nodes)
      ensures Healthy() && Mkdirs(old(nodes), cwd, path).Some? ==> ok
      ensures Stage(old(nodes), nodes, cwd, path)
    {
      ghost var cs := Split(SLASH, path);
      assert EnsureDirs(nodes, cwd, cs[..0]) == Some(nodes);
      if path == [] || path[0] != DOT { return false; }
      var there := FileExists(path);
      if there {
        ok := IsDirectory(path);
        return;
      }
      if |path| > MAX_FILE_NAME_LEN { return false; }
      ok := MakeEach(path);
    }

    /** The loop of mkdirs; `start` is where the current component begins and `done` are the components before it. */
    method MakeEach(path: bytes) returns (ok: bool)
      requires Valid() && NUL !in path && path != [] && path[0] == DOT
      modifies this
      ensures calls >= old(calls)
      ensures Valid()
      ensures ok ==> EnsureDirs(old(nodes), cwd, Split(SLASH, path)) == Some(nodes)
      ensures Healthy() && EnsureDirs(old(nodes), cwd, Split(SLASH, path)).Some? ==> ok
      ensures Stage(old(nodes), nodes, cwd, path)
    {
      hide EnsureDirs, Split, Locate, WellFormed, Cutting, Stage;
      ghost var cs, start, done := Split(SLASH, path), 0, [];
      var i := 0;
      StartCutting(nodes, cwd, path);
      while i <= |path|
        invariant 0 <= start <= i <= |path| + 1 && Valid()
        invariant i <= |path| ==> Cutting(path, start, i, done)
        invariant i <= |path| ==> done < cs
        invariant i > |path| ==> done == cs
        invariant calls >= old(calls)
        invariant EnsureDirs(old(nodes), cwd, done) == Some(nodes)
      {
        if i == |path| || path[i] == SLASH {
          ghost var c, cur := path[start..i], Follow(cwd, done);
          CutAt(path, start, i, done);
          NextComponent(old(nodes), nodes, cwd, path, i, done, c);
          ok := MkdirCheck(path[..i], cur, c);
          if !ok {
            StageOf(old(nodes), nodes, cwd, path, done);
            return false;
          }
          done := done + [c];
          start := i + 1;
        } else {
          CutMore(path, start, i, done);
        }
        i := i + 1;
      }
      StageOf(old(nodes), nodes, cwd, path, done);
      return true;
    }

    /** fopen in mode "wb": a new file, or an existing one emptied. The handle is where the file is. */
    method Open(raw: bytes) returns (handle: Option<Path>)
      requires Valid() && NUL !in raw
      modifies this
      ensures calls >= old(calls)
      ensures Valid()
      ensures handle.Some? ==>
                handle == OpenTarget(old(nodes), cwd, raw) && nodes == old(nodes)[handle.value := File([])]
      ensures handle.None? ==> nodes == old(nodes)
      ensures Healthy() && OpenTarget(old(nodes), cwd, raw).Some? ==> handle.Some?
    {
      var refused := Refuses();
      handle := OpenTarget(nodes, cwd, raw);
      if refused || handle.None? { return None; }
      VacantIsAttached(nodes, cwd, raw);
      AddKeepsWellFormed(nodes, handle.value, File([]));
      nodes := nodes[handle.value := File([])];
    }

    /** fwrite at the end of an open file; nothing is written when it falls short. */
    method Write(handle: Path, data: bytes) returns (ok: bool)
      requires Valid() && handle in nodes && nodes[handle].File?
      modifies this
      ensures calls >= old(calls)
      ensures Valid()
      ensures nodes == if ok then old(nodes)[handle := File(old(nodes)[handle].content + data)] else old(nodes)
      ensures Healthy() ==> ok
    {
      var refused := Refuses();
      if refused { return false; }
      assert Attached(nodes, handle);
      var node := File(nodes[handle].content + data);
      AddKeepsWellFormed(nodes, handle, node);
      nodes := nodes[handle := node];
      return true;
    }

    /** opendir and readdir: every entry once, in an order of the system's choosing; None if it cannot be opened. */
    method ReadDir(raw: bytes) returns (names: Option<seq<Name>>)
      requires Valid() && NUL !in raw
      modifies this`calls
      ensures names.Some? ==> Locate(nodes, cwd, raw).Some? && IsDir(nodes, Locate(nodes, cwd, raw).value)
                              && ListsDir(nodes, Locate(nodes, cwd, raw).value, names.value)
      ensures calls == old(calls) + 1
      ensures Locate(nodes, cwd, raw).Some? && IsDir(nodes, Locate(nodes, cwd, raw).value) ==>
                (names.None? <==> faults(old(calls)))
    {
      var refused := Refuses();
      var p := Locate(nodes, cwd, raw);
      if refused || p.None? || !IsDir(nodes, p.value) { return None; }
      var d := p.value;
      var all := set q | q in nodes && |q| == |d| + 1 && d <= q :: q[|d|];
      var left, listed := all, [];
      while left != {}
        invariant left <= all && (forall n :: n in all - left <==> n in listed)
        invariant forall n :: n in listed ==> n !in left
        invariant NoDuplicates(listed)
        decreases left
      {
        var n :| n in left;
        listed, left := listed + [n], left - {n};
      }
      forall n ensures n in listed <==> d + [n] in nodes {
        if d + [n] in nodes { assert (d + [n])[|d|] == n; }
        if n in listed {
          var q :| q in nodes && |q| == |d| + 1 && d <= q && q[|d|] == n;
          assert q == d + [n];
        }
      }
      names := Some(listed);
    }

    /** remove_directory, for a directory other than the working directory. */
    method Rmdir(raw: bytes) returns (ok: bool)
      requires Valid() && NUL !in raw && Locate(nodes, cwd, raw) != Some(cwd)
      modifies this
      ensures calls >= old(calls)
      ensures Valid()
      ensures ok ==> Locate(old(nodes), cwd, raw).Some? && Locate(old(nodes), cwd, raw).value in old(nodes)
                     && IsEmptyDir(old(nodes), Locate(old(nodes), cwd, raw).value)
                     && nodes == old(nodes) - {Locate(old(nodes), cwd, raw).value}
      ensures !ok ==> nodes == old(nodes)
      ensures Locate(old(nodes), cwd, raw).Some? && IsEmptyDir(old(nodes), Locate(old(nodes), cwd, raw).value) ==>
                (ok <==> !faults(old(calls)))
    {
      var refused := Refuses();
      var p := Locate(nodes, cwd, raw);
      if refused || p.None? || !IsEmptyDir(nodes, p.value) { return false; }
      RemoveDirKeepsWellFormed(nodes, p.value, cwd);
      nodes := nodes - {p.value};
      return true;
    }

    /** remove_file on a file that was just written. */
    method RemoveFile(raw: bytes)
      requires Valid()
      modifies this
      ensures calls >= old(calls)
      ensures Valid()
      ensures nodes == old(nodes) || (OpenTarget(old(nodes), cwd, raw).Some?
                                      && nodes == old(nodes) - {OpenTarget(old(nodes), cwd, raw).value})
      ensures Healthy() && OpenTarget(old(nodes), cwd, raw).Some? ==>
                nodes == old(nodes) - {OpenTarget(old(nodes), cwd, raw).value}
    {
      var refused := Refuses();
      var p := OpenTarget(nodes, cwd, raw);
      if refused || p.None? || p.value !in nodes { return; }
      RemoveKeepsWellFormed(nodes, p.value);
      nodes := nodes - {p.value};
    }
  }

  /** The loop of mkdirs has cut `done` off the path and is inside the component that begins at `start`. */
  ghost predicate Cutting(path: bytes, start: nat, i: nat, done: seq<bytes>) {
    && start <= i <= |path| && SLASH !in path[start..i]
    && if start == 0 then done == [] else path[start - 1] == SLASH && done == Split(SLASH, path[..start - 1])
  }

  lemma CutMore(path: bytes, start: nat, i: nat, done: seq<bytes>)
    requires Cutting(path, start, i, done) && i < |path| && path[i] != SLASH
    ensures Cutting(path, start, i + 1, done)
  {
    hide Split;
    assert path[start..i + 1] == path[start..i] + [path[i]];
  }

  lemma CutAt(path: bytes, start: nat, i: nat, done: seq<bytes>)
    requires Cutting(path, start, i, done) && (i == |path| || path[i] == SLASH)
    ensures Split(SLASH, path[..i]) == done + [path[start..i]]
    ensures i == |path| ==> Split(SLASH, path) == done + [path[start..i]]
    ensures i < |path| ==>
              done + [path[start..i]] < Split(SLASH, path) && Cutting(path, i + 1, i + 1, done + [path[start..i]])
  {
    hide Split;
    CutPrefix(path, start, i, done);
    if i == |path| {
      assert path[..i] == path;
    } else {
      CutRest(path, i);
      assert path[..i + 1 - 1] == path[..i] && path[i + 1..i + 1] == [];
    }
  }

  lemma StartCutting(nodes: Nodes, cwd: Path, path: bytes)
    ensures Cutting(path, 0, 0, []) && EnsureDirs(nodes, cwd, []) == Some(nodes) && [] < Split(SLASH, path)
  {
  }

  lemma StageOf(before: Nodes, nodes: Nodes, cwd: Path, path: bytes, done: seq<bytes>)
    requires EnsureDirs(before, cwd, done) == Some(nodes)
    ensures done <= Split(SLASH, path) ==> Stage(before, nodes, cwd, path)
  {
    hide EnsureDirs, Split;
    if done <= Split(SLASH, path) { assert Split(SLASH, path)[..|done|] == done; }
  }

  /** The next component is looked up where the ones before it led to, and ensuring it ensures one more. */
  lemma NextComponent(before: Nodes, nodes: Nodes, cwd: Path, path: bytes, i: nat, done: seq<bytes>, c: bytes)
    requires IsDir(before, cwd) && EnsureDirs(before, cwd, done) == Some(nodes) && i <= |path| && NUL !in path
    requires path != [] && path[0] == DOT && (i == |path| || path[i] == SLASH)
    requires Split(SLASH, path[..i]) == done + [c] && done + [c] <= Split(SLASH, path)
    ensures NUL !in path[..i] && Locate(nodes, cwd, path[..i]) == Some(Enter(Follow(cwd, done), c))
    ensures EnsureDirs(before, cwd, done + [c]) == EnsureDirs(nodes, Follow(cwd, done), [c])
    ensures EnsureDirs(before, cwd, Split(SLASH, path)).Some? ==> EnsureDirs(nodes, Follow(cwd, done), [c]).Some?
  {
    hide Split, EnsureDirs, Follow, Locate;
    assert i > 0;
    LocateCut(before, nodes, cwd, path[..i], done, c);
    var cs := Split(SLASH, path);
    var rest := cs[|done| + 1..];
    assert done + [c] + rest == cs;
    EnsureDirsConcat(before, cwd, done, [c]);
    EnsureDirsConcat(before, cwd, done + [c], rest);
  }

  lemma CutPrefix(path: bytes, start: nat, i: nat, done: seq<bytes>)
    requires Cutting(path, start, i, done)
    ensures Split(SLASH, path[..i]) == done + [path[start..i]]
  {
    hide Split;
    var c := path[start..i];
    SplitClean(SLASH, c);
    if start == 0 {
      assert path[..i] == c;
    } else {
      assert path[..i] == path[..start - 1] + [SLASH] + c;
      SplitConcat(SLASH, path[..start - 1], c);
    }
  }

  lemma CutRest(path: bytes, i: nat)
    requires i < |path| && path[i] == SLASH
    ensures Split(SLASH, path[..i]) < Split(SLASH, path)
  {
    hide Split;
    SplitAt(SLASH, path, i);
  }

  /** After `done` was ensured, the path cut after the next component leads to that component. */
  lemma LocateCut(before: Nodes, nodes: Nodes, cwd: Path, raw: bytes, done: seq<bytes>, c: bytes)
    requires IsDir(before, cwd) && EnsureDirs(before, cwd, done) == Some(nodes)
    requires raw != [] && raw[0] != SLASH && Split(SLASH, raw) == done + [c]
    ensures Locate(nodes, cwd, raw) == Some(Enter(Follow(cwd, done), c))
  {
    EnsuredResolves(before, cwd, done);
    ResolveConcat(nodes, cwd, done, [c]);
  }

  lemma AddKeepsWellFormed(nodes: Nodes, p: Path, node: Node)
    requires WellFormed(nodes) && Attached(nodes, p) && (p in nodes ==> nodes[p].Dir? == node.Dir?)
    ensures WellFormed(nodes[p := node])
  {
    var more := nodes[p := node];
    forall q | q in more ensures Attached(more, q) {
      assert Attached(nodes, q);
    }
  }

  lemma VacantIsAttached(nodes: Nodes, cwd: Path, raw: bytes)
    requires WellFormed(nodes) && IsDir(nodes, cwd) && NUL !in raw && Locate(nodes, cwd, raw).Some?
    ensures Attached(nodes, Locate(nodes, cwd, raw).value)
  {
    PiecesAvoid(SLASH, raw, SLASH);
    PiecesAvoid(SLASH, raw, NUL);
    ResolveIsAttached(nodes, if raw[0] == SLASH then [] else cwd, Split(SLASH, raw));
  }

  lemma RemoveKeepsWellFormed(nodes: Nodes, p: Path)
    requires WellFormed(nodes) && p in nodes && nodes[p].File?
    ensures WellFormed(nodes - {p})
  {
    var less := nodes - {p};
    forall q | q in less ensures Attached(less, q) {
      assert Attached(nodes, q);
    }
  }

  lemma RemoveDirKeepsWellFormed(nodes: Nodes, d: Path, cwd: Path)
    requires WellFormed(nodes) && IsDir(nodes, cwd) && IsEmptyDir(nodes, d) && d != cwd
    ensures WellFormed(nodes - {d}) && IsDir(nodes - {d}, cwd)
  {
    var less := nodes - {d};
    forall q | q in less ensures Attached(less, q) {
      assert Attached(nodes, q);
      ParentIsAbove(q);
    }
  }

  lemma ParentIsAbove(p: Path)
    ensures p != [] ==> Parent(p) < p
  {
  }
}
