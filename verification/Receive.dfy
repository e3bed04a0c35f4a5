/** Receiving a batch of files and directories: save_file and what it calls, src/proto/methods.c. */
module Receive {
  import opened Bytes
  import opened Common
  import opened Paths
  import opened FileSystem
  import opened NetUtils
  import Utf8

  // ---------------------------------------------------------------- what is received

  datatype Received = Failed | Got(nodes: Nodes, rest: bytes)

  /** _save_file_common: a size and the content, or -1 for a directory. */
  function SaveBody(nodes: Nodes, cwd: Path, version: nat, maxSize: int, raw: bytes, stream: bytes): Received {
    if |stream| < 8 then Failed
    else
      var size, rest := DecodeSize(stream[..8]), stream[8..];
      if size > maxSize then Failed
      else if size == -1 && version >= 3 then
        match Mkdirs(nodes, cwd, raw) { case None => Failed case Some(more) => Got(more, rest) }
      else if size < 0 || |rest| < size then Failed
      else match OpenTarget(nodes, cwd, raw)
        case None => Failed
        case Some(p) => Got(nodes[p := File(rest[..size])], rest[size..])
  }

  /** _is_valid_fname: well-formed UTF-8 and, up to the first NUL, no control characters and not empty. */
  predicate ValidName(name: bytes) {
    Utf8.WellFormed(name) && CStr(name) != [] && forall c :: c in CStr(name) ==> c >= 32
  }

  /** UTF-8 whose first byte, and every byte before the first NUL, is 32 or more. */
  ghost predicate IsCleanText(name: bytes) {
    && Utf8.WellFormed(name) && name != [] && name[0] >= 32
    && forall k :: 0 <= k < |name| && NUL !in name[..k + 1] ==> name[k] >= 32
  }

  lemma ValidIsClean(name: bytes)
    ensures ValidName(name) <==> IsCleanText(name)
  {
    hide Utf8.WellFormed;
    var s := CStr(name);
    if ValidName(name) {
      forall k | 0 <= k < |name| && NUL !in name[..k + 1] ensures name[k] >= 32 {
        CStrReaches(name, k);
        assert s[k] in s;
      }
    } else if IsCleanText(name) {
      forall c | c in s ensures c >= 32 {
        var k :| 0 <= k < |s| && s[k] == c;
        assert forall j :: 0 <= j <= k ==> name[j] == s[j] && s[j] in s;
        assert NUL !in name[..k + 1];
      }
    }
  }

  lemma {:induction false} CStrReaches(s: bytes, k: nat)
    requires k < |s| && NUL !in s[..k + 1]
    ensures k < |CStr(s)| && CStr(s)[k] == s[k]
  {
    assert s[0] == s[..k + 1][0];
    if k > 0 {
      assert s[1..][..k] == s[..k + 1][1..];
      CStrReaches(s[1..], k - 1);
    }
  }

  /** The received name as a C string, without a slash at the end of what was received. */
  function Stripped(name: bytes): bytes
    requires name != []
  {
    if name[|name| - 1] == SLASH then CStr(name[..|name| - 1]) else CStr(name)
  }

  /** Without the leading slash, which the sender may write. */
  function Relative(name: bytes): bytes {
    if name != [] && name[0] == SLASH then name[1..] else name
  }

  /** dirname, one slash, and the name. */
  function NewPath(dirname: bytes, name: bytes): bytes
    requires name != []
  {
    dirname + [SLASH] + Relative(Stripped(name))
  }

  /** A slash before or after the name makes no difference, and what follows a NUL is not part of it. */
  lemma PathForms(dirname: bytes, name: bytes, behind: bytes)
    requires NUL !in name && name != [] && name[0] != SLASH && name[|name| - 1] != SLASH
    ensures NewPath(dirname, name) == dirname + [SLASH] + name
    ensures NewPath(dirname, [SLASH] + name) == NewPath(dirname, name + [SLASH]) == dirname + [SLASH] + name
    ensures NewPath(dirname, [SLASH] + name + [SLASH]) == dirname + [SLASH] + name
    ensures NewPath(dirname, name + [NUL] + behind) == dirname + [SLASH] + name
  {
    hide Stripped, Relative;
    StrippedForms(name);
    StrippedForms([SLASH] + name);
    StrippedAtNul(name, behind);
    RelativeForms(name);
  }

  lemma StrippedForms(s: bytes)
    requires NUL !in s && s != [] && s[|s| - 1] != SLASH
    ensures Stripped(s) == s && Stripped(s + [SLASH]) == s
  {
    hide CStr;
    assert (s + [SLASH])[..|s|] == s;
  }

  lemma StrippedAtNul(s: bytes, behind: bytes)
    requires NUL !in s
    ensures Stripped(s + [NUL] + behind) == s
  {
    hide CStr;
    var all := s + [NUL] + behind;
    if behind != [] && behind[|behind| - 1] == SLASH {
      CStrOfPrefix(s, all[..|all| - 1]);
    } else {
      CStrOfPrefix(s, all);
    }
  }

  lemma RelativeForms(s: bytes)
    requires s != [] && s[0] != SLASH
    ensures Relative(s) == s && Relative([SLASH] + s) == s
  {
    assert ([SLASH] + s)[1..] == s;
  }

  /** save_file */
  function SaveFile(nodes: Nodes, cwd: Path, version: nat, maxSize: int, dirname: bytes, stream: bytes): Received {
    if |stream| < 8 then Failed
    else
      var size := DecodeSize(stream[..8]);
      if size <= 0 || size > MAX_FILE_NAME_LEN || |stream| - 8 < size then Failed
      else
        var name := stream[8..8 + size];
        SaveNamed(nodes, cwd, version, maxSize, dirname, name, stream[8 + size..])
  }

  function SaveNamed(nodes: Nodes, cwd: Path, version: nat, maxSize: int, dirname: bytes, name: bytes, stream: bytes)
    : Received
    requires name != []
  {
    var raw := NewPath(dirname, name);
    if !ValidName(name) || |raw| >= |name| + 20 || HasBadPath(raw) then Failed
    else match Mkdirs(nodes, cwd, raw[..LastSlash(raw)])
      case None => Failed
      case Some(more) =>
        if Exists(more, cwd, raw) then Failed else SaveBody(more, cwd, version, maxSize, raw, stream)
  }

  /** The loop of _send_files_dirs. */
  function SaveAll(nodes: Nodes, cwd: Path, version: nat, maxSize: int, dirname: bytes, cnt: nat,
                   stream: bytes): Received
    decreases cnt
  {
    if cnt == 0 then Got(nodes, stream)
    else match SaveFile(nodes, cwd, version, maxSize, dirname, stream)
      case Failed => Failed
      case Got(more, rest) => SaveAll(more, cwd, version, maxSize, dirname, cnt - 1, rest)
  }

  // ---------------------------------------------------------------- containment

  /** The name the server makes for its temp directory: "./" and a name without slashes. */
  predicate TempDir(nodes: Nodes, cwd: Path, dirname: bytes) {
    |dirname| > 2 && dirname[..2] == [DOT, SLASH] && LegalName(dirname[2..]) && IsDir(nodes, cwd)
    && IsDir(nodes, cwd + [dirname[2..]])
  }

  lemma SplitNewPath(dirname: bytes, rel: bytes)
    requires |dirname| > 2 && dirname[..2] == [DOT, SLASH] && LegalName(dirname[2..])
    ensures Split(SLASH, dirname + [SLASH] + rel) == [[DOT], dirname[2..]] + Split(SLASH, rel)
  {
    hide Split;
    SplitConcat(SLASH, dirname, rel);
    assert dirname == [DOT] + [SLASH] + dirname[2..];
    SplitConcat(SLASH, [DOT], dirname[2..]);
    SplitClean(SLASH, [DOT]);
    SplitClean(SLASH, dirname[2..]);
  }

  predicate NoDotDot(cs: seq<bytes>) {
    forall k :: 0 <= k < |cs| ==> cs[k] != DOTDOT
  }

  /** A new entry: if it is reached from below `root` with ".." at most last, it lies below `root`. */
  lemma {:induction false} NewEntryIsBelow(nodes: Nodes, cur: Path, cs: seq<bytes>, root: Path)
    requires WellFormed(nodes) && root <= cur && IsDir(nodes, cur) && cs != [] && NoDotDot(cs[..|cs| - 1])
    requires Resolve(nodes, cur, cs).Some? && Resolve(nodes, cur, cs).value !in nodes
    ensures root < Resolve(nodes, cur, cs).value && NoDotDot(cs)
    decreases |cs|
  {
    var next := Enter(cur, cs[0]);
    assert Attached(nodes, cur);
    if |cs| == 1 {
      assert Resolve(nodes, next, cs[1..]) == Some(next);
    } else {
      assert cs[..|cs| - 1][0] == cs[0];
      EnterStaysBelow(cur, cs[0], root);
      assert cs[1..][..|cs| - 2] == cs[..|cs| - 1][1..];
      NewEntryIsBelow(nodes, next, cs[1..], root);
      assert forall k :: 1 <= k < |cs| ==> cs[k] == cs[1..][k - 1];
    }
  }

  /** Entering the temp directory changes nothing. */
  lemma EnterTempDir(nodes: Nodes, cwd: Path, dirname: bytes, cs: seq<bytes>)
    requires TempDir(nodes, cwd, dirname)
    ensures EnsureDirs(nodes, cwd, [[DOT], dirname[2..]] + cs) == EnsureDirs(nodes, cwd + [dirname[2..]], cs)
    ensures Resolve(nodes, cwd, [[DOT], dirname[2..]] + cs) == Resolve(nodes, cwd + [dirname[2..]], cs)
  {
    var two := [[DOT], dirname[2..]] + cs;
    assert two[1..] == [dirname[2..]] + cs && two[1..][1..] == cs;
  }

  /** Every stage of making the directories of a path without ".." adds entries below the temp directory only. */
  lemma StagesStayBelow(nodes: Nodes, cwd: Path, dirname: bytes, cs: seq<bytes>, k: nat)
    requires TempDir(nodes, cwd, dirname) && NoDotDot(cs) && k <= 2 + |cs|
    requires EnsureDirs(nodes, cwd, ([[DOT], dirname[2..]] + cs)[..k]).Some?
    ensures GrowsBelow(nodes, EnsureDirs(nodes, cwd, ([[DOT], dirname[2..]] + cs)[..k]).value, cwd + [dirname[2..]])
  {
    var two := [[DOT], dirname[2..]];
    if k >= 2 {
      assert (two + cs)[..k] == two + cs[..k - 2];
      EnterTempDir(nodes, cwd, dirname, cs[..k - 2]);
      EnsureDirsGrows(nodes, cwd + [dirname[2..]], cs[..k - 2], cwd + [dirname[2..]]);
    } else if k == 1 {
      assert (two + cs)[..1] == [[DOT]];
    } else {
      assert (two + cs)[..0] == [];
    }
  }

  lemma GrowsTransitively(a: Nodes, b: Nodes, c: Nodes, root: Path)
    requires GrowsBelow(a, b, root) && GrowsBelow(b, c, root)
    ensures GrowsBelow(a, c, root)
  {
  }

  lemma StillTempDir(nodes: Nodes, more: Nodes, cwd: Path, dirname: bytes)
    requires TempDir(nodes, cwd, dirname) && GrowsBelow(nodes, more, cwd + [dirname[2..]])
    ensures TempDir(more, cwd, dirname)
  {
  }

  function TempPath(cwd: Path, dirname: bytes): Path
    requires |dirname| > 2
  {
    cwd + [dirname[2..]]
  }

  lemma SplitParent(raw: bytes)
    requires SLASH in raw
    ensures LastSlash(raw) >= 0
    ensures Split(SLASH, raw) == Split(SLASH, raw[..LastSlash(raw)]) + [raw[LastSlash(raw) + 1..]]
  {
    hide Split;
    var i := LastSlash(raw);
    assert raw[0..] == raw;
    SplitAt(SLASH, raw, i);
    SplitClean(SLASH, raw[i + 1..]);
  }

  /** The components of a path into the temp directory that passed the test for "/../". */
  lemma CheckedComponents(dirname: bytes, rel: bytes)
    requires |dirname| > 2 && dirname[..2] == [DOT, SLASH] && LegalName(dirname[2..])
    requires !HasBadPath(dirname + [SLASH] + rel)
    ensures var raw, cs := dirname + [SLASH] + rel, Split(SLASH, rel);
            && NoDotDot(cs[..|cs| - 1]) && LastSlash(raw) >= 0
            && Split(SLASH, raw) == [[DOT], dirname[2..]] + cs
            && Split(SLASH, raw[..LastSlash(raw)]) == [[DOT], dirname[2..]] + cs[..|cs| - 1]
  {
    hide Split, LegalName, HasBadPath;
    var raw, cs := dirname + [SLASH] + rel, Split(SLASH, rel);
    SplitNewPath(dirname, rel);
    SplitParent(raw);
    RelativeIsChecked(dirname, rel);
    DropLast([[DOT], dirname[2..]], cs, Split(SLASH, raw[..LastSlash(raw)]), raw[LastSlash(raw) + 1..]);
  }

  lemma RelativeIsChecked(dirname: bytes, rel: bytes)
    requires !HasBadPath(dirname + [SLASH] + rel)
    ensures NoDotDot(Split(SLASH, rel)[..|Split(SLASH, rel)| - 1])
  {
    hide Split, HasBadPath;
    var raw := dirname + [SLASH] + rel;
    assert raw[|dirname|..] == [SLASH] + rel;
    BadPathOfSuffix(raw, |dirname|);
    OnlyTheLastIsDotDot(rel);
  }

  lemma DropLast(a: seq<bytes>, b: seq<bytes>, c: seq<bytes>, x: bytes)
    requires b != [] && a + b == c + [x]
    ensures c == a + b[..|b| - 1]
  {
    assert (a + b)[..|a| + |b| - 1] == a + b[..|b| - 1];
    assert (c + [x])[..|c|] == c;
  }

  /** Making the parent directories, wherever it stops, adds entries below the temp directory only. */
  lemma ParentsStayBelow(nodes: Nodes, more: Nodes, cwd: Path, dirname: bytes, rel: bytes)
    requires TempDir(nodes, cwd, dirname) && !HasBadPath(dirname + [SLASH] + rel) && SLASH in dirname + [SLASH] + rel
    requires Stage(nodes, more, cwd, (dirname + [SLASH] + rel)[..LastSlash(dirname + [SLASH] + rel)])
    ensures GrowsBelow(nodes, more, TempPath(cwd, dirname))
  {
    hide Split, GrowsBelow, HasBadPath, EnsureDirs;
    CheckedComponents(dirname, rel);
    var raw, cs := dirname + [SLASH] + rel, Split(SLASH, rel);
    var parents := Split(SLASH, raw[..LastSlash(raw)]);
    var k :| 0 <= k <= |parents| && EnsureDirs(nodes, cwd, parents[..k]) == Some(more);
    StagesStayBelow(nodes, cwd, dirname, cs[..|cs| - 1], k);
  }

  /** Once the parents exist, the path leads somewhere. */
  lemma ParentsLead(nodes: Nodes, more: Nodes, cwd: Path, raw: bytes)
    requires WellFormed(nodes) && IsDir(nodes, cwd) && raw != [] && raw[0] != SLASH && SLASH in raw
    requires LastSlash(raw) >= 0 && Mkdirs(nodes, cwd, raw[..LastSlash(raw)]) == Some(more)
    ensures Locate(more, cwd, raw).Some?
  {
    hide Split, EnsureDirs;
    var parent := raw[..LastSlash(raw)];
    SplitParent(raw);
    if !Exists(nodes, cwd, parent) {
      EnsuredResolves(nodes, cwd, Split(SLASH, parent));
    }
    ResolveConcat(more, cwd, Split(SLASH, parent), [raw[LastSlash(raw) + 1..]]);
  }

  /** What _save_file_common does to a path that leads to nothing yet stays below the temp directory. */
  lemma TouchedStaysBelow(nodes: Nodes, more: Nodes, cwd: Path, dirname: bytes, rel: bytes)
    requires WellFormed(nodes) && TempDir(nodes, cwd, dirname) && !HasBadPath(dirname + [SLASH] + rel)
    requires Vacant(nodes, cwd, dirname + [SLASH] + rel) && Touched(nodes, more, cwd, dirname + [SLASH] + rel)
    ensures GrowsBelow(nodes, more, TempPath(cwd, dirname))
  {
    hide Split, HasBadPath, EnsureDirs, Resolve;
    var raw, cs := dirname + [SLASH] + rel, Split(SLASH, rel);
    CheckedComponents(dirname, rel);
    EnterTempDir(nodes, cwd, dirname, cs);
    NewEntryIsBelow(nodes, TempPath(cwd, dirname), cs, TempPath(cwd, dirname));
    if Stage(nodes, more, cwd, raw) {
      var k :| 0 <= k <= |Split(SLASH, raw)| && EnsureDirs(nodes, cwd, Split(SLASH, raw)[..k]) == Some(more);
      StagesStayBelow(nodes, cwd, dirname, cs, k);
    }
  }

  // ---------------------------------------------------------------- the size limit

  /** No new or changed file has more than `maxSize` bytes. */
  ghost predicate FilesFit(was: Nodes, now: Nodes, maxSize: int) {
    forall p :: p in now && now[p].File? && !(p in was && was[p] == now[p]) ==> |now[p].content| <= maxSize
  }

  lemma NothingTooLarge(nodes: Nodes, maxSize: int)
    ensures FilesFit(nodes, nodes, maxSize)
  {
  }

  lemma FitsTransitively(a: Nodes, b: Nodes, c: Nodes, maxSize: int)
    requires FilesFit(a, b, maxSize) && FilesFit(b, c, maxSize)
    ensures FilesFit(a, c, maxSize)
  {
  }

  /** Making directories makes no files. */
  lemma {:induction false} DirsHaveNoContent(nodes: Nodes, cur: Path, cs: seq<bytes>, maxSize: int)
    requires EnsureDirs(nodes, cur, cs).Some?
    ensures FilesFit(nodes, EnsureDirs(nodes, cur, cs).value, maxSize)
    decreases |cs|
  {
    if cs == [] {
      NothingTooLarge(nodes, maxSize);
    } else {
      var next := Enter(cur, cs[0]);
      var more := if next in nodes then nodes else nodes[next := Dir];
      DirsHaveNoContent(more, next, cs[1..], maxSize);
      FitsTransitively(nodes, more, EnsureDirs(nodes, cur, cs).value, maxSize);
    }
  }

  lemma StageFits(nodes: Nodes, more: Nodes, cwd: Path, path: bytes, maxSize: int)
    requires Stage(nodes, more, cwd, path)
    ensures FilesFit(nodes, more, maxSize)
  {
    hide EnsureDirs, FilesFit, Split;
    var k :| 0 <= k <= |Split(SLASH, path)| && EnsureDirs(nodes, cwd, Split(SLASH, path)[..k]) == Some(more);
    DirsHaveNoContent(nodes, cwd, Split(SLASH, path)[..k], maxSize);
  }

  lemma WrittenFits(nodes: Nodes, more: Nodes, p: Path, maxSize: int)
    requires Written(nodes, more, p) && (p in more && more[p].File? ==> |more[p].content| <= maxSize)
    ensures FilesFit(nodes, more, maxSize)
  {
  }

  // ---------------------------------------------------------------- what a record leaves behind

  /** Whatever is new is a directory. */
  ghost predicate NoNewFile(was: Nodes, now: Nodes) {
    forall p :: p in now && now[p].File? ==> p in was && was[p] == now[p]
  }

  /** One new file with the announced bytes, or for size -1, from version 3 on, a new directory; no other new file. */
  ghost predicate BodyIsStored(version: nat, maxSize: int, size: int, body: bytes, was: Nodes, now: Nodes, rest: bytes)
  {
    if size == -1 then version >= 3 && rest == body && NoNewFile(was, now) && exists p :: p in now && p !in was
    else
      && 0 <= size <= maxSize && size <= |body| && rest == body[size..]
      && exists p :: p in now && p !in was && now[p] == File(body[..size]) && NoNewFile(was, now - {p})
  }

  /** What a record that was accepted has done: a clean name of at most 2048 bytes, a size, and the entry. */
  ghost predicate IsStored(version: nat, maxSize: int, stream: bytes, was: Nodes, now: Nodes, rest: bytes) {
    && |stream| >= 8
    && var n := DecodeSize(stream[..8]);
    && 0 < n <= 2048 && n + 16 <= |stream| && IsCleanText(stream[8..8 + n])
    && BodyIsStored(version, maxSize, DecodeSize(stream[8 + n..16 + n]), stream[16 + n..], was, now, rest)
  }

  lemma {:induction false} EnsureMakesNoFile(nodes: Nodes, cur: Path, cs: seq<bytes>)
    requires EnsureDirs(nodes, cur, cs).Some?
    ensures NoNewFile(nodes, EnsureDirs(nodes, cur, cs).value)
  {
    hide EnsureDirs;
    DirsHaveNoContent(nodes, cur, cs, -1);
    FitsNone(nodes, EnsureDirs(nodes, cur, cs).value);
  }

  lemma FitsNone(was: Nodes, now: Nodes)
    requires FilesFit(was, now, -1)
    ensures NoNewFile(was, now)
  {
  }

  lemma MkdirsMakesNoFile(nodes: Nodes, cwd: Path, path: bytes)
    requires Mkdirs(nodes, cwd, path).Some?
    ensures NoNewFile(nodes, Mkdirs(nodes, cwd, path).value)
  {
    hide EnsureDirs, Exists, Split;
    if !Exists(nodes, cwd, path) { EnsureMakesNoFile(nodes, cwd, Split(SLASH, path)); }
  }

  /** The directory of a record that names nothing yet is new. */
  lemma SomethingIsMade(nodes: Nodes, more: Nodes, cwd: Path, path: bytes)
    requires IsDir(nodes, cwd) && !Exists(nodes, cwd, path) && Mkdirs(nodes, cwd, path) == Some(more)
    ensures exists p :: p in more && p !in nodes
  {
    hide EnsureDirs, Split;
    EnsuredResolves(nodes, cwd, Split(SLASH, path));
    var p := Follow(cwd, Split(SLASH, path));
    assert (forall q :: q in more ==> q in nodes) ==> more == nodes;
  }

  lemma BodyMeaning(nodes: Nodes, mid: Nodes, cwd: Path, version: nat, maxSize: int, raw: bytes, stream: bytes,
                    now: Nodes, rest: bytes)
    requires IsDir(mid, cwd) && !Exists(mid, cwd, raw) && NoNewFile(nodes, mid)
    requires forall p :: p in nodes ==> p in mid
    requires SaveBody(mid, cwd, version, maxSize, raw, stream) == Got(now, rest)
    ensures |stream| >= 8
    ensures BodyIsStored(version, maxSize, DecodeSize(stream[..8]), stream[8..], nodes, now, rest)
  {
    hide DecodeSize, Mkdirs, Locate;
    var size := DecodeSize(stream[..8]);
    if size == -1 {
      MkdirsMakesNoFile(mid, cwd, raw);
      SomethingIsMade(mid, now, cwd, raw);
    } else {
      var p := OpenTarget(mid, cwd, raw).value;
      assert p in now && p !in nodes && now[p] == File(stream[8..][..size]);
      assert NoNewFile(nodes, now - {p});
    }
  }

  lemma MkdirsKeeps(nodes: Nodes, cwd: Path, path: bytes)
    requires IsDir(nodes, cwd) && Mkdirs(nodes, cwd, path).Some?
    ensures IsDir(Mkdirs(nodes, cwd, path).value, cwd)
    ensures forall p :: p in nodes ==> p in Mkdirs(nodes, cwd, path).value
  {
    hide EnsureDirs, Exists, Split;
    if !Exists(nodes, cwd, path) { EnsuredResolves(nodes, cwd, Split(SLASH, path)); }
  }

  lemma SlashInPath(dirname: bytes, name: bytes)
    requires name != []
    ensures LastSlash(NewPath(dirname, name)) >= 0
  {
    assert NewPath(dirname, name)[|dirname|] == SLASH;
  }

  /** An accepted record has left that behind. */
  lemma SavedIsStored(nodes: Nodes, cwd: Path, version: nat, maxSize: int, dirname: bytes, stream: bytes, now: Nodes,
                      rest: bytes)
    requires IsDir(nodes, cwd) && SaveFile(nodes, cwd, version, maxSize, dirname, stream) == Got(now, rest)
    ensures IsStored(version, maxSize, stream, nodes, now, rest)
  {
    hide DecodeSize, Mkdirs, HasBadPath, NewPath, Exists, SaveBody, ValidName, IsCleanText, NoNewFile, BodyIsStored;
    var n := DecodeSize(stream[..8]);
    var name, tail := stream[8..8 + n], stream[8 + n..];
    var raw := NewPath(dirname, name);
    SlashInPath(dirname, name);
    var mid := Mkdirs(nodes, cwd, raw[..LastSlash(raw)]).value;
    ValidIsClean(name);
    MkdirsMakesNoFile(nodes, cwd, raw[..LastSlash(raw)]);
    MkdirsKeeps(nodes, cwd, raw[..LastSlash(raw)]);
    BodyMeaning(nodes, mid, cwd, version, maxSize, raw, tail, now, rest);
    assert tail[..8] == stream[8 + n..16 + n] && tail[8..] == stream[16 + n..];
  }

  // ---------------------------------------------------------------- the code

  /** What _save_file_common may have done to the file system, finished or not. */
  ghost predicate Touched(nodes: Nodes, more: Nodes, cwd: Path, raw: bytes) {
    || Stage(nodes, more, cwd, raw)
    || (OpenTarget(nodes, cwd, raw).Some? && Written(nodes, more, OpenTarget(nodes, cwd, raw).value))
  }

  /** The file at `p` was written, perhaps in part, or written and removed again. */
  ghost predicate Written(nodes: Nodes, more: Nodes, p: Path) {
    more == nodes - {p} || (p in more && more[p].File? && more == nodes[p := more[p]])
  }

  lemma Untouched(nodes: Nodes, cwd: Path, raw: bytes)
    ensures Touched(nodes, nodes, cwd, raw)
  {
    assert EnsureDirs(nodes, cwd, Split(SLASH, raw)[..0]) == Some(nodes);
  }

  /** The receiving loop of _save_file_common. */
  method ReceiveContent(sock: Socket, fs: Fs, handle: Path, raw: bytes, size: nat) returns (ok: bool)
    requires fs.Valid() && OpenTarget(fs.nodes, fs.cwd, raw) == Some(handle)
    requires handle in fs.nodes && fs.nodes[handle] == File([])
    modifies sock`incoming, sock`calls, fs
    ensures fs.calls >= old(fs.calls)
    ensures fs.Valid() && Written(old(fs.nodes), fs.nodes, handle)
    ensures handle in fs.nodes && fs.nodes[handle].File? ==> |fs.nodes[handle].content| <= size
    ensures ok ==> size <= |old(sock.incoming)| && sock.incoming == old(sock.incoming)[size..]
                   && fs.nodes == old(fs.nodes)[handle := File(old(sock.incoming)[..size])]
    ensures !ok && fs.Healthy() ==> fs.nodes == old(fs.nodes) - {handle}
    ensures sock.open && sock.Reliable() && fs.Healthy() && size <= |old(sock.incoming)| ==> ok
  {
    ghost var stream := sock.incoming;
    var fileSize, total := size, 0;
    assert stream[..0] == [];
    while fileSize > 0
      invariant 0 <= fileSize <= size && total == size - fileSize <= |stream|
      invariant fs.Valid() && sock.incoming == stream[total..] && fs.calls >= old(fs.calls)
      invariant handle in fs.nodes && fs.nodes == old(fs.nodes)[handle := File(stream[..total])]
    {
      var readLen := if fileSize < FILE_BUF_SZ then fileSize else FILE_BUF_SZ;
      var data;
      ok, data := sock.ReadBytes(readLen);
      if ok {
        assert stream[..total] + data == stream[..total + readLen];
        ok := fs.Write(handle, data);
      }
      if !ok {
        SameTarget(old(fs.nodes), fs.nodes, fs.cwd, raw, handle);
        fs.RemoveFile(raw);
        return false;
      }
      fileSize := fileSize - readLen;
      total := total + readLen;
    }
    return true;
  }

  /** The content of a file does not matter for where a path leads. */
  lemma SameTarget(nodes: Nodes, more: Nodes, cwd: Path, raw: bytes, p: Path)
    requires p in nodes && nodes[p].File? && p in more && more[p].File? && more == nodes[p := more[p]]
    requires OpenTarget(nodes, cwd, raw) == Some(p)
    ensures OpenTarget(more, cwd, raw) == Some(p)
  {
    SameDirsResolveAlike(nodes, more, if raw[0] == SLASH then [] else cwd, Split(SLASH, raw));
  }

  lemma {:induction false} SameDirsResolveAlike(nodes: Nodes, more: Nodes, cur: Path, cs: seq<bytes>)
    requires forall p :: IsDir(nodes, p) <==> IsDir(more, p)
    ensures Resolve(nodes, cur, cs) == Resolve(more, cur, cs)
    decreases |cs|
  {
    if cs != [] { SameDirsResolveAlike(nodes, more, Enter(cur, cs[0]), cs[1..]); }
  }

  /** _save_file_common */
  method SaveFileCommon(version: nat, sock: Socket, fs: Fs, raw: bytes, maxSize: int) returns (ok: bool)
    requires fs.Valid() && NUL !in raw
    modifies sock`incoming, sock`calls, fs
    ensures fs.calls >= old(fs.calls)
    ensures fs.Valid() && Touched(old(fs.nodes), fs.nodes, fs.cwd, raw)
    ensures version < 3 && fs.nodes != old(fs.nodes) ==>
              OpenTarget(old(fs.nodes), fs.cwd, raw).Some?
              && Written(old(fs.nodes), fs.nodes, OpenTarget(old(fs.nodes), fs.cwd, raw).value)
    ensures !ok && fs.Healthy() && version < 3 && Vacant(old(fs.nodes), fs.cwd, raw) ==> fs.nodes == old(fs.nodes)
    ensures ok ==>
              SaveBody(old(fs.nodes), fs.cwd, version, maxSize, raw, old(sock.incoming)) == Got(fs.nodes, sock.incoming)
    ensures SaveBody(old(fs.nodes), fs.cwd, version, maxSize, raw, old(sock.incoming)).Got? ==>
              (sock.open && sock.Reliable() && fs.Healthy() ==> ok)
    ensures ok ==> |old(sock.incoming)| >= 8 && DecodeSize(old(sock.incoming)[..8]) <= maxSize
    ensures |old(sock.incoming)| >= 8 && DecodeSize(old(sock.incoming)[..8]) > maxSize ==>
              !ok && fs.nodes == old(fs.nodes)
    ensures FilesFit(old(fs.nodes), fs.nodes, maxSize)
  {
    hide FilesFit, DecodeSize, Stage, EnsureDirs;
    Untouched(fs.nodes, fs.cwd, raw);
    NothingTooLarge(fs.nodes, maxSize);
    var fileSize;
    ok, fileSize := sock.ReadSize();
    if !ok || fileSize > maxSize { return false; }
    if fileSize == -1 && version >= 3 {
      ok := fs.MkdirsCall(raw);
      StageFits(old(fs.nodes), fs.nodes, fs.cwd, raw, maxSize);
      return;
    }
    if fileSize < 0 { return false; }
    var handle := fs.Open(raw);
    if handle.None? { return false; }
    OpenedIsTarget(old(fs.nodes), fs.cwd, raw, handle.value);
    ok := ReceiveContent(sock, fs, handle.value, raw, fileSize);
    WrittenFits(old(fs.nodes), fs.nodes, handle.value, maxSize);
  }

  lemma OpenedIsTarget(nodes: Nodes, cwd: Path, raw: bytes, p: Path)
    requires OpenTarget(nodes, cwd, raw) == Some(p)
    ensures OpenTarget(nodes[p := File([])], cwd, raw) == Some(p)
  {
    SameDirsResolveAlike(nodes, nodes[p := File([])], if raw[0] == SLASH then [] else cwd, Split(SLASH, raw));
  }

  /** _make_directories */
  method MakeDirectories(fs: Fs, path: bytes) returns (ok: bool)
    requires fs.Valid() && NUL !in path && SLASH in path
    modifies fs
    ensures fs.calls >= old(fs.calls)
    ensures fs.Valid()
    ensures ok ==> Mkdirs(old(fs.nodes), fs.cwd, path[..LastSlash(path)]) == Some(fs.nodes)
    ensures fs.Healthy() && Mkdirs(old(fs.nodes), fs.cwd, path[..LastSlash(path)]).Some? ==> ok
    ensures Stage(old(fs.nodes), fs.nodes, fs.cwd, path[..LastSlash(path)])
  {
    ok := fs.MkdirsCall(path[..LastSlash(path)]);
  }

  /** _is_valid_fname */
  method IsValidFname(name: bytes) returns (ok: bool)
    requires name != []
    ensures ok == ValidName(name) && ok == IsCleanText(name)
  {
    hide IsCleanText;
    ValidIsClean(name);
    if !Utf8.WellFormed(name) { return false; }
    var buf := name + [NUL];
    ghost var s := CStr(name);
    assert buf[|s|] == NUL && forall i :: 0 <= i < |s| ==> buf[i] == s[i];
    var fname := 0;
    while true
      invariant 0 <= fname <= |s| && forall i :: 0 <= i < fname ==> s[i] >= 32
      invariant fname == |s| ==> s == []
      decreases |s| - fname
    {
      if buf[fname] < 32 {
        assert fname < |s| ==> s[fname] in s;
        return false;
      }
      fname := fname + 1;
      if buf[fname] == NUL { break; }
    }
    return true;
  }

  /** The effective path of a received name: terminate it, drop a slash at the end, put it below the temp directory. */
  method ComposePath(dirname: bytes, name: bytes) returns (raw: bytes)
    requires name != []
    ensures raw == NewPath(dirname, name)
  {
    hide CStr;
    var fileName := name + [NUL];
    if fileName[|name| - 1] == SLASH { fileName := fileName[|name| - 1 := NUL]; }
    var s := CStr(fileName);
    TerminatedName(name);
    assert s == Stripped(name);
    FirstOfTerminated(fileName);
    if fileName[0] == SLASH {
      raw := dirname + s;
      assert dirname + ([SLASH] + s[1..]) == dirname + [SLASH] + s[1..];
    } else {
      raw := dirname + [SLASH] + s;
    }
  }

  lemma FirstOfTerminated(buf: bytes)
    requires buf != []
    ensures buf[0] == SLASH <==> CStr(buf) != [] && CStr(buf)[0] == SLASH
    ensures buf[0] == SLASH ==> CStr(buf) == [SLASH] + CStr(buf)[1..]
  {
  }

  lemma TerminatedName(name: bytes)
    requires name != []
    ensures CStr(name + [NUL]) == CStr(name)
    ensures CStr((name + [NUL])[|name| - 1 := NUL]) == CStr(name[..|name| - 1])
  {
    CStrStops(name, [NUL]);
    var init := name[..|name| - 1];
    assert (name + [NUL])[|name| - 1 := NUL] == init + [NUL, NUL];
    CStrStops(init, [NUL, NUL]);
  }

  /**
    * save_file. It creates entries below the temp directory only, whatever the peer sends and wherever it
    * stops; it succeeds with exactly the file system that the specification gives.
    */
  method SaveFileCall(version: nat, sock: Socket, fs: Fs, dirname: bytes, maxSize: int) returns (ok: bool)
    requires fs.Valid() && TempDir(fs.nodes, fs.cwd, dirname)
    modifies sock`incoming, sock`calls, fs
    ensures fs.calls >= old(fs.calls)
    ensures fs.Valid() && GrowsBelow(old(fs.nodes), fs.nodes, TempPath(fs.cwd, dirname))
    ensures ok ==> SaveFile(old(fs.nodes), fs.cwd, version, maxSize, dirname, old(sock.incoming))
                   == Got(fs.nodes, sock.incoming)
    ensures SaveFile(old(fs.nodes), fs.cwd, version, maxSize, dirname, old(sock.incoming)).Got? ==>
              (sock.open && sock.Reliable() && fs.Healthy() ==> ok)
    ensures ok ==> IsStored(version, maxSize, old(sock.incoming), old(fs.nodes), fs.nodes, sock.incoming)
    ensures FilesFit(old(fs.nodes), fs.nodes, maxSize)
  {
    hide SaveNamed, GrowsBelow, DecodeSize, FilesFit, IsCleanText, IsStored;
    NothingGrows(fs.nodes, TempPath(fs.cwd, dirname));
    NothingTooLarge(fs.nodes, maxSize);
    var fnameSize, name;
    ok, fnameSize := sock.ReadSize();
    if !ok || fnameSize <= 0 || fnameSize > MAX_FILE_NAME_LEN { return false; }
    ok, name := sock.ReadBytes(fnameSize);
    if !ok { return false; }
    assert name == old(sock.incoming)[8..8 + fnameSize];
    assert sock.incoming == old(sock.incoming)[8 + fnameSize..];
    ok := SaveNamedCall(version, sock, fs, dirname, name, maxSize);
    if ok {
      SavedIsStored(old(fs.nodes), fs.cwd, version, maxSize, dirname, old(sock.incoming), fs.nodes, sock.incoming);
    }
  }

  /** save_file once the name was read. */
  method SaveNamedCall(version: nat, sock: Socket, fs: Fs, dirname: bytes, name: bytes, maxSize: int) returns (ok: bool)
    requires fs.Valid() && TempDir(fs.nodes, fs.cwd, dirname) && name != []
    modifies sock`incoming, sock`calls, fs
    ensures fs.calls >= old(fs.calls)
    ensures fs.Valid() && GrowsBelow(old(fs.nodes), fs.nodes, TempPath(fs.cwd, dirname))
    ensures ok ==> SaveNamed(old(fs.nodes), fs.cwd, version, maxSize, dirname, name, old(sock.incoming))
                   == Got(fs.nodes, sock.incoming)
    ensures SaveNamed(old(fs.nodes), fs.cwd, version, maxSize, dirname, name, old(sock.incoming)).Got? ==>
              (sock.open && sock.Reliable() && fs.Healthy() ==> ok)
    ensures ok ==> IsCleanText(name)
    ensures FilesFit(old(fs.nodes), fs.nodes, maxSize)
  {
    hide HasBadPath, Mkdirs, SaveBody, ValidName, Stage, GrowsBelow, Touched, NewPath, Exists, Locate, FilesFit;
    NothingGrows(fs.nodes, TempPath(fs.cwd, dirname));
    NothingTooLarge(fs.nodes, maxSize);
    ok := IsValidFname(name);
    if !ok { return false; }
    var raw := ComposePath(dirname, name);
    ghost var rel := PathShape(dirname, name);
    if |raw| >= |name| + 20 { return false; }
    if HasBadPath(raw) { return false; }
    ok := MakeDirectories(fs, raw);
    ParentsStayBelow(old(fs.nodes), fs.nodes, fs.cwd, dirname, rel);
    StillTempDir(old(fs.nodes), fs.nodes, fs.cwd, dirname);
    StageFits(old(fs.nodes), fs.nodes, fs.cwd, raw[..LastSlash(raw)], maxSize);
    if !ok { return false; }
    var there := fs.FileExists(raw);
    if there { return false; }
    ghost var more := fs.nodes;
    VacantPath(old(fs.nodes), more, fs.cwd, raw);
    ok := SaveFileCommon(version, sock, fs, raw, maxSize);
    TouchedStaysBelow(more, fs.nodes, fs.cwd, dirname, rel);
    GrowsTransitively(old(fs.nodes), more, fs.nodes, TempPath(fs.cwd, dirname));
    FitsTransitively(old(fs.nodes), more, fs.nodes, maxSize);
  }

  lemma NothingGrows(nodes: Nodes, root: Path)
    ensures GrowsBelow(nodes, nodes, root)
  {
  }

  lemma PathShape(dirname: bytes, name: bytes) returns (rel: bytes)
    requires name != [] && |dirname| > 2 && dirname[..2] == [DOT, SLASH] && LegalName(dirname[2..])
    ensures NewPath(dirname, name) == dirname + [SLASH] + rel
    ensures NUL !in NewPath(dirname, name) && SLASH in NewPath(dirname, name)
    ensures NewPath(dirname, name) != [] && NewPath(dirname, name)[0] != SLASH && LastSlash(NewPath(dirname, name)) >= 0
  {
    rel := Relative(Stripped(name));
    assert dirname == [DOT, SLASH] + dirname[2..];
    SplitParent(NewPath(dirname, name));
  }

  lemma VacantPath(nodes: Nodes, more: Nodes, cwd: Path, raw: bytes)
    requires WellFormed(nodes) && IsDir(nodes, cwd) && raw != [] && raw[0] != SLASH && SLASH in raw
    requires LastSlash(raw) >= 0 && Mkdirs(nodes, cwd, raw[..LastSlash(raw)]) == Some(more) && !Exists(more, cwd, raw)
    ensures Vacant(more, cwd, raw)
  {
    ParentsLead(nodes, more, cwd, raw);
  }

  /** The loop of _send_files_dirs: it stops at the first failure. */
  method SaveFiles(version: nat, sock: Socket, fs: Fs, dirname: bytes, maxSize: int, cnt: nat) returns (ok: bool)
    requires fs.Valid() && TempDir(fs.nodes, fs.cwd, dirname)
    modifies sock`incoming, sock`calls, fs
    ensures fs.calls >= old(fs.calls)
    ensures fs.Valid() && GrowsBelow(old(fs.nodes), fs.nodes, TempPath(fs.cwd, dirname))
    ensures ok ==> SaveAll(old(fs.nodes), fs.cwd, version, maxSize, dirname, cnt, old(sock.incoming))
                   == Got(fs.nodes, sock.incoming)
    ensures SaveAll(old(fs.nodes), fs.cwd, version, maxSize, dirname, cnt, old(sock.incoming)).Got? ==>
              (sock.open && sock.Reliable() && fs.Healthy() ==> ok)
    ensures FilesFit(old(fs.nodes), fs.nodes, maxSize)
  {
    hide SaveFile, GrowsBelow, FilesFit, IsCleanText;
    NothingGrows(fs.nodes, TempPath(fs.cwd, dirname));
    NothingTooLarge(fs.nodes, maxSize);
    ghost var goal := SaveAll(fs.nodes, fs.cwd, version, maxSize, dirname, cnt, sock.incoming);
    for fileNum := 0 to cnt
      invariant fs.Valid() && TempDir(fs.nodes, fs.cwd, dirname) && fs.calls >= old(fs.calls)
      invariant sock.open == old(sock.open) && FilesFit(old(fs.nodes), fs.nodes, maxSize)
      invariant GrowsBelow(old(fs.nodes), fs.nodes, TempPath(fs.cwd, dirname))
      invariant goal == SaveAll(fs.nodes, fs.cwd, version, maxSize, dirname, cnt - fileNum, sock.incoming)
    {
      ghost var before := fs.nodes;
      ok := SaveFileCall(version, sock, fs, dirname, maxSize);
      GrowsTransitively(old(fs.nodes), before, fs.nodes, TempPath(fs.cwd, dirname));
      FitsTransitively(old(fs.nodes), before, fs.nodes, maxSize);
      if !ok { return false; }
      StillTempDir(before, fs.nodes, fs.cwd, dirname);
    }
    return true;
  }
}
