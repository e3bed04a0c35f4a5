/** The whole reception of a batch, _send_files_dirs: temp directory, files, acknowledgement, landing. */
module Batch {
  import opened Bytes
  import opened Common
  import opened Paths
  import opened FileSystem
  import opened NetUtils
  import opened Receive
  import opened Landing
  import CutFiles

  /** The settings that matter here; `home` means that no working directory is configured. */
  datatype Config = Config(maxFileSize: int, maxFileCount: nat, home: bool, cwdText: bytes, cutSentFiles: bool)

  // ---------------------------------------------------------------- the name of the temp directory

  /** %x */
  function Hex(n: nat): bytes {
    if n < 16 then [HexLetter(n)] else Hex(n / 16) + [HexLetter(n % 16)]
  }

  function HexLetter(n: nat): byte
    requires n < 16
  {
    if n < 10 then 48 + n else 87 + n
  }

  function Power16(k: nat): nat {
    if k == 0 then 1 else 16 * Power16(k - 1)
  }

  lemma {:induction false} HexLength(n: nat, k: nat)
    requires k >= 1 && n < Power16(k)
    ensures |Hex(n)| <= k && Hex(n) != [] && forall c :: c in Hex(n) ==> 48 <= c <= 57 || 97 <= c <= 102
  {
    if n >= 16 {
      assert k > 1 by { assert Power16(1) == 16 * Power16(0); }
      HexLength(n / 16, k - 1);
    }
  }

  /** "./" and the identifier in hexadecimal. */
  function TempName(id: nat): bytes { InCwd(Hex(id)) }

  lemma TempNameIsLegal(id: nat)
    requires id < 0x1_0000_0000
    ensures LegalName(Hex(id)) && 2 < |TempName(id)| <= 10
    ensures TempName(id)[..2] == [DOT, SLASH] && TempName(id)[2..] == Hex(id)
  {
    hide Hex;
    assert Power16(8) == 0x1_0000_0000 by { assert Power16(2) == 256 && Power16(4) == 65536; }
    HexLength(id, 8);
    assert Hex(id)[0] in Hex(id);
  }

  /** `dirname` is the first of the names made from `ids` that does not exist. */
  ghost predicate Picks(nodes: Nodes, cwd: Path, ids: seq<nat>, dirname: bytes) {
    |dirname| > 2 && exists k: nat :: FirstFreeId(nodes, cwd, ids, k) && dirname == TempName(ids[k])
  }

  ghost predicate FirstFreeId(nodes: Nodes, cwd: Path, ids: seq<nat>, k: nat) {
    k < |ids| && ids[k] < 0x1_0000_0000 && !Exists(nodes, cwd, TempName(ids[k]))
    && forall j :: 0 <= j < k ==> Exists(nodes, cwd, TempName(ids[j]))
  }

  /** The loop over random identifiers, for as long as the names exist; `ids` are the values of time and rand. */
  method PickName(fs: Fs, ids: seq<nat>, ghost dirname: bytes) returns (name: bytes)
    requires Picks(fs.nodes, fs.cwd, ids, dirname)
    ensures name == dirname
  {
    ghost var k: nat :| FirstFreeId(fs.nodes, fs.cwd, ids, k) && dirname == TempName(ids[k]);
    var i := 0;
    name := TempName(ids[i]);
    var there := fs.FileExists(name);
    while there
      invariant 0 <= i <= k && name == TempName(ids[i]) && there == Exists(fs.nodes, fs.cwd, name)
      decreases k - i
    {
      i := i + 1;
      name := TempName(ids[i]);
      there := fs.FileExists(name);
    }
    assert i == k;
  }

  lemma PickedIsLong(nodes: Nodes, cwd: Path, ids: seq<nat>, dirname: bytes)
    requires Picks(nodes, cwd, ids, dirname)
    ensures |dirname| > 2
  {
    hide FirstFreeId;
  }

  lemma PickedIsFresh(nodes: Nodes, cwd: Path, ids: seq<nat>, dirname: bytes)
    requires WellFormed(nodes) && IsDir(nodes, cwd) && Picks(nodes, cwd, ids, dirname)
    ensures FreshName(nodes, cwd, dirname)
  {
    var k: nat :| FirstFreeId(nodes, cwd, ids, k) && dirname == TempName(ids[k]);
    TempNameIsLegal(ids[k]);
    LocateInCwd(nodes, cwd, Hex(ids[k]));
  }

  /** What the loop ends with: "./", a name, and nothing there yet. */
  predicate FreshName(nodes: Nodes, cwd: Path, dirname: bytes) {
    && 2 < |dirname| <= 16 && dirname[..2] == [DOT, SLASH] && LegalName(dirname[2..])
    && TempPath(cwd, dirname) !in nodes
  }

  lemma SplitDirname(dirname: bytes)
    requires |dirname| > 2 && dirname[..2] == [DOT, SLASH] && LegalName(dirname[2..])
    ensures Split(SLASH, dirname) == [[DOT], dirname[2..]] && NUL !in dirname && dirname[0] == DOT
  {
    hide Split;
    assert dirname == [DOT] + [SLASH] + dirname[2..];
    SplitConcat(SLASH, [DOT], dirname[2..]);
    SplitClean(SLASH, [DOT]);
    SplitClean(SLASH, dirname[2..]);
  }

  /** Making the temp directory adds this one directory, or with an error perhaps nothing. */
  lemma TempDirMade(nodes: Nodes, more: Nodes, cwd: Path, dirname: bytes)
    requires IsDir(nodes, cwd) && FreshName(nodes, cwd, dirname)
    ensures Stage(nodes, more, cwd, dirname) ==> more == nodes || more == nodes[TempPath(cwd, dirname) := Dir]
    ensures Mkdirs(nodes, cwd, dirname) == Some(more) ==> more == nodes[TempPath(cwd, dirname) := Dir]
    ensures Mkdirs(nodes, cwd, dirname).Some?
  {
    SplitDirname(dirname);
    var cs, t := [[DOT], dirname[2..]], dirname[2..];
    var none: Path := [];
    assert cs[1..] == [t] && [t][1..] == none && cs[..0] == none && cs[..1] == [[DOT]] && cs[..2] == cs;
    assert EnsureDirs(nodes, cwd, [[DOT]]) == Some(nodes);
    assert EnsureDirs(nodes, cwd, cs) == EnsureDirs(nodes, cwd, [t]) == Some(nodes[cwd + [t] := Dir]);
    assert Resolve(nodes, cwd, cs) == Resolve(nodes, cwd, [t]) == Some(cwd + [t]);
  }

  /** Landing keeps everything that was there before the batch, and what is new is below the working directory. */
  lemma LandingGrows(before: Nodes, mid: Nodes, now: Nodes, tmp: Path, cwd: Path, moved: map<Name, Name>, gone: bool)
    requires WellFormed(before) && tmp !in before && cwd < tmp
    requires GrowsBelow(before, mid, cwd) && Landed(mid, now, tmp, cwd, moved, gone)
    ensures GrowsBelow(before, now, cwd)
  {
    forall p | p in before ensures p in now && now[p] == before[p] {
      if tmp <= p { PrefixIsEntry(before, p, tmp); }
      OutsideStays(mid, now, tmp, cwd, moved, gone, p);
    }
    forall q | q in now && q !in before ensures cwd < q {
      var p :| p in mid && !(gone && p == tmp) && Where(tmp, cwd, moved, p) == q;
    }
  }

  lemma AddedBelow(before: Nodes, tmp: Path, cwd: Path, node: Node)
    requires tmp !in before && cwd < tmp
    ensures GrowsBelow(before, before[tmp := node], cwd)
  {
  }

  lemma GrowsHigher(a: Nodes, b: Nodes, c: Nodes, tmp: Path, cwd: Path)
    requires cwd < tmp && GrowsBelow(a, b, cwd) && GrowsBelow(b, c, tmp)
    ensures GrowsBelow(a, c, cwd)
  {
  }

  lemma RemovedAgain(before: Nodes, now: Nodes, tmp: Path, cwd: Path)
    requires tmp !in before && GrowsBelow(before, now, cwd)
    ensures GrowsBelow(before, now - {tmp}, cwd)
  {
  }

  /** There is an entry directly in the directory. */
  ghost predicate HoldsSomething(nodes: Nodes, d: Path) {
    exists n :: d + [n] in nodes
  }

  /** What was received can land: there is something, the names fit, and free names are left. */
  ghost predicate Roomy(nodes: Nodes, tmp: Path) {
    && |nodes| < 1000000 && HoldsSomething(nodes, tmp)
    && forall n :: tmp + [n] in nodes ==> |n| <= MAX_FILE_NAME_LEN
  }

  lemma RoomyIsLandable(nodes: Nodes, cwd: Path, dirname: bytes, files: seq<Name>)
    requires 2 < |dirname| <= 16 && ListsDir(nodes, TempPath(cwd, dirname), files)
    ensures Roomy(nodes, TempPath(cwd, dirname)) ==> files != [] && Landable(nodes, cwd, dirname, files)
  {
    if Roomy(nodes, TempPath(cwd, dirname)) {
      var n :| TempPath(cwd, dirname) + [n] in nodes;
      assert n in files;
    }
  }

  lemma NothingBelow(nodes: Nodes, d: Path)
    requires WellFormed(nodes) && IsDir(nodes, d) && d != [] && !HoldsSomething(nodes, d)
    ensures IsEmptyDir(nodes, d)
  {
    forall p | p in nodes ensures !(d < p) {
      if d < p { PrefixIsEntry(nodes, p, d + [p[|d|]]); }
    }
  }

  lemma ListsSomething(nodes: Nodes, d: Path, names: seq<Name>)
    requires ListsDir(nodes, d, names)
    ensures names != [] <==> HoldsSomething(nodes, d)
  {
    if names != [] {
      assert names[0] in names;
    } else {
      forall n ensures d + [n] !in nodes { assert n !in names; }
    }
  }

  /** readdir returns names that can be entries. */
  lemma ListedNamesAreLegal(nodes: Nodes, d: Path, names: seq<Name>)
    requires WellFormed(nodes) && ListsDir(nodes, d, names)
    ensures forall n :: n in names ==> LegalName(n)
  {
    forall n | n in names ensures LegalName(n) {
      assert Attached(nodes, d + [n]);
      assert (d + [n])[|d|] == n;
    }
  }

  /** The announced number of records is within the limit. */
  predicate Acceptable(conf: Config, stream: bytes) {
    8 <= |stream| && 0 < DecodeSize(stream[..8]) <= conf.maxFileCount
  }

  /** What becomes of a stream that begins with the number of records: the file system with the full temp directory. */
  function BatchResult(nodes: Nodes, cwd: Path, version: nat, conf: Config, dirname: bytes, stream: bytes): Received
    requires |dirname| > 2
  {
    if !Acceptable(conf, stream) then Failed
    else SaveAll(nodes[TempPath(cwd, dirname) := Dir], cwd, version, conf.maxFileSize, dirname,
                 DecodeSize(stream[..8]), stream[8..])
  }

  /** All records can be saved, and what they make can land. */
  ghost predicate Receivable(nodes: Nodes, cwd: Path, version: nat, conf: Config, dirname: bytes, stream: bytes)
    requires |dirname| > 2
  {
    match BatchResult(nodes, cwd, version, conf, dirname, stream)
    case Failed => false
    case Got(full, _) => Roomy(full, TempPath(cwd, dirname))
  }

  /**
    * _send_files_dirs. Whatever the peer sends and wherever it fails, nothing that was there is lost or changed
    * and nothing is created outside the working directory. `mid` is the file system after the reception; every
    * entry of it is at exactly one place in the end. With `destFiles`, every record was saved and every entry of the
    * temp directory landed. The acknowledgement of version 4 is written exactly when all records were saved. A landing
    * that fails is no failure of the call unless the temp directory is empty or cannot be listed; the cut list that
    * follows one that succeeds decides the status.
    */
  method SendFilesDirs(version: nat, sock: Socket, fs: Fs, conf: Config, ids: seq<nat>, memory: nat -> bool,
                       ghost dirname: bytes)
    returns (ok: bool, destFiles: Option<seq<bytes>>, clip: Option<bytes>, ghost mid: Nodes,
             ghost moved: map<Name, Name>, ghost attempt: Attempt)
    requires fs.Valid() && Picks(fs.nodes, fs.cwd, ids, dirname)
    modifies sock, fs
    ensures fs.Valid() && GrowsBelow(old(fs.nodes), fs.nodes, fs.cwd)
    ensures old(sock.sent) <= sock.sent <= old(sock.sent) + [STATUS_OK, ACK]
    ensures attempt.Tried? ==>
              BatchResult(old(fs.nodes), fs.cwd, version, conf, dirname, old(sock.incoming)) == Got(mid, sock.incoming)
    ensures attempt.Tried? ==>
              8 <= |old(sock.incoming)| && 0 < DecodeSize(old(sock.incoming)[..8]) <= conf.maxFileCount
    ensures |sock.sent| > |old(sock.sent)| + 1 ==> version >= 4
    ensures version >= 4 ==> (attempt.Tried? <==> sock.sent == old(sock.sent) + [STATUS_OK, ACK])
    ensures Outcome(fs, attempt, mid, TempPath(fs.cwd, dirname), ok, destFiles.Some?)
    ensures attempt.Tried? ==> old(fs.calls) <= attempt.listing < fs.calls
    ensures CutIsOffered(conf, destFiles, memory, ok, clip)
    ensures destFiles.Some? ==> NamesLanded(destFiles.value, conf.cwdText, moved)
    ensures NamedWell(mid, fs.cwd, conf.home, moved) && FilesFit(old(fs.nodes), mid, conf.maxFileSize)
    ensures NothingInTheWay(old(fs.nodes), mid, TempPath(fs.cwd, dirname), fs.cwd, conf.home) ==>
              forall f :: f in moved ==> moved[f] == f
    ensures GrowsBelow(old(fs.nodes), mid, fs.cwd)
    ensures Accounted(mid, fs.nodes, TempPath(fs.cwd, dirname), fs.cwd, moved)
    ensures destFiles.Some? ==> HasLanded(mid, fs.nodes, TempPath(fs.cwd, dirname), fs.cwd, moved)
    ensures destFiles.Some? ==> (ok <==> (conf.cutSentFiles ==> CutFiles.CutFits(destFiles.value, memory)))
    ensures fs.Healthy() && old(sock.open) && sock.Reliable() ==>
              sock.sent == old(sock.sent)
                + if version >= 4 && BatchResult(old(fs.nodes), fs.cwd, version, conf, dirname, old(sock.incoming)).Got?
                  then [STATUS_OK, ACK] else [STATUS_OK]
    ensures fs.Healthy() && old(sock.open) && sock.Reliable() ==>
              (Receivable(old(fs.nodes), fs.cwd, version, conf, dirname, old(sock.incoming)) ==> destFiles.Some?)
  {
    hide Accounted, HasLanded, BatchResult, DecodeSize, WellFormed, GrowsBelow, Receivable, FreshName, CutFiles.CutFits;
    hide FirstFreeId, TempName, Acceptable, HoldsSomething, NamesLanded, NamedWell, NothingInTheWay,
         FilesFit;
    mid, moved, destFiles, clip, attempt := fs.nodes, map[], None, None, NotTried;
    PickedIsFresh(fs.nodes, fs.cwd, ids, dirname);
    Receive.NothingGrows(mid, fs.cwd);
    NothingLandedYet(mid, TempPath(fs.cwd, dirname), fs.cwd);
    NoNamesYet(mid, fs.cwd, conf.home);
    NothingTooLarge(mid, conf.maxFileSize);
    if !Acceptable(conf, sock.incoming) { NotAcceptable(fs.nodes, fs.cwd, version, conf, dirname, sock.incoming); }
    var count;
    ok, count := AcceptCount(sock, conf);
    if !ok { return; }
    var name := PickName(fs, ids, dirname);
    ok, destFiles, clip, mid, moved, attempt := ReceiveBatch(version, sock, fs, conf, name, memory, count,
                                                             old(sock.incoming));
  }

  /** The status byte, and the number of records, which must be within the limit. */
  method AcceptCount(sock: Socket, conf: Config) returns (ok: bool, count: nat)
    modifies sock`incoming, sock`sent, sock`calls
    ensures ok ==> Acceptable(conf, old(sock.incoming)) && count == DecodeSize(old(sock.incoming)[..8])
    ensures ok ==> 8 <= |old(sock.incoming)| && 0 < count <= conf.maxFileCount
    ensures ok ==> sock.incoming == old(sock.incoming)[8..] && sock.sent == old(sock.sent) + [STATUS_OK]
    ensures !ok ==> sock.sent == old(sock.sent) || sock.sent == old(sock.sent) + [STATUS_OK]
    ensures sock.open && sock.Reliable() ==>
              sock.sent == old(sock.sent) + [STATUS_OK] && (ok <==> Acceptable(conf, old(sock.incoming)))
  {
    hide DecodeSize;
    count := 0;
    ok := sock.WriteSock([STATUS_OK]);
    if !ok { return; }
    var size;
    ok, size := sock.ReadSize();
    if !ok { return; }
    if size <= 0 || size > conf.maxFileCount { return false, 0; }
    count := size;
  }

  lemma NotAcceptable(nodes: Nodes, cwd: Path, version: nat, conf: Config, dirname: bytes, stream: bytes)
    requires |dirname| > 2 && !Acceptable(conf, stream)
    ensures BatchResult(nodes, cwd, version, conf, dirname, stream) == Failed
    ensures !Receivable(nodes, cwd, version, conf, dirname, stream)
  {
  }

  /** What follows once the number of records was read from the front of `stream`. */
  method ReceiveBatch(version: nat, sock: Socket, fs: Fs, conf: Config, dirname: bytes, memory: nat -> bool, cnt: nat,
                      ghost stream: bytes)
    returns (ok: bool, destFiles: Option<seq<bytes>>, clip: Option<bytes>, ghost mid: Nodes,
             ghost moved: map<Name, Name>, ghost attempt: Attempt)
    requires fs.Valid() && FreshName(fs.nodes, fs.cwd, dirname)
    requires Acceptable(conf, stream) && cnt == DecodeSize(stream[..8]) && sock.incoming == stream[8..]
    modifies sock, fs
    ensures fs.Valid() && GrowsBelow(old(fs.nodes), fs.nodes, fs.cwd) && GrowsBelow(old(fs.nodes), mid, fs.cwd)
    ensures sock.sent == old(sock.sent) || sock.sent == old(sock.sent) + [ACK]
    ensures sock.sent != old(sock.sent) ==> version >= 4
    ensures version >= 4 ==> (attempt.Tried? <==> sock.sent == old(sock.sent) + [ACK])
    ensures attempt.Tried? ==>
              BatchResult(old(fs.nodes), fs.cwd, version, conf, dirname, stream) == Got(mid, sock.incoming)
    ensures fs.Healthy() && old(sock.open) && sock.Reliable() ==>
              (attempt.Tried? <==> BatchResult(old(fs.nodes), fs.cwd, version, conf, dirname, stream).Got?)
    ensures Outcome(fs, attempt, mid, TempPath(fs.cwd, dirname), ok, destFiles.Some?)
    ensures attempt.Tried? ==> old(fs.calls) <= attempt.listing < fs.calls
    ensures CutIsOffered(conf, destFiles, memory, ok, clip)
    ensures destFiles.Some? ==> NamesLanded(destFiles.value, conf.cwdText, moved)
    ensures NamedWell(mid, fs.cwd, conf.home, moved) && FilesFit(old(fs.nodes), mid, conf.maxFileSize)
    ensures NothingInTheWay(old(fs.nodes), mid, TempPath(fs.cwd, dirname), fs.cwd, conf.home) ==>
              forall f :: f in moved ==> moved[f] == f
    ensures fs.Healthy() && old(sock.open) && sock.Reliable() ==>
              (Receivable(old(fs.nodes), fs.cwd, version, conf, dirname, stream) ==> destFiles.Some?)
    ensures Accounted(mid, fs.nodes, TempPath(fs.cwd, dirname), fs.cwd, moved)
    ensures destFiles.Some? ==> HasLanded(mid, fs.nodes, TempPath(fs.cwd, dirname), fs.cwd, moved)
    ensures destFiles.Some? ==> (ok <==> (conf.cutSentFiles ==> CutFiles.CutFits(destFiles.value, memory)))
  {
    hide Accounted, HasLanded, SaveAll, Split, WellFormed, Mkdirs, CutFiles.CutFits, Roomy, Stage, HoldsSomething,
         CutFiles.CutText, CutFiles.Granted, NamesLanded, NamedWell, NothingInTheWay, FilesFit;
    ghost var tmp := TempPath(fs.cwd, dirname);
    destFiles, clip, attempt := None, None, NotTried;
    SplitDirname(dirname);
    ok := fs.MkdirsCall(dirname);
    TempDirMade(old(fs.nodes), fs.nodes, fs.cwd, dirname);
    AddedBelow(old(fs.nodes), tmp, fs.cwd, Dir);
    mid, moved := fs.nodes, map[];
    NothingLandedYet(mid, tmp, fs.cwd);
    NoNamesYet(mid, fs.cwd, conf.home);
    OneMoreDirFits(old(fs.nodes), tmp, conf.maxFileSize);
    if !ok { return; }
    ok, mid := SaveAndAcknowledge(version, sock, fs, conf, dirname, cnt);
    FitsTransitively(old(fs.nodes), old(fs.nodes)[tmp := Dir], mid, conf.maxFileSize);
    GrowsHigher(old(fs.nodes), old(fs.nodes)[tmp := Dir], fs.nodes, tmp, fs.cwd);
    if ok { attempt := Tried(fs.calls); }
    ok, destFiles, clip, moved := Land(fs, conf, dirname, memory, ok, old(fs.nodes));
    OwnNamesAreKept(old(fs.nodes), mid, fs.nodes, tmp, fs.cwd, conf.home, moved);
  }

  /** Whether every record was saved, and then the number of the call that lists the temp directory. */
  datatype Attempt = NotTried | Tried(listing: nat)

  /**
    * The status when the entries did not land: success exactly if all was saved and the temp directory could be listed
    * and holds something. So if the system refuses everything after the listing, the status is success.
    */
  ghost predicate Outcome(fs: Fs, attempt: Attempt, mid: Nodes, tmp: Path, ok: bool, landed: bool)
  {
    && (ok || landed ==> attempt.Tried?)
    && (!landed ==> (ok <==> attempt.Tried? && !fs.faults(attempt.listing) && HoldsSomething(mid, tmp)))
    && (attempt.Tried? && !fs.faults(attempt.listing) && HoldsSomething(mid, tmp) ==>
          (fs.RefusesFrom(attempt.listing + 2) ==> ok && !landed))
  }

  /** Every entry of the file system after the reception is at exactly one place, perhaps without the temp directory. */
  ghost predicate Accounted(mid: Nodes, now: Nodes, tmp: Path, cwd: Path, moved: map<Name, Name>) {
    Landed(mid, now, tmp, cwd, moved, Gone(mid, now, tmp)) && OnePlaceEach(mid, tmp, cwd, moved)
  }

  /** The temp directory is gone, and every entry of it has a new name. */
  ghost predicate HasLanded(mid: Nodes, now: Nodes, tmp: Path, cwd: Path, moved: map<Name, Name>) {
    Landed(mid, now, tmp, cwd, moved, true) && tmp !in now && forall f :: tmp + [f] in mid ==> f in moved
  }

  /** The temp directory was removed. */
  predicate Gone(was: Nodes, now: Nodes, tmp: Path) { tmp in was && tmp !in now }

  lemma NothingLandedYet(nodes: Nodes, tmp: Path, cwd: Path)
    ensures Accounted(nodes, nodes, tmp, cwd, map[])
  {
    hide Landed;
    NothingMoved(nodes, tmp, cwd);
    assert forall p :: Where(tmp, cwd, map[], p) == p;
  }

  /** The loop over the records, and what is sent and closed after it. */
  method SaveAndAcknowledge(version: nat, sock: Socket, fs: Fs, conf: Config, dirname: bytes, cnt: nat)
    returns (ok: bool, ghost mid: Nodes)
    requires fs.Valid() && TempDir(fs.nodes, fs.cwd, dirname)
    modifies sock, fs
    ensures fs.Valid() && TempDir(fs.nodes, fs.cwd, dirname) && mid == fs.nodes
    ensures GrowsBelow(old(fs.nodes), fs.nodes, TempPath(fs.cwd, dirname))
    ensures FilesFit(old(fs.nodes), fs.nodes, conf.maxFileSize)
    ensures sock.sent == old(sock.sent) || sock.sent == old(sock.sent) + [ACK]
    ensures ok || sock.sent != old(sock.sent) ==>
              SaveAll(old(fs.nodes), fs.cwd, version, conf.maxFileSize, dirname, cnt, old(sock.incoming))
              == Got(mid, sock.incoming)
    ensures sock.sent != old(sock.sent) ==> version >= 4
    ensures version >= 4 ==> (ok <==> sock.sent == old(sock.sent) + [ACK])
    ensures fs.calls >= old(fs.calls)
    ensures SaveAll(old(fs.nodes), fs.cwd, version, conf.maxFileSize, dirname, cnt, old(sock.incoming)).Got? ==>
              (old(sock.open) && sock.Reliable() && fs.Healthy() ==> ok)
    ensures old(sock.open) && sock.Reliable() && !ok ==> sock.sent == old(sock.sent)
  {
    hide SaveAll, GrowsBelow, FilesFit;
    ok := SaveFiles(version, sock, fs, dirname, conf.maxFileSize, cnt);
    mid := fs.nodes;
    StillTempDir(old(fs.nodes), fs.nodes, fs.cwd, dirname);
    if ok && version >= 4 {
      ok := sock.WriteSock([ACK]);
    }
    sock.open := false;
  }

  lemma TempIsThereOrGone(was: Nodes, now: Nodes, tmp: Path, cwd: Path, moved: map<Name, Name>, gone: bool)
    requires tmp in was && Landed(was, now, tmp, cwd, moved, gone) && (gone ==> tmp !in now)
    ensures gone == Gone(was, now, tmp)
  {
    assert Where(tmp, cwd, moved, tmp) == tmp;
  }

  /** Removing the temp directory when it is empty. */
  lemma EmptyTempGoes(was: Nodes, tmp: Path, cwd: Path)
    requires |tmp| == |cwd| + 1 && tmp in was
    ensures Accounted(was, was - {tmp}, tmp, cwd, map[])
  {
    hide Landed, OnePlaceEach;
    NothingLandedYet(was, tmp, cwd);
    NothingMoved(was, tmp, cwd);
    TempDirCanGo(was, was, tmp, cwd, map[]);
  }

  /** What is handed to the X selection after a landing. */
  ghost predicate CutIsOffered(conf: Config, destFiles: Option<seq<bytes>>, memory: nat -> bool, ok: bool,
                               clip: Option<bytes>) {
    && (clip.Some? <==> ok && destFiles.Some? && conf.cutSentFiles)
    && (clip.Some? ==> CutFiles.CutText(CutFiles.Granted(destFiles.value, memory)) + [NUL] <= clip.value)
  }

  /** The paths of the new entries of the working directory, all of them and nothing else. */
  ghost predicate NamesLanded(paths: seq<bytes>, cwdText: bytes, moved: map<Name, Name>) {
    && paths != [] && (forall p :: p in paths ==> exists f :: f in moved && p == cwdText + [SLASH] + moved[f])
    && forall f :: f in moved ==> cwdText + [SLASH] + moved[f] in paths
  }

  /** None of the received names is taken or protected. */
  ghost predicate NothingInTheWay(before: Nodes, mid: Nodes, tmp: Path, cwd: Path, home: bool) {
    forall f :: tmp + [f] in mid ==> cwd + [f] !in before && cwd + [f] != tmp && !IsProtected(f, home)
  }

  lemma OwnNamesAreKept(before: Nodes, mid: Nodes, now: Nodes, tmp: Path, cwd: Path, home: bool,
                        moved: map<Name, Name>)
    requires NamedWell(mid, cwd, home, moved) && Accounted(mid, now, tmp, cwd, moved)
    requires |tmp| == |cwd| + 1 && GrowsBelow(before[tmp := Dir], mid, tmp)
    ensures NothingInTheWay(before, mid, tmp, cwd, home) ==> forall f :: f in moved ==> moved[f] == f
  {
    hide NamedWell, IsProtected, OnePlaceEach;
    if NothingInTheWay(before, mid, tmp, cwd, home) {
      forall g | g in moved ensures cwd + [g] !in mid && !IsProtected(g, home) {
        assert tmp + [g] in mid;
        assert !(tmp < cwd + [g]);
      }
      forall f | f in moved ensures moved[f] == f {
        OwnNameIsKept(mid, cwd, home, moved, f);
      }
    }
  }

  lemma OneMoreDirFits(nodes: Nodes, p: Path, maxSize: int)
    ensures FilesFit(nodes, nodes, maxSize) && FilesFit(nodes, nodes[p := Dir], maxSize)
  {
  }

  lemma NoNamesYet(nodes: Nodes, cwd: Path, home: bool)
    ensures NamedWell(nodes, cwd, home, map[])
  {
  }

  lemma AllAreNamed(paths: seq<bytes>, cwdText: bytes, files: seq<Name>, moved: map<Name, Name>)
    requires |paths| == |files| > 0 && forall f :: f in moved ==> f in files
    requires forall i :: 0 <= i < |files| ==> files[i] in moved && paths[i] == cwdText + [SLASH] + moved[files[i]]
    ensures NamesLanded(paths, cwdText, moved)
  {
    forall p | p in paths ensures exists f :: f in moved && p == cwdText + [SLASH] + moved[f] {
      var i :| 0 <= i < |paths| && paths[i] == p;
      assert files[i] in moved;
    }
    forall f | f in moved ensures cwdText + [SLASH] + moved[f] in paths {
      var i :| 0 <= i < |files| && files[i] == f;
      assert paths[i] in paths;
    }
  }

  /** From list_dir to the end. After a failed reception nothing moves. A failed landing is not an error here. */
  method Land(fs: Fs, conf: Config, dirname: bytes, memory: nat -> bool, saved: bool, ghost before: Nodes)
    returns (ok: bool, destFiles: Option<seq<bytes>>, clip: Option<bytes>, ghost moved: map<Name, Name>)
    requires fs.Valid() && TempDir(fs.nodes, fs.cwd, dirname) && TempPath(fs.cwd, dirname) !in before
    requires WellFormed(before) && GrowsBelow(before, fs.nodes, fs.cwd)
    modifies fs
    ensures fs.Valid() && GrowsBelow(before, fs.nodes, fs.cwd) && fs.calls > old(fs.calls)
    ensures ok || destFiles.Some? ==> saved
    ensures Accounted(old(fs.nodes), fs.nodes, TempPath(fs.cwd, dirname), fs.cwd, moved)
    ensures destFiles.Some? ==> HasLanded(old(fs.nodes), fs.nodes, TempPath(fs.cwd, dirname), fs.cwd, moved)
    ensures destFiles.Some? ==> (ok <==> (conf.cutSentFiles ==> CutFiles.CutFits(destFiles.value, memory)))
    ensures CutIsOffered(conf, destFiles, memory, ok, clip)
    ensures destFiles.Some? ==> NamesLanded(destFiles.value, conf.cwdText, moved)
    ensures !saved ==> moved == map[]
    ensures NamedWell(old(fs.nodes), fs.cwd, conf.home, moved)
    ensures saved && destFiles.None? ==>
              (ok <==> !fs.faults(old(fs.calls)) && HoldsSomething(old(fs.nodes), TempPath(fs.cwd, dirname)))
    ensures saved && !fs.faults(old(fs.calls)) && HoldsSomething(old(fs.nodes), TempPath(fs.cwd, dirname)) ==>
              (fs.RefusesFrom(old(fs.calls) + 2) ==> ok && destFiles.None? && fs.nodes == old(fs.nodes))
    ensures !HoldsSomething(old(fs.nodes), TempPath(fs.cwd, dirname))
            && !fs.faults(old(fs.calls)) && !fs.faults(old(fs.calls) + 1) ==>
              TempPath(fs.cwd, dirname) !in fs.nodes
    ensures fs.Healthy() && saved && |dirname| <= 16 && Roomy(old(fs.nodes), TempPath(fs.cwd, dirname)) ==>
              destFiles.Some?
  {
    hide Accounted, HasLanded, Landed, OnePlaceEach, Split, GrowsBelow, Roomy, Landable, WellFormed, ListsDir,
         CutFiles.CutFits, CutFiles.CutText, CutFiles.Granted, NamesLanded, NameIsGood;
    ghost var tmp := TempPath(fs.cwd, dirname);
    moved, destFiles, clip, ok := map[], None, None, saved;
    SplitDirname(dirname);
    LocateInTemp(fs.nodes, fs.cwd, dirname, dirname[2..]);
    NothingLandedYet(fs.nodes, tmp, fs.cwd);
    EmptyTempGoes(fs.nodes, tmp, fs.cwd);
    var files := fs.ReadDir(dirname);
    if files.None? { return false, None, None, moved; }
    ListsSomething(fs.nodes, tmp, files.value);
    if |dirname| <= 16 { RoomyIsLandable(fs.nodes, fs.cwd, dirname, files.value); }
    if files.value == [] {
      RemovedAgain(before, fs.nodes, tmp, fs.cwd);
      NothingBelow(fs.nodes, tmp);
      var removed := fs.Rmdir(dirname);
      return false, None, None, moved;
    }
    if ok {
      ListedNamesAreLegal(fs.nodes, tmp, files.value);
      destFiles, moved := CleanTempDir(fs, dirname, files.value, conf.cwdText, conf.home);
      LandingGrows(before, old(fs.nodes), fs.nodes, tmp, fs.cwd, moved, destFiles.Some?);
      AllHaveLanded(old(fs.nodes), fs.nodes, tmp, fs.cwd, moved, files.value, destFiles.Some?);
      if destFiles.Some? { AllAreNamed(destFiles.value, conf.cwdText, files.value, moved); }
      if destFiles.Some? && conf.cutSentFiles {
        var buf;
        ok, buf := CutFiles.SetClipboardCutFiles(destFiles.value, memory);
        if ok { clip := Some(buf[..]); }
      }
    }
  }

  /** "./1", the file "a" in it, and its content. */
  const STUCK_DIR: bytes := [DOT, SLASH, 49]
  const STUCK_FILE: Path := [[49], [97]]
  const EMPTY_NODES: Nodes := map[[] := Dir]
  const STUCK_NODES: Nodes := EMPTY_NODES[[[49]] := Dir][STUCK_FILE := File([98])]

  /**
    * One file was saved, the temp directory can be listed, and then the file system refuses to rename it: the file
    * stays where it is, and the status is success.
    */
  method StuckFileIsSuccess(conf: Config, memory: nat -> bool)
    returns (fs: Fs, ok: bool, destFiles: Option<seq<bytes>>)
    ensures fs.nodes == STUCK_NODES && fs.cwd == [] && ok && destFiles.None?
  {
    hide Accounted, HasLanded;
    var root: Path, tmp: Path := [], [[49]];
    fs := new Fs(STUCK_NODES, root, i => i >= 2);
    ghost var before: Nodes, moved := EMPTY_NODES, map[];
    StuckIsThere();
    var clip;
    ok, destFiles, clip, moved := Land(fs, conf, STUCK_DIR, memory, true, before);
  }

  lemma StuckIsThere()
    ensures WellFormed(STUCK_NODES) && TempDir(STUCK_NODES, [], STUCK_DIR) && TempPath([], STUCK_DIR) == [[49]]
    ensures WellFormed(EMPTY_NODES) && GrowsBelow(EMPTY_NODES, STUCK_NODES, [])
    ensures HoldsSomething(STUCK_NODES, [[49]])
  {
    hide WellFormed;
    var root: Path, tmp: Path := [], [[49]];
    var more := EMPTY_NODES[tmp := Dir];
    EmptyIsWellFormed();
    assert Parent(tmp) == root && Parent(STUCK_FILE) == tmp;
    AddKeepsWellFormed(EMPTY_NODES, tmp, Dir);
    AddKeepsWellFormed(more, STUCK_FILE, File([98]));
    assert STUCK_DIR[2..] == [49] && root + [[49]] == tmp && tmp + [[97]] == STUCK_FILE;
  }

  lemma EmptyIsWellFormed()
    ensures WellFormed(EMPTY_NODES)
  {
    var root: Path := [];
    assert Parent(root) == root;
  }

  lemma AllHaveLanded(mid: Nodes, now: Nodes, tmp: Path, cwd: Path, moved: map<Name, Name>, files: seq<Name>,
                      gone: bool)
    requires tmp in mid && Landed(mid, now, tmp, cwd, moved, gone) && OnePlaceEach(mid, tmp, cwd, moved)
    requires gone ==> tmp !in now && forall i :: 0 <= i < |files| ==> files[i] in moved
    requires ListsDir(mid, tmp, files)
    ensures Accounted(mid, now, tmp, cwd, moved)
    ensures gone ==> HasLanded(mid, now, tmp, cwd, moved)
  {
    hide Landed, OnePlaceEach;
    TempIsThereOrGone(mid, now, tmp, cwd, moved, gone);
    forall f | gone && tmp + [f] in mid ensures f in moved {
      assert f in files;
    }
  }
}
