/** One file in version 1 of the protocol: send_file_v1, src/proto/methods.c lines 409 to 509. */
module FileV1 {
  import opened Bytes
  import opened Common
  import opened Paths
  import opened FileSystem
  import opened NetUtils
  import opened Receive
  import opened Landing
  import Batch
  import CutFiles

  /** _get_base_name: what follows the last slash of the received C string. */
  function BaseName(name: bytes): (r: bytes)
    ensures IsBaseName(r) && |r| <= |name|
  {
    CStr(name)[LastSlash(CStr(name)) + 1..]
  }

  /** The name of the file and what follows it. */
  datatype Header = NoHeader | Header(name: bytes, rest: bytes)

  /** A name of acceptable length and form. */
  function ReadHeader(stream: bytes): (h: Header)
    ensures h.Header? ==> h.name != [] && |stream| == 8 + |h.name| + |h.rest|
  {
    if |stream| < 8 then NoHeader
    else
      var size := DecodeSize(stream[..8]);
      if size <= 0 || size + 16 > MAX_FILE_NAME_LEN || |stream| - 8 < size then NoHeader
      else if !ValidName(stream[8..8 + size]) then NoHeader
      else Header(stream[8..8 + size], stream[8 + size..])
  }

  /** The new file is directly in the working directory; nothing else has changed. */
  ghost predicate OneMoreFile(nodes: Nodes, now: Nodes, cwd: Path, x: Name) {
    && LegalName(x) && cwd + [x] !in nodes
    && (now == nodes || (cwd + [x] in now && now[cwd + [x]].File? && now == nodes[cwd + [x] := now[cwd + [x]]]))
  }

  /**
    * The stream is the length of a clean name, the name, a size within the limit and that many bytes; `x` is the name
    * that the last component of the C string gets, and the file is there with these bytes.
    */
  ghost predicate IsUploaded(stream: bytes, nodes: Nodes, now: Nodes, rest: bytes, cwd: Path, conf: Batch.Config,
                             x: Name) {
    && |stream| >= 8
    && var n := DecodeSize(stream[..8]);
    && 0 < n <= 2032 && n <= |stream| - 16
    && var name, size := stream[8..8 + n], DecodeSize(stream[8 + n..16 + n]);
    && IsCleanText(name) && 0 <= size <= conf.maxFileSize && size <= |stream| - 16 - n
    && rest == stream[16 + n + size..] && now == nodes[cwd + [x] := File(stream[16 + n..16 + n + size])]
    && exists dir, base :: IsLastComponent(CStr(name), dir, base) && GetsName(nodes, cwd, base, conf.home, Some(x))
  }

  lemma BaseIsLast(name: bytes)
    ensures IsLastComponent(CStr(name), CStr(name)[..LastSlash(CStr(name)) + 1], BaseName(name))
  {
    hide CStr, IsLastComponent;
    OneLastComponent(CStr(name), CStr(name)[..LastSlash(CStr(name)) + 1], BaseName(name));
  }

  lemma SavedIsUploaded(stream: bytes, nodes: Nodes, now: Nodes, rest: bytes, cwd: Path, conf: Batch.Config, x: Name)
    requires ReadHeader(stream).Header? && OpenTarget(nodes, cwd, InCwd(x)) == Some(cwd + [x])
    requires GetsName(nodes, cwd, BaseName(ReadHeader(stream).name), conf.home, Some(x))
    requires SaveBody(nodes, cwd, 1, conf.maxFileSize, InCwd(x), ReadHeader(stream).rest) == Got(now, rest)
    ensures IsUploaded(stream, nodes, now, rest, cwd, conf, x)
  {
    hide DecodeSize, GetsName, IsCleanText, ValidName, CStr, BaseName, OpenTarget, SaveBody, InCwd,
         ReadHeader, IsLastComponent;
    HeaderParts(stream);
    var n, h := DecodeSize(stream[..8]), ReadHeader(stream);
    BaseIsLast(h.name);
    SavedParts(nodes, now, rest, cwd, conf.maxFileSize, InCwd(x), cwd + [x], h.rest);
    var size := DecodeSize(h.rest[..8]);
    PartsOfTail(stream, 8 + n, size);
  }

  /** The head of an upload is accepted exactly if it is the length of a clean name of 1 to 2032 bytes, and the name. */
  lemma HeaderIff(stream: bytes)
    ensures ReadHeader(stream).Header? <==>
              && |stream| >= 8 && 0 < DecodeSize(stream[..8]) <= 2032 && DecodeSize(stream[..8]) <= |stream| - 8
              && IsCleanText(stream[8..8 + DecodeSize(stream[..8])])
  {
    hide DecodeSize, ValidName, IsCleanText;
    if |stream| >= 8 && 0 < DecodeSize(stream[..8]) <= |stream| - 8 {
      ValidIsClean(stream[8..8 + DecodeSize(stream[..8])]);
    }
  }

  lemma HeaderParts(stream: bytes)
    requires ReadHeader(stream).Header?
    ensures |stream| >= 8 && 0 < DecodeSize(stream[..8]) <= 2032
    ensures DecodeSize(stream[..8]) <= |stream| - 8
    ensures var n, h := DecodeSize(stream[..8]), ReadHeader(stream);
            h.name == stream[8..8 + n] && h.rest == stream[8 + n..] && IsCleanText(h.name)
  {
    hide DecodeSize, ValidName, IsCleanText;
    HeaderIff(stream);
  }

  lemma SavedParts(nodes: Nodes, now: Nodes, rest: bytes, cwd: Path, maxSize: int, raw: bytes, p: Path, stream: bytes)
    requires OpenTarget(nodes, cwd, raw) == Some(p) && SaveBody(nodes, cwd, 1, maxSize, raw, stream) == Got(now, rest)
    ensures |stream| >= 8 && 0 <= DecodeSize(stream[..8]) <= maxSize && DecodeSize(stream[..8]) <= |stream| - 8
    ensures var size := DecodeSize(stream[..8]);
            rest == stream[8..][size..] && now == nodes[p := File(stream[8..][..size])]
  {
    hide DecodeSize, OpenTarget;
  }

  lemma PartsOfTail(s: bytes, at: nat, size: nat)
    requires at + 8 + size <= |s|
    ensures s[at..][..8] == s[at..at + 8] && s[at..][8..][..size] == s[at + 8..at + 8 + size]
    ensures s[at..][8..][size..] == s[at + 8 + size..]
  {
    assert s[at..][8..] == s[at + 8..];
  }

  /** A size that is allowed, and that many bytes. */
  predicate HasContent(stream: bytes, maxSize: int) {
    |stream| >= 8 && 0 <= DecodeSize(stream[..8]) <= maxSize && DecodeSize(stream[..8]) <= |stream| - 8
  }

  lemma FreePlaceTakesContent(nodes: Nodes, cwd: Path, x: Name, maxSize: int, stream: bytes)
    requires WellFormed(nodes) && IsDir(nodes, cwd) && LegalName(x) && cwd + [x] !in nodes
    ensures OpenTarget(nodes, cwd, InCwd(x)) == Some(cwd + [x]) && NUL !in InCwd(x) && Vacant(nodes, cwd, InCwd(x))
    ensures HasContent(stream, maxSize) ==> SaveBody(nodes, cwd, 1, maxSize, InCwd(x), stream).Got?
  {
    hide DecodeSize;
    LocateInCwd(nodes, cwd, x);
  }

  lemma WrittenIsNew(nodes: Nodes, now: Nodes, cwd: Path, x: Name)
    requires LegalName(x) && cwd + [x] !in nodes && (now == nodes || Written(nodes, now, cwd + [x]))
    ensures OneMoreFile(nodes, now, cwd, x)
  {
  }

  /** The name is valid UTF-8 without control characters, and the file gets the first free name made from it. */
  method RenameIfExists(fs: Fs, fileName: bytes, home: bool, maxLen: nat) returns (x: Option<Name>)
    requires fs.Valid() && IsBaseName(fileName) && maxLen >= |fileName| + 10
    ensures x.None? <==> AllTaken(fs.nodes, fs.cwd, fileName, home)
    ensures x.Some? ==> exists k :: 0 <= k <= 999999 && FirstFree(fs.nodes, fs.cwd, fileName, home, k, x.value)
    ensures x.Some? ==> LegalName(x.value) && fs.cwd + [x.value] !in fs.nodes && (home ==> x.value != CONFIG_FILE)
    ensures GetsName(fs.nodes, fs.cwd, fileName, home, x)
  {
    hide GetsName;
    x := FindFree(fs, fileName, home, maxLen);
  }

  /**
    * send_file_v1. Whatever name the peer sends, at most one new file appears, directly in the working directory,
    * under a name that was free; nothing that was there is touched. When it was saved it is the first free name and
    * the file has exactly the content that was sent; a broken transfer leaves no file if it can be removed. A list
    * that cannot be put on the clipboard afterwards is a failure, but the file stays.
    */
  method SendFileV1(sock: Socket, fs: Fs, conf: Batch.Config, memory: nat -> bool)
    returns (ok: bool, saved: bool, ghost x: Name)
    requires fs.Valid()
    modifies sock, fs
    ensures fs.Valid()
    ensures fs.nodes == old(fs.nodes) || OneMoreFile(old(fs.nodes), fs.nodes, fs.cwd, x)
    ensures fs.nodes != old(fs.nodes) ==> ReadHeader(old(sock.incoming)).Header? && (conf.home ==> x != CONFIG_FILE)
    ensures old(sock.sent) <= sock.sent <= old(sock.sent) + [STATUS_OK]
    ensures !saved && fs.Healthy() ==> fs.nodes == old(fs.nodes)
    ensures old(sock.open) && sock.Reliable() ==> sock.sent == old(sock.sent) + [STATUS_OK]
    ensures saved ==> ReadHeader(old(sock.incoming)).Header?
    ensures saved ==>
              var h := ReadHeader(old(sock.incoming));
              && (exists k :: 0 <= k <= 999999 && FirstFree(old(fs.nodes), fs.cwd, BaseName(h.name), conf.home, k, x))
              && SaveBody(old(fs.nodes), fs.cwd, 1, conf.maxFileSize, InCwd(x), h.rest) == Got(fs.nodes, sock.incoming)
    ensures ReadHeader(old(sock.incoming)).Header?
            && HasContent(ReadHeader(old(sock.incoming)).rest, conf.maxFileSize) ==>
              (old(sock.open) && sock.Reliable() && fs.Healthy() ==>
                (saved <==> !AllTaken(old(fs.nodes), fs.cwd, BaseName(ReadHeader(old(sock.incoming)).name), conf.home)))
    ensures saved ==> IsUploaded(old(sock.incoming), old(fs.nodes), fs.nodes, sock.incoming, fs.cwd, conf, x)
    ensures FilesFit(old(fs.nodes), fs.nodes, conf.maxFileSize)
    ensures ok <==> saved && (conf.cutSentFiles ==> CutFiles.CutFits([conf.cwdText + [SLASH] + InCwd(x)], memory))
  {
    hide SaveBody, ValidName, WellFormed, FirstFree, AllTaken, BaseName, DecodeSize, Touched, Written, OneMoreFile,
         HasContent;
    hide CutFiles.CutFits, InCwd, IsUploaded, FilesFit;
    var name;
    saved, name, x := SaveFileV1(sock, fs, conf);
    ok := saved;
    if saved && conf.cutSentFiles {
      var buf;
      ok, buf := CutFiles.SetClipboardCutFiles([conf.cwdText + [SLASH] + name], memory);
    }
  }

  /** The part of send_file_v1 that receives the file; `name` is where it was saved. */
  method SaveFileV1(sock: Socket, fs: Fs, conf: Batch.Config) returns (saved: bool, name: bytes, ghost x: Name)
    requires fs.Valid()
    modifies sock, fs
    ensures fs.Valid()
    ensures fs.nodes == old(fs.nodes) || OneMoreFile(old(fs.nodes), fs.nodes, fs.cwd, x)
    ensures fs.nodes != old(fs.nodes) ==> ReadHeader(old(sock.incoming)).Header? && (conf.home ==> x != CONFIG_FILE)
    ensures old(sock.sent) <= sock.sent <= old(sock.sent) + [STATUS_OK]
    ensures !saved && fs.Healthy() ==> fs.nodes == old(fs.nodes)
    ensures old(sock.open) && sock.Reliable() ==> sock.sent == old(sock.sent) + [STATUS_OK]
    ensures saved ==> ReadHeader(old(sock.incoming)).Header? && name == InCwd(x)
    ensures saved ==>
              var h := ReadHeader(old(sock.incoming));
              && (exists k :: 0 <= k <= 999999 && FirstFree(old(fs.nodes), fs.cwd, BaseName(h.name), conf.home, k, x))
              && SaveBody(old(fs.nodes), fs.cwd, 1, conf.maxFileSize, InCwd(x), h.rest) == Got(fs.nodes, sock.incoming)
    ensures ReadHeader(old(sock.incoming)).Header?
            && HasContent(ReadHeader(old(sock.incoming)).rest, conf.maxFileSize) ==>
              (old(sock.open) && sock.Reliable() && fs.Healthy() ==>
                (saved <==> !AllTaken(old(fs.nodes), fs.cwd, BaseName(ReadHeader(old(sock.incoming)).name), conf.home)))
    ensures saved ==> IsUploaded(old(sock.incoming), old(fs.nodes), fs.nodes, sock.incoming, fs.cwd, conf, x)
    ensures FilesFit(old(fs.nodes), fs.nodes, conf.maxFileSize)
  {
    hide IsUploaded, GetsName, FilesFit, IsCleanText;
    hide SaveBody, ValidName, WellFormed, FirstFree, AllTaken, BaseName, DecodeSize, Touched, Written, OneMoreFile,
         HasContent;
    x, name := [], [];
    NothingTooLarge(fs.nodes, conf.maxFileSize);
    saved := sock.WriteSock([STATUS_OK]);
    if !saved { return; }
    var nameLength, received;
    saved, nameLength := sock.ReadSize();
    if !saved || nameLength <= 0 || nameLength > MAX_FILE_NAME_LEN || nameLength + 16 > MAX_FILE_NAME_LEN {
      saved := false;
      return;
    }
    saved, received := sock.ReadBytes(nameLength);
    if !saved { return; }
    assert received == old(sock.incoming)[8..8 + nameLength];
    assert sock.incoming == old(sock.incoming)[8 + nameLength..];
    saved := IsValidFname(received);
    if !saved { return; }
    var free := RenameIfExists(fs, BaseName(received), conf.home, nameLength + 16);
    if free.None? { saved := false; return; }
    x, name := free.value, InCwd(free.value);
    ghost var rest := sock.incoming;
    FreePlaceTakesContent(fs.nodes, fs.cwd, x, conf.maxFileSize, rest);
    saved := SaveFileCommon(1, sock, fs, name, conf.maxFileSize);
    WrittenIsNew(old(fs.nodes), fs.nodes, fs.cwd, x);
    if saved {
      SavedIsUploaded(old(sock.incoming), old(fs.nodes), fs.nodes, sock.incoming, fs.cwd, conf, x);
    }
    if saved { sock.open := false; }
  }
}
