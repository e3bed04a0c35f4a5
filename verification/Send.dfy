/** Sending the copied files: _transfer_single_file and _get_files_common of src/proto/methods.c. */
module Send {
  import opened Bytes
  import opened Common
  import opened Paths
  import opened FileSystem
  import opened NetUtils

  // ---------------------------------------------------------------- what is sent

  /** What comes of reading the name of a path; OffEnd: it is looked for behind the end of the path. */
  datatype NameRead = NoName | OffEnd | Found(name: bytes)

  /**
    * The name under which a path goes out: its last component in version 1, what follows the common directory later.
    * The length of that directory comes from another path, and nothing compares it with the length of this one.
    */
  function SentName(version: nat, text: bytes, pathLen: nat): NameRead {
    if version == 1 then Found(text[LastSlash(text) + 1..])
    else if 2 <= version <= 4 then if pathLen <= |text| then Found(text[pathLen..]) else OffEnd
    else NoName
  }

  function Framed(name: bytes, size: int): bytes { EncodeSize(|name|) + name + EncodeSize(size) }

  function ContentAt(nodes: Nodes, cwd: Path, text: bytes): Option<bytes> {
    if Exists(nodes, cwd, text) && nodes[Locate(nodes, cwd, text).value].File?
    then Some(nodes[Locate(nodes, cwd, text).value].content) else None
  }

  /** _transfer_single_file */
  function SentRecord(nodes: Nodes, cwd: Path, version: nat, text: bytes, pathLen: nat, maxSize: int): Option<bytes> {
    match SentName(version, text, pathLen)
    case Found(name) => NamedRecord(nodes, cwd, text, name, maxSize)
    case _ => None
  }

  /** A name with the separator at the end stands for a directory. */
  function NamedRecord(nodes: Nodes, cwd: Path, text: bytes, name: bytes, maxSize: int): Option<bytes> {
    if name == [] || |name| > MAX_FILE_NAME_LEN then None
    else if name[|name| - 1] == SLASH then Some(Framed(name[..|name| - 1], -1))
    else FileRecord(nodes, cwd, text, name, maxSize)
  }

  /** _transfer_regular_file */
  function FileRecord(nodes: Nodes, cwd: Path, text: bytes, name: bytes, maxSize: int): Option<bytes> {
    match ContentAt(nodes, cwd, text)
    case None => None
    case Some(content) => if |content| > maxSize then None else Some(Framed(name, |content|) + content)
  }

  /** Where there is nothing to send, nothing is sent. */
  function OrNothing(record: Option<bytes>): bytes {
    match record { case None => [] case Some(r) => r }
  }

  /** Every path reaches to the end of the common directory. */
  predicate LongEnough(texts: seq<bytes>, pathLen: nat) {
    forall i :: 0 <= i < |texts| ==> pathLen <= |texts[i]|
  }

  /** The records of a list, one after another. */
  function SentBatch(nodes: Nodes, cwd: Path, version: nat, texts: seq<bytes>, pathLen: nat,
                     maxSize: int): Option<bytes>
  {
    if texts == [] then Some([])
    else match SentBatch(nodes, cwd, version, texts[..|texts| - 1], pathLen, maxSize)
      case None => None
      case Some(before) =>
        match SentRecord(nodes, cwd, version, texts[|texts| - 1], pathLen, maxSize)
        case None => None
        case Some(last) => Some(before + last)
  }

  lemma {:induction false} BatchNeedsPrefix(nodes: Nodes, cwd: Path, version: nat, texts: seq<bytes>, pathLen: nat,
                                            maxSize: int, i: nat)
    requires i <= |texts|
    ensures SentBatch(nodes, cwd, version, texts[..i], pathLen, maxSize).None? ==>
              SentBatch(nodes, cwd, version, texts, pathLen, maxSize).None?
    decreases |texts| - i
  {
    if i == |texts| {
      assert texts[..i] == texts;
    } else {
      assert texts[..i + 1][..i] == texts[..i];
      BatchNeedsPrefix(nodes, cwd, version, texts, pathLen, maxSize, i + 1);
    }
  }

  // ---------------------------------------------------------------- what that is, on the bytes

  /** The last component in version 1, and later what follows the first `pathLen` bytes. */
  ghost predicate IsNameIn(version: nat, text: bytes, pathLen: nat, name: bytes) {
    || (version == 1 && exists dir :: IsLastComponent(text, dir, name))
    || (2 <= version <= 4 && pathLen <= |text| && name == text[pathLen..])
  }

  ghost predicate IsFileWith(nodes: Nodes, cwd: Path, text: bytes, content: bytes) {
    Exists(nodes, cwd, text) && nodes[Locate(nodes, cwd, text).value] == File(content)
  }

  /**
    * Length, name, size and content of a file that is not too large; or length, name without the separator at its end,
    * and -1, for a directory.
    */
  ghost predicate IsRecordOf(nodes: Nodes, cwd: Path, text: bytes, name: bytes, maxSize: int, record: bytes) {
    && 0 < |name| <= 2048
    && if name[|name| - 1] == SLASH
         then record == EncodeSize(|name| - 1) + name[..|name| - 1] + EncodeSize(-1)
       else exists content :: IsFileWith(nodes, cwd, text, content) && |content| <= maxSize
                              && record == EncodeSize(|name|) + name + EncodeSize(|content|) + content
  }

  ghost predicate IsRecord(nodes: Nodes, cwd: Path, version: nat, text: bytes, pathLen: nat, maxSize: int,
                           record: bytes) {
    exists name :: IsNameIn(version, text, pathLen, name) && IsRecordOf(nodes, cwd, text, name, maxSize, record)
  }

  lemma NameIff(version: nat, text: bytes, pathLen: nat, name: bytes)
    ensures SentName(version, text, pathLen) == Found(name) <==> IsNameIn(version, text, pathLen, name)
  {
    hide LastSlash, IsLastComponent;
    if version == 1 {
      OneLastComponent(text, text[..LastSlash(text) + 1], name);
      forall dir | IsLastComponent(text, dir, name) ensures name == text[LastSlash(text) + 1..] {
        OneLastComponent(text, dir, name);
      }
    }
  }

  lemma NamedIff(nodes: Nodes, cwd: Path, text: bytes, name: bytes, maxSize: int, record: bytes)
    ensures NamedRecord(nodes, cwd, text, name, maxSize) == Some(record)
            <==> IsRecordOf(nodes, cwd, text, name, maxSize, record)
  {
    hide EncodeSize, Exists;
    var content := ContentAt(nodes, cwd, text);
    assert forall c :: IsFileWith(nodes, cwd, text, c) <==> content == Some(c);
  }

  /** A path is sent exactly if it has a record of that form, and then as this record. */
  lemma RecordIff(nodes: Nodes, cwd: Path, version: nat, text: bytes, pathLen: nat, maxSize: int, record: bytes)
    ensures SentRecord(nodes, cwd, version, text, pathLen, maxSize) == Some(record)
            <==> IsRecord(nodes, cwd, version, text, pathLen, maxSize, record)
  {
    hide NamedRecord, SentName, IsNameIn, IsRecordOf;
    forall name
      ensures SentName(version, text, pathLen) == Found(name) <==> IsNameIn(version, text, pathLen, name)
      ensures NamedRecord(nodes, cwd, text, name, maxSize) == Some(record)
              <==> IsRecordOf(nodes, cwd, text, name, maxSize, record)
    {
      NameIff(version, text, pathLen, name);
      NamedIff(nodes, cwd, text, name, maxSize, record);
    }
  }

  ghost predicate RecordIsSent(nodes: Nodes, cwd: Path, version: nat, text: bytes, pathLen: nat, maxSize: int,
                               before: bytes, sent: bytes)
  {
    exists r :: IsRecord(nodes, cwd, version, text, pathLen, maxSize, r) && sent == before + r
  }

  lemma SentIsRecord(nodes: Nodes, cwd: Path, version: nat, text: bytes, pathLen: nat, maxSize: int, before: bytes,
                     sent: bytes)
    requires SentRecord(nodes, cwd, version, text, pathLen, maxSize).Some?
    requires sent == before + SentRecord(nodes, cwd, version, text, pathLen, maxSize).value
    ensures RecordIsSent(nodes, cwd, version, text, pathLen, maxSize, before, sent)
  {
    hide SentRecord, IsRecord;
    RecordIff(nodes, cwd, version, text, pathLen, maxSize,
              SentRecord(nodes, cwd, version, text, pathLen, maxSize).value);
  }

  /** Each path has its record, and they follow one another in the order of the paths. */
  ghost predicate AreRecords(nodes: Nodes, cwd: Path, version: nat, texts: seq<bytes>, pathLen: nat, maxSize: int,
                             records: seq<bytes>) {
    |records| == |texts|
    && forall i :: 0 <= i < |texts| ==> IsRecord(nodes, cwd, version, texts[i], pathLen, maxSize, records[i])
  }

  lemma {:induction false} BatchIsRecords(nodes: Nodes, cwd: Path, version: nat, texts: seq<bytes>, pathLen: nat,
                                          maxSize: int) returns (records: seq<bytes>)
    requires SentBatch(nodes, cwd, version, texts, pathLen, maxSize).Some?
    ensures AreRecords(nodes, cwd, version, texts, pathLen, maxSize, records)
    ensures SentBatch(nodes, cwd, version, texts, pathLen, maxSize).value == Flatten(records)
  {
    hide SentRecord, IsRecord, Flatten;
    if texts == [] {
      FlattenNothing();
      return [];
    }
    var last := texts[|texts| - 1];
    var before := BatchIsRecords(nodes, cwd, version, texts[..|texts| - 1], pathLen, maxSize);
    var record := SentRecord(nodes, cwd, version, last, pathLen, maxSize).value;
    RecordIff(nodes, cwd, version, last, pathLen, maxSize, record);
    FlattenSnoc(before, record);
    records := before + [record];
  }

  lemma FlattenNothing()
    ensures Flatten([]) == []
  {
  }

  /** After `before`: status 1, the number of paths, and their records. */
  ghost predicate ListIsSent(nodes: Nodes, cwd: Path, version: nat, texts: seq<bytes>, pathLen: nat, maxSize: int,
                             before: bytes, sent: bytes)
  {
    exists records :: AreRecords(nodes, cwd, version, texts, pathLen, maxSize, records)
                      && sent == before + ([1] + EncodeSize(|texts|) + Flatten(records))
  }

  // ---------------------------------------------------------------- the code

  /** _send_data */
  method SendData(sock: Socket, data: bytes) returns (ok: bool)
    requires IsInt64(|data|)
    modifies sock`sent, sock`calls
    ensures ok ==> sock.sent == old(sock.sent) + EncodeSize(|data|) + data
    ensures old(sock.sent) <= sock.sent <= old(sock.sent) + EncodeSize(|data|) + data
    ensures sock.open && sock.Reliable() ==> ok
  {
    hide EncodeSize;
    ok := sock.SendSize(|data|);
    if !ok { return false; }
    ok := sock.WriteSock(data);
  }

  /** The reading loop of _transfer_regular_file; the file does not change while it is read. */
  method SendContent(sock: Socket, content: bytes) returns (ok: bool)
    modifies sock`sent, sock`calls
    ensures ok ==> sock.sent == old(sock.sent) + content
    ensures old(sock.sent) <= sock.sent <= old(sock.sent) + content
    ensures sock.open && sock.Reliable() ==> ok
  {
    var fileSize, pos := |content|, 0;
    while fileSize > 0
      invariant 0 <= pos <= |content| && fileSize == |content| - pos
      invariant sock.sent == old(sock.sent) + content[..pos]
    {
      var read := if |content| - pos < FILE_BUF_SZ then |content| - pos else FILE_BUF_SZ;  // fread
      assert content[..pos] + content[pos..pos + read] == content[..pos + read];
      ok := sock.WriteSock(content[pos..pos + read]);
      if !ok {
        return false;
      }
      pos := pos + read;
      fileSize := fileSize - read;
    }
    assert content[..pos] == content;
    return true;
  }

  /** open_file for reading and get_file_size. */
  method ReadFile(fs: Fs, text: bytes) returns (content: Option<bytes>)
    modifies fs`calls
    ensures content.Some? ==> content == ContentAt(fs.nodes, fs.cwd, text)
    ensures fs.Healthy() ==> content == ContentAt(fs.nodes, fs.cwd, text)
  {
    var refused := fs.Refuses();
    content := if refused then None else ContentAt(fs.nodes, fs.cwd, text);
  }

  /** Being a prefix of what is still to be sent. */
  lemma PrefixOfMore(a: bytes, b: bytes, c: bytes)
    requires a <= b
    ensures a <= b + c
  {
  }

  /** A name and a size, which is how every record begins. */
  method SendHeader(sock: Socket, name: bytes, size: int) returns (ok: bool)
    requires |name| <= MAX_FILE_NAME_LEN && IsInt64(size)
    modifies sock`sent, sock`calls
    ensures ok ==> sock.sent == old(sock.sent) + Framed(name, size)
    ensures old(sock.sent) <= sock.sent <= old(sock.sent) + Framed(name, size)
    ensures sock.open && sock.Reliable() ==> ok
  {
    hide EncodeSize;
    ghost var before := sock.sent;
    ok := SendData(sock, name);
    PrefixOfMore(sock.sent, before + EncodeSize(|name|) + name, EncodeSize(size));
    assert before + EncodeSize(|name|) + name + EncodeSize(size) == before + Framed(name, size);
    if !ok { return false; }
    ok := sock.SendSize(size);
  }

  /** _transfer_regular_file */
  method TransferRegularFile(sock: Socket, fs: Fs, text: bytes, name: bytes, maxSize: int) returns (ok: bool)
    requires IsInt64(maxSize) && |name| <= MAX_FILE_NAME_LEN
    modifies sock`sent, sock`calls, fs`calls
    ensures ok ==> FileRecord(fs.nodes, fs.cwd, text, name, maxSize).Some?
    ensures ok ==> sock.sent == old(sock.sent) + FileRecord(fs.nodes, fs.cwd, text, name, maxSize).value
    ensures old(sock.sent) <= sock.sent
    ensures sock.sent <= old(sock.sent) + OrNothing(FileRecord(fs.nodes, fs.cwd, text, name, maxSize))
    ensures FileRecord(fs.nodes, fs.cwd, text, name, maxSize).Some? ==>
              (sock.open && sock.Reliable() && fs.Healthy() ==> ok)
  {
    hide EncodeSize, Framed, ContentAt;
    ghost var before := sock.sent;
    var content := ReadFile(fs, text);
    if content.None? || |content.value| > maxSize { return false; }
    var c := content.value;
    ok := SendHeader(sock, name, |c|);
    PrefixOfMore(sock.sent, before + Framed(name, |c|), c);
    assert before + Framed(name, |c|) + c == before + (Framed(name, |c|) + c);
    if !ok { return false; }
    ok := SendContent(sock, c);
  }

  /** _transfer_directory */
  method TransferDirectory(sock: Socket, name: bytes) returns (ok: bool)
    requires |name| <= MAX_FILE_NAME_LEN
    modifies sock`sent, sock`calls
    ensures ok ==> sock.sent == old(sock.sent) + Framed(name, -1)
    ensures old(sock.sent) <= sock.sent <= old(sock.sent) + Framed(name, -1)
    ensures sock.open && sock.Reliable() ==> ok
  {
    ok := SendHeader(sock, name, -1);
  }

  /** _transfer_single_file */
  method TransferSingleFile(version: nat, sock: Socket, fs: Fs, text: bytes, pathLen: nat, maxSize: int)
    returns (ok: bool, overrun: bool)
    requires IsInt64(maxSize)
    modifies sock`sent, sock`calls, fs`calls
    ensures overrun <==> SentName(version, text, pathLen).OffEnd?
    ensures overrun ==> !ok && sock.sent == old(sock.sent)
    ensures ok ==> SentRecord(fs.nodes, fs.cwd, version, text, pathLen, maxSize).Some?
    ensures ok ==> sock.sent == old(sock.sent) + SentRecord(fs.nodes, fs.cwd, version, text, pathLen, maxSize).value
    ensures ok ==> RecordIsSent(fs.nodes, fs.cwd, version, text, pathLen, maxSize, old(sock.sent), sock.sent)
    ensures old(sock.sent) <= sock.sent
    ensures sock.sent <= old(sock.sent) + OrNothing(SentRecord(fs.nodes, fs.cwd, version, text, pathLen, maxSize))
    ensures SentRecord(fs.nodes, fs.cwd, version, text, pathLen, maxSize).Some? ==>
              (sock.open && sock.Reliable() && fs.Healthy() ==> ok)
  {
    hide NamedRecord, RecordIsSent;
    overrun := false;
    var tmpFname;
    if version == 1 {
      var sep := LastSlash(text);
      tmpFname := if sep == -1 then text else text[sep + 1..];
    } else if 2 <= version <= 4 {
      if pathLen > |text| { return false, true; }  // file_path + path_len points behind the terminator
      tmpFname := text[pathLen..];
    } else {
      return false, false;
    }
    ok := TransferNamed(sock, fs, text, tmpFname, maxSize);
    if ok {
      SentIsRecord(fs.nodes, fs.cwd, version, text, pathLen, maxSize, old(sock.sent), sock.sent);
    }
  }

  /** _transfer_single_file once the name is known. */
  method TransferNamed(sock: Socket, fs: Fs, text: bytes, name: bytes, maxSize: int) returns (ok: bool)
    requires IsInt64(maxSize)
    modifies sock`sent, sock`calls, fs`calls
    ensures ok ==> NamedRecord(fs.nodes, fs.cwd, text, name, maxSize).Some?
    ensures ok ==> sock.sent == old(sock.sent) + NamedRecord(fs.nodes, fs.cwd, text, name, maxSize).value
    ensures old(sock.sent) <= sock.sent
    ensures sock.sent <= old(sock.sent) + OrNothing(NamedRecord(fs.nodes, fs.cwd, text, name, maxSize))
    ensures NamedRecord(fs.nodes, fs.cwd, text, name, maxSize).Some? ==>
              (sock.open && sock.Reliable() && fs.Healthy() ==> ok)
  {
    hide Framed, ContentAt;
    var fnameLen := |name|;
    if fnameLen <= 0 || fnameLen > MAX_FILE_NAME_LEN { return false; }
    if name[fnameLen - 1] == SLASH {
      ok := TransferDirectory(sock, name[..fnameLen - 1]);
    } else {
      ok := TransferRegularFile(sock, fs, text, name, maxSize);
    }
  }

  /** The records before the first that cannot be sent. */
  function Sendable(nodes: Nodes, cwd: Path, version: nat, texts: seq<bytes>, pathLen: nat, maxSize: int): bytes {
    if texts == [] then []
    else match SentRecord(nodes, cwd, version, texts[0], pathLen, maxSize)
      case None => []
      case Some(first) => first + Sendable(nodes, cwd, version, texts[1..], pathLen, maxSize)
  }

  /** What `texts[i..]` adds to the records of `texts[..i]`. */
  lemma {:induction false} SendableFrom(nodes: Nodes, cwd: Path, version: nat, texts: seq<bytes>, pathLen: nat,
                                        maxSize: int, i: nat)
    requires i <= |texts|
    requires SentBatch(nodes, cwd, version, texts[..i], pathLen, maxSize).Some?
    ensures Sendable(nodes, cwd, version, texts, pathLen, maxSize)
            == SentBatch(nodes, cwd, version, texts[..i], pathLen, maxSize).value
               + Sendable(nodes, cwd, version, texts[i..], pathLen, maxSize)
  {
    hide SentRecord;
    if i == 0 {
      assert texts[0..] == texts;
    } else {
      assert texts[..i][..i - 1] == texts[..i - 1] && texts[i - 1..][1..] == texts[i..];
      SendableFrom(nodes, cwd, version, texts, pathLen, maxSize, i - 1);
    }
  }

  /** The loop comes to a path that is too short: it reads behind it, and then anything can follow. */
  predicate ReadsOff(nodes: Nodes, cwd: Path, version: nat, texts: seq<bytes>, pathLen: nat, maxSize: int) {
    texts != []
    && (SentName(version, texts[0], pathLen).OffEnd?
        || (SentRecord(nodes, cwd, version, texts[0], pathLen, maxSize).Some?
            && ReadsOff(nodes, cwd, version, texts[1..], pathLen, maxSize)))
  }

  lemma {:induction false} ReadsOffFrom(nodes: Nodes, cwd: Path, version: nat, texts: seq<bytes>, pathLen: nat,
                                        maxSize: int, i: nat)
    requires i <= |texts| && SentBatch(nodes, cwd, version, texts[..i], pathLen, maxSize).Some?
    ensures ReadsOff(nodes, cwd, version, texts, pathLen, maxSize)
            <==> ReadsOff(nodes, cwd, version, texts[i..], pathLen, maxSize)
  {
    hide NamedRecord;
    if i == 0 {
      assert texts[0..] == texts;
    } else {
      assert texts[..i][..i - 1] == texts[..i - 1] && texts[i - 1..][1..] == texts[i..];
      ReadsOffFrom(nodes, cwd, version, texts, pathLen, maxSize, i - 1);
    }
  }

  /** `i` is the first path that is too short, and everything before it can be sent. */
  ghost predicate FirstShort(nodes: Nodes, cwd: Path, version: nat, texts: seq<bytes>, pathLen: nat, maxSize: int,
                             i: nat) {
    && i < |texts| && SentName(version, texts[i], pathLen).OffEnd?
    && forall j :: 0 <= j < i ==> SentRecord(nodes, cwd, version, texts[j], pathLen, maxSize).Some?
  }

  /** The exact condition on the list. */
  lemma {:induction false} ReadsOffIff(nodes: Nodes, cwd: Path, version: nat, texts: seq<bytes>, pathLen: nat,
                                       maxSize: int)
    ensures ReadsOff(nodes, cwd, version, texts, pathLen, maxSize)
            <==> exists i: nat :: FirstShort(nodes, cwd, version, texts, pathLen, maxSize, i)
    decreases |texts|
  {
    hide NamedRecord;
    if texts != [] {
      var rest := texts[1..];
      ReadsOffIff(nodes, cwd, version, rest, pathLen, maxSize);
      if SentName(version, texts[0], pathLen).OffEnd? {
        assert FirstShort(nodes, cwd, version, texts, pathLen, maxSize, 0);
      } else if SentRecord(nodes, cwd, version, texts[0], pathLen, maxSize).Some? {
        forall i: nat | FirstShort(nodes, cwd, version, rest, pathLen, maxSize, i)
          ensures FirstShort(nodes, cwd, version, texts, pathLen, maxSize, i + 1)
        {
          assert rest[i] == texts[i + 1];
        }
        forall i: nat | i > 0 && FirstShort(nodes, cwd, version, texts, pathLen, maxSize, i)
          ensures FirstShort(nodes, cwd, version, rest, pathLen, maxSize, i - 1)
        {
          assert forall j :: 0 <= j < i - 1 ==> rest[j] == texts[j + 1];
        }
      }
    }
  }

  /** No read leaves a path if none is too short; and only then, if everything else in the list can be sent. */
  lemma StaysInsideIff(nodes: Nodes, cwd: Path, version: nat, texts: seq<bytes>, pathLen: nat, maxSize: int)
    requires 2 <= version <= 4
    ensures LongEnough(texts, pathLen) ==> !ReadsOff(nodes, cwd, version, texts, pathLen, maxSize)
    ensures (forall i :: 0 <= i < |texts| && pathLen <= |texts[i]| ==>
               SentRecord(nodes, cwd, version, texts[i], pathLen, maxSize).Some?) ==>
              (!ReadsOff(nodes, cwd, version, texts, pathLen, maxSize) <==> LongEnough(texts, pathLen))
  {
    hide SentRecord;
    ReadsOffIff(nodes, cwd, version, texts, pathLen, maxSize);
    if !LongEnough(texts, pathLen) {
      var i := FirstBelow(texts, pathLen);
      if forall j :: 0 <= j < i ==> SentRecord(nodes, cwd, version, texts[j], pathLen, maxSize).Some? {
        assert FirstShort(nodes, cwd, version, texts, pathLen, maxSize, i);
      }
    }
  }

  lemma {:induction false} FirstBelow(texts: seq<bytes>, pathLen: nat) returns (i: nat)
    requires !LongEnough(texts, pathLen)
    ensures i < |texts| && |texts[i]| < pathLen && forall j :: 0 <= j < i ==> pathLen <= |texts[j]|
  {
    i := 0;
    while pathLen <= |texts[i]|
      invariant i < |texts| && forall j :: 0 <= j < i ==> pathLen <= |texts[j]|
      decreases |texts| - i
    {
      i := i + 1;
    }
  }

  /** In version 1 the name is looked for in the path itself. */
  lemma {:induction false} NothingReadsOff(nodes: Nodes, cwd: Path, texts: seq<bytes>, pathLen: nat, maxSize: int)
    ensures !ReadsOff(nodes, cwd, 1, texts, pathLen, maxSize)
    decreases |texts|
  {
    if texts != [] { NothingReadsOff(nodes, cwd, texts[1..], pathLen, maxSize); }
  }

  /** The batch as the peer receives it: a status, the number of records, and the records. */
  function Announced(cnt: nat, records: bytes): bytes {
    [STATUS_OK] + EncodeSize(cnt) + records
  }

  /** _get_files_common */
  method GetFilesCommon(version: nat, sock: Socket, fs: Fs, fileList: seq<bytes>, pathLen: nat, maxSize: int,
                        maxCount: nat)
    returns (ok: bool, overrun: bool)
    requires IsInt64(maxSize) && maxCount <= 0xFFFF_FFFF
    modifies sock`sent, sock`calls, sock`open, fs`calls
    ensures overrun ==> !ok && 0 < |fileList| <= maxCount
    ensures overrun ==> ReadsOff(fs.nodes, fs.cwd, version, fileList, pathLen, maxSize)
    ensures 0 < |fileList| <= maxCount && old(sock.open) && sock.Reliable() && fs.Healthy() ==>
              (overrun <==> ReadsOff(fs.nodes, fs.cwd, version, fileList, pathLen, maxSize))
    ensures |fileList| == 0 || |fileList| > maxCount ==>
              !ok && !sock.open && (sock.sent == old(sock.sent) || sock.sent == old(sock.sent) + [STATUS_NO_DATA])
    ensures |fileList| == 0 || |fileList| > maxCount ==>
              (old(sock.open) && sock.Reliable() ==> sock.sent == old(sock.sent) + [STATUS_NO_DATA])
    ensures ok ==> SentBatch(fs.nodes, fs.cwd, version, fileList, pathLen, maxSize).Some?
    ensures ok ==> sock.sent == old(sock.sent)
                     + Announced(|fileList|, SentBatch(fs.nodes, fs.cwd, version, fileList, pathLen, maxSize).value)
    ensures ok ==> 0 < |fileList| <= maxCount
    ensures ok ==> ListIsSent(fs.nodes, fs.cwd, version, fileList, pathLen, maxSize, old(sock.sent), sock.sent)
    ensures old(sock.sent) <= sock.sent
    ensures 0 < |fileList| <= maxCount ==>
              sock.sent <= old(sock.sent)
                + Announced(|fileList|, Sendable(fs.nodes, fs.cwd, version, fileList, pathLen, maxSize))
    ensures 0 < |fileList| <= maxCount && old(sock.open) && sock.Reliable() && fs.Healthy() ==>
              sock.sent == old(sock.sent)
                + Announced(|fileList|, Sendable(fs.nodes, fs.cwd, version, fileList, pathLen, maxSize))
    ensures 0 < |fileList| <= maxCount && SentBatch(fs.nodes, fs.cwd, version, fileList, pathLen, maxSize).Some? ==>
              (old(sock.open) && sock.Reliable() && fs.Healthy() ==> ok)
  {
    hide EncodeSize, SentRecord, AreRecords, Flatten;
    if |fileList| == 0 || |fileList| > maxCount {
      ok := sock.WriteSock([STATUS_NO_DATA]);
      sock.open := false;
      return false, false;
    }
    overrun := false;
    ok := sock.WriteSock([STATUS_OK]);
    if !ok { return; }
    ok := sock.SendSize(|fileList|);
    if !ok { return; }
    ok, overrun := SendRecords(version, sock, fs, fileList, pathLen, maxSize);
    if ok {
      ghost var records := BatchIsRecords(fs.nodes, fs.cwd, version, fileList, pathLen, maxSize);
    }
  }

  /** The loop of _get_files_common. Where a name would be read behind its path, the loop ends. */
  method SendRecords(version: nat, sock: Socket, fs: Fs, fileList: seq<bytes>, pathLen: nat, maxSize: int)
    returns (ok: bool, overrun: bool)
    requires IsInt64(maxSize)
    modifies sock`sent, sock`calls, fs`calls
    ensures overrun ==> !ok && ReadsOff(fs.nodes, fs.cwd, version, fileList, pathLen, maxSize)
    ensures sock.open && sock.Reliable() && fs.Healthy() ==>
              (overrun <==> ReadsOff(fs.nodes, fs.cwd, version, fileList, pathLen, maxSize))
    ensures ok ==> SentBatch(fs.nodes, fs.cwd, version, fileList, pathLen, maxSize).Some?
    ensures ok ==> sock.sent == old(sock.sent) + SentBatch(fs.nodes, fs.cwd, version, fileList, pathLen, maxSize).value
    ensures old(sock.sent) <= sock.sent
    ensures sock.sent <= old(sock.sent) + Sendable(fs.nodes, fs.cwd, version, fileList, pathLen, maxSize)
    ensures sock.open && sock.Reliable() && fs.Healthy() ==>
              sock.sent == old(sock.sent) + Sendable(fs.nodes, fs.cwd, version, fileList, pathLen, maxSize)
    ensures SentBatch(fs.nodes, fs.cwd, version, fileList, pathLen, maxSize).Some? ==>
              (sock.open && sock.Reliable() && fs.Healthy() ==> ok)
  {
    hide SentRecord, SentName, SentBatch, Sendable, ReadsOff, RecordIsSent;
    NoRecordYet(fs.nodes, fs.cwd, version, fileList, pathLen, maxSize);
    for i := 0 to |fileList|
      invariant SentBatch(fs.nodes, fs.cwd, version, fileList[..i], pathLen, maxSize).Some?
      invariant sock.sent
                == old(sock.sent) + SentBatch(fs.nodes, fs.cwd, version, fileList[..i], pathLen, maxSize).value
    {
      NextRecord(fs.nodes, fs.cwd, version, fileList, pathLen, maxSize, i);
      ok, overrun := TransferSingleFile(version, sock, fs, fileList[i], pathLen, maxSize);
      if !ok { return; }
    }
    AllRecords(fs.nodes, fs.cwd, version, fileList, pathLen, maxSize);
    return true, false;
  }

  lemma NoRecordYet(nodes: Nodes, cwd: Path, version: nat, texts: seq<bytes>, pathLen: nat, maxSize: int)
    ensures SentBatch(nodes, cwd, version, texts[..0], pathLen, maxSize) == Some([])
  {
  }

  /** What one turn of the loop means for the whole list. */
  lemma NextRecord(nodes: Nodes, cwd: Path, version: nat, texts: seq<bytes>, pathLen: nat, maxSize: int, i: nat)
    requires i < |texts| && SentBatch(nodes, cwd, version, texts[..i], pathLen, maxSize).Some?
    ensures var before := SentBatch(nodes, cwd, version, texts[..i], pathLen, maxSize).value;
            match SentRecord(nodes, cwd, version, texts[i], pathLen, maxSize)
            case None =>
              && SentBatch(nodes, cwd, version, texts, pathLen, maxSize).None?
              && Sendable(nodes, cwd, version, texts, pathLen, maxSize) == before
              && (ReadsOff(nodes, cwd, version, texts, pathLen, maxSize)
                  <==> SentName(version, texts[i], pathLen).OffEnd?)
            case Some(record) =>
              && SentBatch(nodes, cwd, version, texts[..i + 1], pathLen, maxSize) == Some(before + record)
              && before + record <= Sendable(nodes, cwd, version, texts, pathLen, maxSize)
              && !SentName(version, texts[i], pathLen).OffEnd?
  {
    hide NamedRecord;
    assert texts[..i + 1][..i] == texts[..i] && texts[i..][1..] == texts[i + 1..];
    BatchNeedsPrefix(nodes, cwd, version, texts, pathLen, maxSize, i + 1);
    SendableFrom(nodes, cwd, version, texts, pathLen, maxSize, i);
    ReadsOffFrom(nodes, cwd, version, texts, pathLen, maxSize, i);
  }

  lemma AllRecords(nodes: Nodes, cwd: Path, version: nat, texts: seq<bytes>, pathLen: nat, maxSize: int)
    requires SentBatch(nodes, cwd, version, texts[..|texts|], pathLen, maxSize).Some?
    ensures SentBatch(nodes, cwd, version, texts, pathLen, maxSize)
            == SentBatch(nodes, cwd, version, texts[..|texts|], pathLen, maxSize)
            == Some(Sendable(nodes, cwd, version, texts, pathLen, maxSize))
    ensures !ReadsOff(nodes, cwd, version, texts, pathLen, maxSize)
  {
    hide SentRecord;
    var none := texts[|texts|..];
    assert texts[..|texts|] == texts && none == [];
    assert Sendable(nodes, cwd, version, none, pathLen, maxSize) == [];
    assert !ReadsOff(nodes, cwd, version, none, pathLen, maxSize);
    SendableFrom(nodes, cwd, version, texts, pathLen, maxSize, |texts|);
    ReadsOffFrom(nodes, cwd, version, texts, pathLen, maxSize, |texts|);
    var all := SentBatch(nodes, cwd, version, texts, pathLen, maxSize).value;
    assert all + [] == all;
  }
}
