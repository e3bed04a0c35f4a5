/** Version negotiation and the method sessions: src/proto/server.c, src/proto/versions.c and the handlers they call. */
module Session {
  import opened Bytes
  import opened Common
  import opened Paths
  import opened FileSystem
  import opened NetUtils
  import Batch
  import FileV1
  import Landing
  import Receive
  import Send
  import Text

  const PROTOCOL_MIN := 1
  const PROTOCOL_MAX := 4
  const PROTOCOL_SUPPORTED: byte := 1
  const PROTOCOL_OBSOLETE: byte := 2
  const PROTOCOL_UNKNOWN: byte := 3
  const STATUS_UNKNOWN_METHOD: byte := 3
  const STATUS_METHOD_NOT_IMPLEMENTED: byte := 4
  const MAX_IMAGE_SIZE := 0x4000_0000

  const GET_TEXT: byte := 1
  const SEND_TEXT: byte := 2
  const GET_FILE: byte := 3
  const SEND_FILE: byte := 4
  const GET_IMAGE: byte := 5
  const GET_COPIED_IMAGE: byte := 6
  const GET_SCREENSHOT: byte := 7
  const GET_ANY: byte := 124
  const INFO: byte := 125

  // ---------------------------------------------------------------- the version range

  datatype Range = Range(min: nat, max: nat)

  predicate Ordered(r: Range) { PROTOCOL_MIN <= r.min <= r.max <= PROTOCOL_MAX }

  /** The two fields of the configuration that bound the version. */
  class VersionLimits {
    var minProtoVersion: nat
    var maxProtoVersion: nat

    constructor (min: nat, max: nat)
      ensures minProtoVersion == min && maxProtoVersion == max
    {
      minProtoVersion, maxProtoVersion := min, max;
    }

    /** The clamps of _apply_default_conf: the range is ordered and within what was compiled in; a good range stays. */
    method ApplyDefaults()
      modifies this
      ensures Ordered(Range(minProtoVersion, maxProtoVersion))
      ensures Ordered(Range(old(minProtoVersion), old(maxProtoVersion))) ==>
                minProtoVersion == old(minProtoVersion) && maxProtoVersion == old(maxProtoVersion)
      ensures minProtoVersion == if old(minProtoVersion) == 0 then 1
                                 else if old(minProtoVersion) > 4 then 4 else old(minProtoVersion)
      ensures maxProtoVersion == if minProtoVersion <= old(maxProtoVersion) <= 4 then old(maxProtoVersion) else 4
    {
      if minProtoVersion < PROTOCOL_MIN { minProtoVersion := PROTOCOL_MIN; }
      if minProtoVersion > PROTOCOL_MAX { minProtoVersion := PROTOCOL_MAX; }
      if maxProtoVersion < minProtoVersion || maxProtoVersion > PROTOCOL_MAX { maxProtoVersion := PROTOCOL_MAX; }
    }
  }

  // ---------------------------------------------------------------- negotiation

  /** The server's answer to the version the client asks for. */
  function Reply(r: Range, v: byte): bytes
    requires Ordered(r)
  {
    if v < r.min then [PROTOCOL_OBSOLETE] else if v <= r.max then [PROTOCOL_SUPPORTED] else [PROTOCOL_UNKNOWN, r.max]
  }

  datatype Agreement = NoVersion | Version(version: byte, rest: bytes)

  /** The version the server goes on with, and what the client sends after it. */
  function Agreed(r: Range, stream: bytes): Agreement
    requires Ordered(r)
  {
    if stream == [] || stream[0] < r.min then NoVersion
    else if stream[0] <= r.max then Version(stream[0], stream[1..])
    else if |stream| > 1 && stream[1] == r.max then Version(r.max, stream[2..])
    else NoVersion
  }

  /** The client of the documentation: it accepts an offer exactly when it supports it, and else answers 0. */
  function ClientAnswer(client: Range, reply: bytes): bytes {
    if |reply| == 2 && reply[0] == PROTOCOL_UNKNOWN then
      if client.min <= reply[1] <= client.max then [reply[1]] else [0]
    else []
  }

  /** The version the client goes on with. */
  function ClientVersion(client: Range, reply: bytes): Option<nat> {
    if reply == [PROTOCOL_SUPPORTED] then Some(client.max)
    else if |reply| == 2 && reply[0] == PROTOCOL_UNKNOWN && client.min <= reply[1] <= client.max
      then Some(reply[1] as nat)
    else None
  }

  predicate Within(v: int, r: Range) { r.min <= v <= r.max }

  /** Some version is in both ranges. */
  ghost predicate Meet(a: Range, b: Range) {
    exists v :: Within(v, a) && Within(v, b)
  }

  /** What a client with this range sends to this server, up to the end of the negotiation. */
  function ClientBytes(client: Range, r: Range): bytes
    requires Ordered(r) && client.max <= 253
  {
    [client.max] + ClientAnswer(client, Reply(r, client.max))
  }

  /**
    * Both ends go on with the same version exactly if their ranges meet, and then it is the smaller of the two
    * maxima, in both ranges; nothing of what the client sends after the negotiation is lost.
    */
  lemma BothEndsAgree(r: Range, client: Range, rest: bytes)
    requires Ordered(r) && 1 <= client.min <= client.max <= 253
    ensures var server := Agreed(r, ClientBytes(client, r) + rest);
            && (server.Version? <==> Meet(r, client))
            && (server.Version? ==> server.rest == rest && Within(server.version, r) && Within(server.version, client))
            && (server.Version? ==> server.version == if client.max <= r.max then client.max else r.max)
            && ClientVersion(client, Reply(r, client.max))
               == if server.Version? then Some(server.version as nat) else None
  {
    var stream := ClientBytes(client, r) + rest;
    if r.min <= client.max && client.min <= r.max {
      var least := if client.max <= r.max then client.max else r.max;
      assert Within(least, r) && Within(least, client);
    }
    assert stream[0] == client.max;
    if client.max > r.max {
      assert stream[2..] == rest;
    } else {
      assert stream[1..] == ClientAnswer(client, Reply(r, client.max)) + rest == rest;
    }
  }

  // ---------------------------------------------------------------- what a session writes

  datatype Methods = Methods(getText: bool, sendText: bool, getFiles: bool, sendFiles: bool, getImage: bool,
                             getCopiedImage: bool, getScreenshot: bool, getAny: bool, info: bool)

  /** check_method_enabled; methods it does not know pass. */
  predicate Enabled(s: Methods, m: byte) {
    match m
    case 1 => s.getText
    case 2 => s.sendText
    case 3 => s.getFiles
    case 4 => s.sendFiles
    case 5 => s.getImage
    case 6 => s.getCopiedImage
    case 7 => s.getScreenshot
    case 124 => s.getAny
    case 125 => s.info
    case _ => true
  }

  /** The methods in the switch of version_1 to version_4. */
  predicate Offers(version: nat, m: byte) {
    || m in {GET_TEXT, SEND_TEXT, GET_FILE, SEND_FILE, GET_IMAGE, INFO}
    || (version >= 3 && m in {GET_COPIED_IMAGE, GET_SCREENSHOT})
    || (version >= 4 && m == GET_ANY)
  }

  /** The method of the code is switched off in the configuration. */
  predicate SwitchedOff(s: Methods, m: byte) {
    || (m == 1 && !s.getText)
    || (m == 2 && !s.sendText)
    || (m == 3 && !s.getFiles)
    || (m == 4 && !s.sendFiles)
    || (m == 5 && !s.getImage)
    || (m == 6 && !s.getCopiedImage)
    || (m == 7 && !s.getScreenshot)
    || (m == 124 && !s.getAny)
    || (m == 125 && !s.info)
  }

  datatype FileList = FileList(texts: seq<bytes>, pathLen: nat)

  datatype Kind = NoKind | TextKind | FileKind | ImageKind

  /** What the clipboard and the display of the host hold when they are asked. */
  datatype Host = Host(kind: Kind, text: Option<bytes>, regularFiles: FileList, files: FileList, filesAndDirs: FileList,
                       image: Option<bytes>, copiedImage: Option<bytes>, screens: map<nat, bytes>)

  datatype Settings = Settings(range: Range, methods: Methods, maxText: nat, files: Batch.Config, infoName: bytes,
                               serverName: Option<bytes>)

  predicate Proper(settings: Settings) {
    && Ordered(settings.range) && settings.maxText <= 0xFFFF_FFFF && IsInt64(settings.files.maxFileSize)
    && settings.files.maxFileCount <= 0xFFFF_FFFF && |settings.infoName| <= 4096
  }

  /** The list that the file method of a version asks for. */
  function FilesOf(host: Host, version: nat): FileList {
    if version == 1 then host.regularFiles else if version == 2 then host.files else host.filesAndDirs
  }

  /** The image, unless it is empty or too large. */
  function UsableImage(image: Option<bytes>): Option<bytes> {
    if image.None? || |image.value| == 0 || |image.value| > MAX_IMAGE_SIZE then None else image
  }

  function Screen(host: Host, disp: int): Option<bytes> {
    var d := if disp <= 0 || disp > 65536 then 0 else disp % 0x10000;  // uint16_t
    if d in host.screens then Some(host.screens[d]) else None
  }

  /** "\nserver_name=" */
  const NAME_KEY: bytes := [10, 115, 101, 114, 118, 101, 114, 95, 110, 97, 109, 101, 61]

  function InfoText(settings: Settings, version: nat): bytes {
    if version >= 4 && settings.serverName.Some?
       && |NAME_KEY| + |settings.serverName.value| < 4096 - |settings.infoName|
    then settings.infoName + NAME_KEY + settings.serverName.value else settings.infoName
  }

  predicate TooMany(l: FileList, maxCount: nat) { |l.texts| == 0 || |l.texts| > maxCount }

  function CountedRecords(nodes: Nodes, cwd: Path, version: nat, l: FileList, maxSize: int): bytes {
    EncodeSize(|l.texts|) + Send.Sendable(nodes, cwd, version, l.texts, l.pathLen, maxSize)
  }

  /** A status, and a second one with the image once the number of the display was read. */
  function ScreenPlan(host: Host, stream: bytes): bytes {
    [STATUS_OK] + if |stream| >= 8 then Text.Answer(UsableImage(Screen(host, DecodeSize(stream[..8])))) else []
  }

  /** A status and the type come first when the client asks for anything. */
  function AnyPlan(host: Host, settings: Settings, nodes: Nodes, cwd: Path): bytes
    requires Proper(settings)
  {
    match host.kind
    case NoKind => [STATUS_NO_DATA]
    case TextKind =>
      var t := Text.Offered(host.text, settings.maxText);
      if t.None? then [STATUS_NO_DATA] else [STATUS_OK, 1] + Text.Sized(t.value)
    case FileKind =>
      if TooMany(host.filesAndDirs, settings.files.maxFileCount) then [STATUS_NO_DATA]
      else [STATUS_OK, 2] + CountedRecords(nodes, cwd, 4, host.filesAndDirs, settings.files.maxFileSize)
    case ImageKind =>
      var i := UsableImage(host.copiedImage);
      if i.None? then [STATUS_NO_DATA] else [STATUS_OK, 3] + Text.Sized(i.value)
  }

  /** What a handler writes if the network never fails. */
  function HandlerPlan(host: Host, settings: Settings, nodes: Nodes, cwd: Path, dirname: bytes, version: nat, m: byte,
                       stream: bytes)
    : bytes
    requires Proper(settings) && |dirname| > 2
  {
    if m == GET_TEXT then Text.Answer(Text.Offered(host.text, settings.maxText))
    else if m == SEND_TEXT then
      [STATUS_OK] + if version >= 4 && Text.ReadText(stream, settings.maxText).Text? then [ACK] else []
    else if m == GET_FILE then
      if TooMany(FilesOf(host, version), settings.files.maxFileCount) then [STATUS_NO_DATA]
      else [STATUS_OK] + CountedRecords(nodes, cwd, version, FilesOf(host, version), settings.files.maxFileSize)
    else if m == SEND_FILE then
      [STATUS_OK] + if version >= 4 && Batch.BatchResult(nodes, cwd, version, settings.files, dirname, stream).Got?
        then [ACK] else []
    else if m == GET_IMAGE then Text.Answer(UsableImage(host.image))
    else if m == GET_COPIED_IMAGE then Text.Answer(UsableImage(host.copiedImage))
    else if m == GET_SCREENSHOT then
      ScreenPlan(host, stream)
    else if m == GET_ANY then AnyPlan(host, settings, nodes, cwd)
    else Text.Answer(Some(InfoText(settings, version)))
  }

  /** What a version writes: the method comes first. */
  function SessionPlan(host: Host, settings: Settings, nodes: Nodes, cwd: Path, dirname: bytes, version: nat,
                       stream: bytes): bytes
    requires Proper(settings) && |dirname| > 2
  {
    if stream == [] then []
    else if !Enabled(settings.methods, stream[0]) then [STATUS_METHOD_NOT_IMPLEMENTED]
    else if !Offers(version, stream[0]) then [STATUS_UNKNOWN_METHOD]
    else HandlerPlan(host, settings, nodes, cwd, dirname, version, stream[0], stream[1..])
  }

  /** What the server writes during the negotiation. */
  function Greeting(r: Range, stream: bytes): bytes
    requires Ordered(r)
  {
    if stream == [] then [] else Reply(r, stream[0])
  }

  /** What it writes after that. */
  function Continuation(host: Host, settings: Settings, nodes: Nodes, cwd: Path, dirname: bytes, stream: bytes): bytes
    requires Proper(settings) && |dirname| > 2
  {
    match Agreed(settings.range, stream)
    case NoVersion => []
    case Version(v, rest) => SessionPlan(host, settings, nodes, cwd, dirname, v, rest)
  }

  /** What the server writes on a connection. */
  function ServerPlan(host: Host, settings: Settings, nodes: Nodes, cwd: Path, dirname: bytes, stream: bytes): bytes
    requires Proper(settings) && |dirname| > 2
  {
    Greeting(settings.range, stream) + Continuation(host, settings, nodes, cwd, dirname, stream)
  }

  // ---------------------------------------------------------------- reads that leave a path

  /** The list is sent, and a name in it is looked for behind its path. */
  predicate ListReadsOff(settings: Settings, nodes: Nodes, cwd: Path, version: nat, l: FileList) {
    !TooMany(l, settings.files.maxFileCount)
    && Send.ReadsOff(nodes, cwd, version, l.texts, l.pathLen, settings.files.maxFileSize)
  }

  predicate HandlerReadsOff(host: Host, settings: Settings, nodes: Nodes, cwd: Path, version: nat, m: byte) {
    || (m == GET_FILE && ListReadsOff(settings, nodes, cwd, version, FilesOf(host, version)))
    || (m == GET_ANY && host.kind == FileKind && ListReadsOff(settings, nodes, cwd, 4, host.filesAndDirs))
  }

  predicate SessionReadsOff(host: Host, settings: Settings, nodes: Nodes, cwd: Path, version: nat, stream: bytes) {
    && stream != [] && Enabled(settings.methods, stream[0]) && Offers(version, stream[0])
    && HandlerReadsOff(host, settings, nodes, cwd, version, stream[0])
  }

  /** A connection on which that happens if nothing else fails. */
  predicate ServerReadsOff(host: Host, settings: Settings, nodes: Nodes, cwd: Path, stream: bytes)
    requires Proper(settings)
  {
    match Agreed(settings.range, stream)
    case NoVersion => false
    case Version(v, rest) => SessionReadsOff(host, settings, nodes, cwd, v, rest)
  }

  /** A host whose copied paths reach to the end of the common directory is safe, whatever a client sends. */
  lemma SafeHost(host: Host, settings: Settings, nodes: Nodes, cwd: Path, stream: bytes)
    requires Proper(settings)
    requires Send.LongEnough(host.files.texts, host.files.pathLen)
    requires Send.LongEnough(host.filesAndDirs.texts, host.filesAndDirs.pathLen)
    ensures !ServerReadsOff(host, settings, nodes, cwd, stream)
  {
    hide Send.ReadsOff, Send.LongEnough, Enabled;
    var maxSize := settings.files.maxFileSize;
    Send.NothingReadsOff(nodes, cwd, host.regularFiles.texts, host.regularFiles.pathLen, maxSize);
    Send.StaysInsideIff(nodes, cwd, 2, host.files.texts, host.files.pathLen, maxSize);
    Send.StaysInsideIff(nodes, cwd, 3, host.filesAndDirs.texts, host.filesAndDirs.pathLen, maxSize);
    Send.StaysInsideIff(nodes, cwd, 4, host.filesAndDirs.texts, host.filesAndDirs.pathLen, maxSize);
    match Agreed(settings.range, stream) {
      case NoVersion =>
      case Version(v, rest) => assert 1 <= v <= 4;
    }
  }

  // ---------------------------------------------------------------- what each code does

  /** A text or an image: status 1, eight bytes of length and the data, or status 2 alone. */
  predicate IsAnswer(written: bytes, data: Option<bytes>) {
    match data
    case None => written == [2]
    case Some(d) => written == [1] + EncodeSize(|d|) + d
  }

  /** A list of files: status 1, eight bytes with their number and the records, or status 2 alone. */
  predicate IsListAnswer(written: bytes, l: FileList, maxCount: nat, records: bytes) {
    if 0 < |l.texts| <= maxCount then written == [1] + EncodeSize(|l.texts|) + records else written == [2]
  }

  /** An image that can be sent. */
  predicate GoodImage(image: Option<bytes>) { image.Some? && 0 < |image.value| <= 0x4000_0000 }

  /** Codes of switched-off methods are answered with status 4, and codes that the version does not have with 3. */
  lemma RefusedCodes(host: Host, settings: Settings, nodes: Nodes, cwd: Path, dirname: bytes, version: nat,
                     stream: bytes)
    requires Proper(settings) && |dirname| > 2 && 1 <= version <= 4 && stream != []
    ensures var plan := SessionPlan(host, settings, nodes, cwd, dirname, version, stream);
            var m, on := stream[0], settings.methods;
            && (m == 1 && !on.getText ==> plan == [4])
            && (m == 2 && !on.sendText ==> plan == [4])
            && (m == 3 && !on.getFiles ==> plan == [4])
            && (m == 4 && !on.sendFiles ==> plan == [4])
            && (m == 5 && !on.getImage ==> plan == [4])
            && (m == 6 && !on.getCopiedImage ==> plan == [4])
            && (m == 7 && !on.getScreenshot ==> plan == [4])
            && (m == 124 && !on.getAny ==> plan == [4])
            && (m == 125 && !on.info ==> plan == [4])
            && (m == 6 && on.getCopiedImage && version < 3 ==> plan == [3])
            && (m == 7 && on.getScreenshot && version < 3 ==> plan == [3])
            && (m == 124 && on.getAny && version < 4 ==> plan == [3])
            && (m !in {1, 2, 3, 4, 5, 6, 7, 124, 125} ==> plan == [3])
  {
    hide HandlerPlan, Proper;
  }

  /** Codes 1, 5, 6, 7 and 125, if the method is not switched off and the version has it. */
  lemma AnsweredCodes(host: Host, settings: Settings, nodes: Nodes, cwd: Path, dirname: bytes, version: nat,
                      stream: bytes)
    requires Proper(settings) && |dirname| > 2 && 1 <= version <= 4 && stream != []
    ensures var plan := SessionPlan(host, settings, nodes, cwd, dirname, version, stream);
            var m, on := stream[0], settings.methods;
            && (m == 1 && on.getText ==> IsAnswer(plan, Text.Offered(host.text, settings.maxText)))
            && (m == 5 && on.getImage ==> IsAnswer(plan, if GoodImage(host.image) then host.image else None))
            && (m == 6 && on.getCopiedImage && version >= 3 ==>
                  IsAnswer(plan, if GoodImage(host.copiedImage) then host.copiedImage else None))
            && (m == 125 && on.info ==>
                  exists text :: IsAnswer(plan, Some(text)) && settings.infoName <= text
                                 && (text == settings.infoName || (version == 4 && settings.serverName.Some?
                                     && text == settings.infoName + NAME_KEY + settings.serverName.value)))
  {
    hide Text.Offered, EncodeSize, Batch.BatchResult, Text.ReadText, Proper, AnyPlan;
    var m, on := stream[0], settings.methods;
    if m == 125 && on.info {
      var text := InfoText(settings, version);
      AnswerIsSized(text);
      assert IsAnswer(SessionPlan(host, settings, nodes, cwd, dirname, version, stream), Some(text));
    }
    if Text.Offered(host.text, settings.maxText).Some? {
      AnswerIsSized(Text.Offered(host.text, settings.maxText).value);
    }
    if host.image.Some? { AnswerIsSized(host.image.value); }
    if host.copiedImage.Some? { AnswerIsSized(host.copiedImage.value); }
  }

  lemma AnswerIsSized(data: bytes)
    ensures IsAnswer(Text.Answer(Some(data)), Some(data))
  {
    hide EncodeSize;
    assert [STATUS_OK] + (EncodeSize(|data|) + data) == [1] + EncodeSize(|data|) + data;
  }

  /** Codes 2 and 4: status 1, and from version 4 on a second 1 once all that was announced was received. */
  lemma AcceptedCodes(host: Host, settings: Settings, nodes: Nodes, cwd: Path, dirname: bytes, version: nat,
                      stream: bytes)
    requires Proper(settings) && |dirname| > 2 && 1 <= version <= 4 && stream != []
    ensures var plan := SessionPlan(host, settings, nodes, cwd, dirname, version, stream);
            var m, on, conf := stream[0], settings.methods, settings.files;
            && (m == 2 && on.sendText ==>
                  plan == if version == 4 && Text.ReadText(stream[1..], settings.maxText).Text? then [1, 1] else [1])
            && (m == 4 && on.sendFiles ==>
                  plan == if version == 4 && Batch.BatchResult(nodes, cwd, version, conf, dirname, stream[1..]).Got?
                          then [1, 1] else [1])
  {
    hide Batch.BatchResult, Text.ReadText, Proper, DecodeSize, EncodeSize;
  }

  /** A screenshot: status 1, and after the number of the display the answer with the image of that display. */
  lemma ScreenshotCode(host: Host, settings: Settings, nodes: Nodes, cwd: Path, dirname: bytes, version: nat,
                       stream: bytes)
    requires Proper(settings) && |dirname| > 2 && 3 <= version <= 4
    requires stream != [] && stream[0] == 7 && settings.methods.getScreenshot
    ensures var plan := SessionPlan(host, settings, nodes, cwd, dirname, version, stream);
            && plan != [] && plan[0] == 1
            && (|stream| < 9 ==> plan == [1])
            && (|stream| >= 9 ==>
                  var d := DecodeSize(stream[1..9]);
                  var disp := if 0 < d < 65536 then d else 0;
                  var image := if disp in host.screens then Some(host.screens[disp]) else None;
                  IsAnswer(plan[1..], if GoodImage(image) then image else None))
  {
    hide EncodeSize, DecodeSize, Proper;
    assert |stream| >= 9 ==> stream[1..][..8] == stream[1..9];
    if |stream| >= 9 {
      var image := Screen(host, DecodeSize(stream[1..9]));
      if image.Some? { AnswerIsSized(image.value); }
    }
  }

  /** Files: the regular files in version 1, all copied files in version 2, and files and directories from 3 on. */
  lemma FilesCode(host: Host, settings: Settings, nodes: Nodes, cwd: Path, dirname: bytes, version: nat, stream: bytes)
    requires Proper(settings) && |dirname| > 2 && 1 <= version <= 4
    requires stream != [] && stream[0] == 3 && settings.methods.getFiles
    ensures var l := if version == 1 then host.regularFiles
                     else if version == 2 then host.files else host.filesAndDirs;
            var conf := settings.files;
            IsListAnswer(SessionPlan(host, settings, nodes, cwd, dirname, version, stream), l, conf.maxFileCount,
                         Send.Sendable(nodes, cwd, version, l.texts, l.pathLen, conf.maxFileSize))
  {
    hide EncodeSize, Send.Sendable, Proper;
    var l := FilesOf(host, version);
    AssocRecords([1], EncodeSize(|l.texts|),
                 Send.Sendable(nodes, cwd, version, l.texts, l.pathLen, settings.files.maxFileSize));
  }

  lemma AssocRecords(a: bytes, b: bytes, c: bytes)
    ensures a + (b + c) == a + b + c
  {
  }

  /** Anything: the type 1, 2 or 3 stands between the status and the text, the files or the image. */
  lemma AnyCode(host: Host, settings: Settings, nodes: Nodes, cwd: Path, dirname: bytes, stream: bytes)
    requires Proper(settings) && |dirname| > 2
    requires stream != [] && stream[0] == 124 && settings.methods.getAny
    ensures var plan := SessionPlan(host, settings, nodes, cwd, dirname, 4, stream);
            var conf, l := settings.files, host.filesAndDirs;
            && |plan| >= 1 && (|plan| == 1 ==> plan == [2])
            && (|plan| > 1 ==> plan[0] == 1)
            && (host.kind == NoKind ==> |plan| == 1)
            && (|plan| > 1 ==>
                  plan[1] == match host.kind case TextKind => 1 case FileKind => 2 case _ => 3)
            && var untyped := plan[..1] + if |plan| > 1 then plan[2..] else [];
            && (host.kind == TextKind ==> IsAnswer(untyped, Text.Offered(host.text, settings.maxText)))
            && (host.kind == FileKind ==>
                  IsListAnswer(untyped, l, conf.maxFileCount,
                               Send.Sendable(nodes, cwd, 4, l.texts, l.pathLen, conf.maxFileSize)))
            && (host.kind == ImageKind ==>
                  IsAnswer(untyped, if GoodImage(host.copiedImage) then host.copiedImage else None))
  {
    hide EncodeSize, Send.Sendable, Proper, Text.Offered;
    var l := host.filesAndDirs;
    AssocRecords([1], EncodeSize(|l.texts|),
                 Send.Sendable(nodes, cwd, 4, l.texts, l.pathLen, settings.files.maxFileSize));
    if Text.Offered(host.text, settings.maxText).Some? {
      AnswerIsSized(Text.Offered(host.text, settings.maxText).value);
    }
    if host.copiedImage.Some? { AnswerIsSized(host.copiedImage.value); }
  }

  /** On a connection: the version, and nothing but the refusal after it. */
  lemma SwitchedOffIsRefused(host: Host, settings: Settings, nodes: Nodes, cwd: Path, dirname: bytes, stream: bytes)
    requires Proper(settings) && |dirname| > 2
    ensures var plan := ServerPlan(host, settings, nodes, cwd, dirname, stream);
            && (AsksInRange(settings, stream) ==> plan == [1, 4])
            && (AsksAfterOffer(settings, stream) ==> plan == [3, settings.range.max, 4])
  {
    hide HandlerPlan, Proper;
    ProperRange(settings);
  }

  /** A version within the range, and then a method that is switched off. */
  predicate AsksInRange(settings: Settings, stream: bytes) {
    && |stream| >= 2 && settings.range.min <= stream[0] <= settings.range.max
    && SwitchedOff(settings.methods, stream[1])
  }

  /** A version above the range, acceptance of the largest one, and then a method that is switched off. */
  predicate AsksAfterOffer(settings: Settings, stream: bytes) {
    && |stream| >= 3 && settings.range.min <= stream[0] && settings.range.max < stream[0]
    && stream[1] == settings.range.max && SwitchedOff(settings.methods, stream[2])
  }

  // ---------------------------------------------------------------- what the plans promise

  /** After the status byte at `at`, a refusal, there is nothing. */
  predicate RefusalEnds(plan: bytes, at: nat) {
    |plan| > at && plan[at] != STATUS_OK ==> |plan| == at + 1 && plan[at] in {2, 3, 4}
  }

  /** Where a session writes a status: first, and for a screenshot once more after the display was read. */
  lemma RefusalIsLast(host: Host, settings: Settings, nodes: Nodes, cwd: Path, dirname: bytes, version: nat,
                      stream: bytes)
    requires Proper(settings) && |dirname| > 2
    ensures RefusalEnds(SessionPlan(host, settings, nodes, cwd, dirname, version, stream), 0)
    ensures stream != [] && stream[0] == GET_SCREENSHOT ==>
              RefusalEnds(SessionPlan(host, settings, nodes, cwd, dirname, version, stream), 1)
  {
    hide Text.Offered, EncodeSize, Send.Sendable, Batch.BatchResult, DecodeSize, Proper, Text.ReadText, InfoText,
         Screen;
  }

  /** An obsolete version, or an offer that is not accepted, ends the conversation. */
  lemma RefusedVersionIsLast(host: Host, settings: Settings, nodes: Nodes, cwd: Path, dirname: bytes, stream: bytes)
    requires Proper(settings) && |dirname| > 2 && stream != []
    ensures var plan := ServerPlan(host, settings, nodes, cwd, dirname, stream);
            && (plan[0] == PROTOCOL_OBSOLETE <==> stream[0] < settings.range.min)
            && (plan[0] == PROTOCOL_OBSOLETE ==> |plan| == 1)
            && (plan[0] == PROTOCOL_UNKNOWN ==> |plan| >= 2 && plan[1] == settings.range.max)
            && (plan[0] == PROTOCOL_UNKNOWN && !(|stream| > 1 && stream[1] == settings.range.max) ==> |plan| == 2)
  {
    hide SessionPlan;
  }

  /**
    * What was written, all of the plan or only its beginning: nothing follows a version that is refused, an offer
    * that is not accepted, or a status that refuses the method or reports that there is no data.
    */
  ghost predicate QuietAfterRefusal(r: Range, stream: bytes, written: bytes)
    requires Ordered(r)
  {
    && (written != [] ==> stream != [])
    && (written != [] && written[0] == PROTOCOL_OBSOLETE ==> |written| == 1)
    && (written != [] ==> (written[0] == PROTOCOL_OBSOLETE <==> stream[0] < r.min))
    && match Agreed(r, stream)
       case NoVersion => |written| <= 2 && (|written| == 2 ==> written == [PROTOCOL_UNKNOWN, r.max])
       case Version(_, rest) =>
         && RefusalEnds(written, |Greeting(r, stream)|)
         && (rest != [] && rest[0] == GET_SCREENSHOT ==> RefusalEnds(written, |Greeting(r, stream)| + 1))
  }

  lemma ProperRange(settings: Settings)
    requires Proper(settings)
    ensures Ordered(settings.range)
  {
  }

  lemma PrefixKeepsRefusal(plan: bytes, written: bytes, greeting: bytes, at: nat)
    requires RefusalEnds(plan, at) && written <= greeting + plan
    ensures RefusalEnds(written, |greeting| + at)
  {
    if |written| > |greeting| + at {
      assert written[|greeting| + at] == (greeting + plan)[|greeting| + at] == plan[at];
    }
  }

  /** However much of the plan gets onto the wire, nothing is written after a refusal. */
  lemma NothingAfterRefusal(host: Host, settings: Settings, nodes: Nodes, cwd: Path, dirname: bytes, stream: bytes,
                            written: bytes)
    requires Proper(settings) && |dirname| > 2
    requires written <= ServerPlan(host, settings, nodes, cwd, dirname, stream)
    ensures QuietAfterRefusal(settings.range, stream, written)
  {
    hide SessionPlan, RefusalEnds, Proper;
    ProperRange(settings);
    var greeting, plan := Greeting(settings.range, stream), ServerPlan(host, settings, nodes, cwd, dirname, stream);
    assert written != [] ==> written[0] == plan[0];
    match Agreed(settings.range, stream) {
      case NoVersion =>
        assert plan == greeting;
      case Version(version, rest) =>
        assert plan == greeting + SessionPlan(host, settings, nodes, cwd, dirname, version, rest);
        assert greeting != [] && plan[0] == greeting[0];
        RefusalIsLast(host, settings, nodes, cwd, dirname, version, rest);
        PrefixKeepsRefusal(SessionPlan(host, settings, nodes, cwd, dirname, version, rest), written, greeting, 0);
        if rest != [] && rest[0] == GET_SCREENSHOT {
          PrefixKeepsRefusal(SessionPlan(host, settings, nodes, cwd, dirname, version, rest), written, greeting, 1);
        }
    }
  }

  /** The plan is the negotiation and what follows it. */
  lemma GreetingFirst(host: Host, settings: Settings, nodes: Nodes, cwd: Path, dirname: bytes, stream: bytes)
    requires Proper(settings) && |dirname| > 2
    ensures ServerPlan(host, settings, nodes, cwd, dirname, stream)
            == Greeting(settings.range, stream) + Continuation(host, settings, nodes, cwd, dirname, stream)
  {
  }

  // ---------------------------------------------------------------- the code

  lemma PrefixThen(before: bytes, mid: bytes, a: bytes, b: bytes)
    requires before <= mid <= before + a
    ensures mid <= before + (a + b)
  {
  }

  /** _get_image_common */
  method GetImageCommon(sock: Socket, image: Option<bytes>) returns (ok: bool)
    modifies sock`sent, sock`calls, sock`open
    ensures old(sock.sent) <= sock.sent <= old(sock.sent) + Text.Answer(UsableImage(image))
    ensures ok ==> UsableImage(image).Some? && sock.sent == old(sock.sent) + Text.Answer(UsableImage(image))
    ensures old(sock.open) && sock.Reliable() ==> sock.sent == old(sock.sent) + Text.Answer(UsableImage(image))
  {
    if image.None? || |image.value| == 0 || |image.value| > MAX_IMAGE_SIZE {
      ok := sock.WriteSock([STATUS_NO_DATA]);
      sock.open := false;
      return false;
    }
    ok := Text.SendAnswer(sock, image.value);
  }

  /** _get_screenshot_common */
  method GetScreenshotCommon(sock: Socket, host: Host) returns (ok: bool)
    modifies sock
    ensures old(sock.sent) <= sock.sent <= old(sock.sent) + ScreenPlan(host, old(sock.incoming))
    ensures old(sock.open) && sock.Reliable() ==> sock.sent == old(sock.sent) + ScreenPlan(host, old(sock.incoming))
  {
    hide DecodeSize, UsableImage, Text.Answer;
    ok := sock.WriteSock([STATUS_OK]);
    if !ok { return; }
    var disp;
    ok, disp := sock.ReadSize();
    if !ok { return; }
    if disp <= 0 || disp > 65536 { disp := 0; }
    ghost var mid := sock.sent;
    var d := disp % 0x10000;
    ok := GetImageCommon(sock, if d in host.screens then Some(host.screens[d]) else None);
  }

  /** The v4 handlers of what the client gets: an acknowledgement is read, and the connection closed. */
  method Finish(sock: Socket, version: nat, sentAll: bool) returns (ok: bool)
    modifies sock
    ensures sock.sent == old(sock.sent)
    ensures ok && version >= 4 ==> sentAll && old(sock.incoming) != [] && old(sock.incoming)[0] == ACK
  {
    if !sentAll { return false; }
    if version < 4 { return true; }
    ok := Text.ReadAck(sock);
    if ok { sock.open := false; }
  }

  /** A status, the type of what follows, and a block of data. */
  method AnswerAny(sock: Socket, kind: byte, data: bytes) returns (ok: bool)
    requires IsInt64(|data|)
    modifies sock`sent, sock`calls
    ensures old(sock.sent) <= sock.sent <= old(sock.sent) + ([STATUS_OK, kind] + Text.Sized(data))
    ensures sock.open && sock.Reliable() ==> ok && sock.sent == old(sock.sent) + ([STATUS_OK, kind] + Text.Sized(data))
  {
    hide EncodeSize;
    ghost var before := sock.sent;
    ok := sock.WriteSock([STATUS_OK]);
    assert [STATUS_OK] + ([kind] + Text.Sized(data)) == [STATUS_OK, kind] + Text.Sized(data);
    PrefixThen(before, sock.sent, [STATUS_OK], [kind] + Text.Sized(data));
    if !ok { return; }
    ok := sock.WriteSock([kind]);
    assert before + [STATUS_OK] + [kind] == before + [STATUS_OK, kind];
    PrefixThen(before, sock.sent, [STATUS_OK, kind], Text.Sized(data));
    if !ok { return; }
    ok := Send.SendData(sock, data);
    assert before + [STATUS_OK, kind] + EncodeSize(|data|) + data == before + ([STATUS_OK, kind] + Text.Sized(data));
  }

  /** _respond_any_files */
  method RespondAnyFiles(sock: Socket, fs: Fs, l: FileList, maxSize: int) returns (ok: bool, overrun: bool)
    requires IsInt64(maxSize) && |l.texts| <= 0xFFFF_FFFF
    modifies sock`sent, sock`calls, fs`calls
    ensures overrun ==> !ok && Send.ReadsOff(fs.nodes, fs.cwd, 4, l.texts, l.pathLen, maxSize)
    ensures sock.open && sock.Reliable() && fs.Healthy() ==>
              (overrun <==> Send.ReadsOff(fs.nodes, fs.cwd, 4, l.texts, l.pathLen, maxSize))
    ensures old(sock.sent) <= sock.sent
            <= old(sock.sent) + ([STATUS_OK, 2] + CountedRecords(fs.nodes, fs.cwd, 4, l, maxSize))
    ensures sock.open && sock.Reliable() && fs.Healthy() ==>
              sock.sent == old(sock.sent) + ([STATUS_OK, 2] + CountedRecords(fs.nodes, fs.cwd, 4, l, maxSize))
  {
    hide EncodeSize, Send.Sendable, Send.SentBatch, Send.ReadsOff;
    overrun := false;
    ghost var before, records := sock.sent, CountedRecords(fs.nodes, fs.cwd, 4, l, maxSize);
    var two: byte := 2;
    ok := sock.WriteSock([STATUS_OK]);
    assert [STATUS_OK] + ([two] + records) == [STATUS_OK, 2] + records;
    PrefixThen(before, sock.sent, [STATUS_OK], [two] + records);
    if !ok { return; }
    ok := sock.WriteSock([two]);
    assert before + [STATUS_OK] + [two] == before + [STATUS_OK, 2];
    PrefixThen(before, sock.sent, [STATUS_OK, 2], records);
    if !ok { return; }
    ok := sock.SendSize(|l.texts|);
    ghost var head := [STATUS_OK, 2] + EncodeSize(|l.texts|);
    assert before + [STATUS_OK, 2] + EncodeSize(|l.texts|) == before + head;
    assert head + Send.Sendable(fs.nodes, fs.cwd, 4, l.texts, l.pathLen, maxSize) == [STATUS_OK, 2] + records;
    PrefixThen(before, sock.sent, head, Send.Sendable(fs.nodes, fs.cwd, 4, l.texts, l.pathLen, maxSize));
    if !ok { return; }
    ok, overrun := Send.SendRecords(4, sock, fs, l.texts, l.pathLen, maxSize);
    assert before + head + Send.Sendable(fs.nodes, fs.cwd, 4, l.texts, l.pathLen, maxSize)
           == before + ([STATUS_OK, 2] + records);
  }

  /** get_any_v4 with _get_any_text, _get_any_files and _get_any_image. */
  method GetAny(sock: Socket, fs: Fs, host: Host, settings: Settings) returns (ok: bool, overrun: bool)
    requires Proper(settings)
    modifies sock, fs`calls
    ensures overrun ==> !ok && HandlerReadsOff(host, settings, fs.nodes, fs.cwd, 4, GET_ANY)
    ensures old(sock.open) && sock.Reliable() && fs.Healthy() ==>
              (overrun <==> HandlerReadsOff(host, settings, fs.nodes, fs.cwd, 4, GET_ANY))
    ensures old(sock.sent) <= sock.sent <= old(sock.sent) + AnyPlan(host, settings, fs.nodes, fs.cwd)
    ensures old(sock.open) && sock.Reliable() && fs.Healthy() ==>
              sock.sent == old(sock.sent) + AnyPlan(host, settings, fs.nodes, fs.cwd)
    ensures ok ==> old(sock.incoming) != [] && old(sock.incoming)[0] == ACK
  {
    hide Text.Sized, CountedRecords, Text.Offered, Send.ReadsOff;
    overrun := false;
    match host.kind {
      case NoKind =>
        ok := sock.WriteSock([STATUS_NO_DATA]);
        return false, false;
      case TextKind => ok := GetAnyText(sock, host, settings);
      case FileKind =>
        if TooMany(host.filesAndDirs, settings.files.maxFileCount) {
          ok := sock.WriteSock([STATUS_NO_DATA]);
          ok := false;
        } else {
          ok, overrun := RespondAnyFiles(sock, fs, host.filesAndDirs, settings.files.maxFileSize);
          if overrun { return; }
        }
      case ImageKind =>
        var image := UsableImage(host.copiedImage);
        if image.None? {
          ok := sock.WriteSock([STATUS_NO_DATA]);
          ok := false;
        } else {
          ok := AnswerAny(sock, 3, image.value);
        }
    }
    if ok { ok := Text.ReadAck(sock); }
    sock.open := false;
  }

  /** _get_any_text */
  method GetAnyText(sock: Socket, host: Host, settings: Settings) returns (ok: bool)
    requires Proper(settings)
    modifies sock`sent, sock`calls
    ensures var t := Text.Offered(host.text, settings.maxText);
            old(sock.sent) <= sock.sent
            <= old(sock.sent) + if t.None? then [STATUS_NO_DATA] else [STATUS_OK, 1] + Text.Sized(t.value)
    ensures var t := Text.Offered(host.text, settings.maxText);
            sock.open && sock.Reliable() ==>
              (ok <==> t.Some?)
              && sock.sent == old(sock.sent) +
                   if t.None? then [STATUS_NO_DATA] else [STATUS_OK, 1] + Text.Sized(t.value)
  {
    hide Text.Sized;
    var clip := host.text;
    if clip.None? || |clip.value| == 0 || |clip.value| > settings.maxText {
      ok := sock.WriteSock([STATUS_NO_DATA]);
      return false;
    }
    var t := Text.ConvertBuffer(clip.value);
    if t == [] {
      ok := sock.WriteSock([STATUS_NO_DATA]);
      return false;
    }
    assert Text.Offered(host.text, settings.maxText) == Some(t) && |t| <= |clip.value|;
    ok := AnswerAny(sock, 1, t);
  }

  /** get_text, get_files and the other methods that answer; what is written is what the plan says, or a part of it. */
  method Answering(version: nat, m: byte, sock: Socket, fs: Fs, host: Host, settings: Settings, ghost dirname: bytes)
    returns (ok: bool, overrun: bool)
    requires Proper(settings) && |dirname| > 2 && Offers(version, m) && m != SEND_TEXT && m != SEND_FILE
    modifies sock, fs`calls
    ensures overrun ==> HandlerReadsOff(host, settings, fs.nodes, fs.cwd, version, m)
    ensures old(sock.open) && sock.Reliable() && fs.Healthy() ==>
              (overrun <==> HandlerReadsOff(host, settings, fs.nodes, fs.cwd, version, m))
    ensures old(sock.sent) <= sock.sent
    ensures sock.sent
            <= old(sock.sent) + HandlerPlan(host, settings, fs.nodes, fs.cwd, dirname, version, m, old(sock.incoming))
    ensures old(sock.open) && sock.Reliable() && fs.Healthy() ==>
              sock.sent == old(sock.sent)
                + HandlerPlan(host, settings, fs.nodes, fs.cwd, dirname, version, m, old(sock.incoming))
  {
    hide Text.Answer, Text.Offered, AnyPlan, Send.Sendable, UsableImage, InfoText, Screen, DecodeSize, EncodeSize;
    hide Batch.BatchResult, Text.ReadText, Send.ReadsOff;
    overrun := false;
    if m == GET_TEXT {
      ok := Text.GetTextV1(sock, host.text, settings.maxText);
      ok := Finish(sock, version, ok);
    } else if m == GET_FILE {
      ok, overrun := GetFiles(version, sock, fs, host, settings);
      ok := Finish(sock, version, ok);
    } else if m == GET_IMAGE {
      ok := GetImageCommon(sock, host.image);
      ok := Finish(sock, version, ok);
    } else if m == GET_COPIED_IMAGE {
      ok := GetImageCommon(sock, host.copiedImage);
      ok := Finish(sock, version, ok);
    } else if m == GET_SCREENSHOT {
      ok := GetScreenshotCommon(sock, host);
      ok := Finish(sock, version, ok);
    } else if m == GET_ANY {
      ok, overrun := GetAny(sock, fs, host, settings);
    } else {
      InfoIsShort(settings, version);
      ok := Text.SendAnswer(sock, InfoText(settings, version));
      ok := Finish(sock, version, ok);
    }
  }

  lemma InfoIsShort(settings: Settings, version: nat)
    requires |settings.infoName| <= 4096
    ensures |InfoText(settings, version)| <= 4096
  {
  }

  /** get_files_v1 to get_files_v4 up to the acknowledgement. */
  method GetFiles(version: nat, sock: Socket, fs: Fs, host: Host, settings: Settings) returns (ok: bool, overrun: bool)
    requires Proper(settings)
    modifies sock`sent, sock`calls, sock`open, fs`calls
    ensures overrun ==> !ok && ListReadsOff(settings, fs.nodes, fs.cwd, version, FilesOf(host, version))
    ensures old(sock.open) && sock.Reliable() && fs.Healthy() ==>
              (overrun <==> ListReadsOff(settings, fs.nodes, fs.cwd, version, FilesOf(host, version)))
    ensures var l := FilesOf(host, version);
            old(sock.sent) <= sock.sent
            <= old(sock.sent) + if TooMany(l, settings.files.maxFileCount) then [STATUS_NO_DATA]
                                else [STATUS_OK] + CountedRecords(fs.nodes, fs.cwd, version, l,
                                                                   settings.files.maxFileSize)
    ensures var l := FilesOf(host, version);
            old(sock.open) && sock.Reliable() && fs.Healthy() ==>
              sock.sent == old(sock.sent)
                + if TooMany(l, settings.files.maxFileCount) then [STATUS_NO_DATA]
                  else [STATUS_OK] + CountedRecords(fs.nodes, fs.cwd, version, l, settings.files.maxFileSize)
  {
    hide EncodeSize, Send.Sendable, Send.SentBatch, Send.ReadsOff;
    var l := FilesOf(host, version);
    ok, overrun := Send.GetFilesCommon(version, sock, fs, l.texts, l.pathLen, settings.files.maxFileSize,
                                       settings.files.maxFileCount);
    if !TooMany(l, settings.files.maxFileCount) {
      assert Send.Announced(|l.texts|,
                            Send.Sendable(fs.nodes, fs.cwd, version, l.texts, l.pathLen, settings.files.maxFileSize))
          == [STATUS_OK] + CountedRecords(fs.nodes, fs.cwd, version, l, settings.files.maxFileSize);
    }
  }

  /** send_text and send_files. Nothing in the file system changes but below the working directory, where it grows. */
  method Accepting(version: nat, m: byte, sock: Socket, fs: Fs, host: Host, settings: Settings, ids: seq<nat>,
                   memory: nat -> bool, ghost dirname: bytes)
    returns (ok: bool, put: Option<bytes>)
    requires Proper(settings) && fs.Valid()
    requires Batch.Picks(fs.nodes, fs.cwd, ids, dirname) && m in {SEND_TEXT, SEND_FILE}
    modifies sock, fs
    ensures fs.Valid() && GrowsBelow(old(fs.nodes), fs.nodes, fs.cwd)
    ensures old(sock.sent) <= sock.sent
    ensures sock.sent
            <= old(sock.sent)
               + HandlerPlan(host, settings, old(fs.nodes), fs.cwd, dirname, version, m, old(sock.incoming))
    ensures old(sock.open) && sock.Reliable() && fs.Healthy() && memory(0) ==>
              sock.sent == old(sock.sent)
                + HandlerPlan(host, settings, old(fs.nodes), fs.cwd, dirname, version, m, old(sock.incoming))
    ensures put.Some? ==> m == SEND_TEXT && Text.ReadText(old(sock.incoming), settings.maxText).Text?
    ensures put.Some? ==> put == Text.Stored(Text.ReadText(old(sock.incoming), settings.maxText).data)
    ensures put.Some? ==> Text.IsReceivedText(old(sock.incoming), settings.maxText, put.value)
    ensures m == SEND_TEXT ==> fs.nodes == old(fs.nodes)
  {
    hide Batch.Outcome, Batch.CutIsOffered, Batch.NamesLanded, Batch.Accounted, Batch.HasLanded, Batch.Receivable;
    hide Text.IsReceivedText, DecodeSize, Text.ReadText, Receive.SaveAll, Text.Stored, Landing.Landed,
         FileV1.OneMoreFile, FileV1.ReadHeader;
    put := None;
    Receive.NothingGrows(fs.nodes, fs.cwd);
    if m == SEND_TEXT {
      ok, put := Text.SendTextCommon(sock, version, settings.maxText, memory(0));
    } else if version == 1 {
      var saved;
      ghost var x;
      ok, saved, x := FileV1.SendFileV1(sock, fs, settings.files, memory);
      OneMoreGrows(old(fs.nodes), fs.nodes, fs.cwd, x);
    } else {
      var dest, clip;
      ghost var mid, moved, attempt;
      ok, dest, clip, mid, moved, attempt := Batch.SendFilesDirs(version, sock, fs, settings.files, ids, memory,
                                                                   dirname);
    }
  }

  lemma OneMoreGrows(nodes: Nodes, now: Nodes, cwd: Path, x: Name)
    requires now == nodes || FileV1.OneMoreFile(nodes, now, cwd, x)
    ensures GrowsBelow(nodes, now, cwd)
  {
  }

  /** check_method_enabled */
  method CheckMethodEnabled(sock: Socket, methods: Methods, m: byte) returns (ok: bool)
    modifies sock`sent, sock`calls, sock`open
    ensures ok == Enabled(methods, m)
    ensures ok <==> !SwitchedOff(methods, m)
    ensures ok ==> sock.sent == old(sock.sent)
    ensures !ok ==> !sock.open && old(sock.sent) <= sock.sent <= old(sock.sent) + [STATUS_METHOD_NOT_IMPLEMENTED]
    ensures ok ==> sock.open == old(sock.open)
    ensures !ok && old(sock.open) && sock.Reliable() ==> sock.sent == old(sock.sent) + [STATUS_METHOD_NOT_IMPLEMENTED]
  {
    var disabled := match m
      case 1 => !methods.getText
      case 2 => !methods.sendText
      case 3 => !methods.getFiles
      case 4 => !methods.sendFiles
      case 5 => !methods.getImage
      case 6 => !methods.getCopiedImage
      case 7 => !methods.getScreenshot
      case 124 => !methods.getAny
      case 125 => !methods.info
      case _ => false;
    if disabled {
      var written := sock.WriteSock([STATUS_METHOD_NOT_IMPLEMENTED]);
      sock.open := false;
      return false;
    }
    return true;
  }

  /**
    * version_1 to version_4. A disabled or unknown method touches nothing: no file, no clipboard, and not a byte
    * more is read or written than its code and the refusal.
    */
  method RunVersion(version: nat, sock: Socket, fs: Fs, host: Host, settings: Settings, ids: seq<nat>,
                   memory: nat -> bool, ghost dirname: bytes)
    returns (put: Option<bytes>, overrun: bool)
    requires Proper(settings) && fs.Valid() && Batch.Picks(fs.nodes, fs.cwd, ids, dirname)
    modifies sock, fs
    ensures overrun ==> SessionReadsOff(host, settings, old(fs.nodes), fs.cwd, version, old(sock.incoming))
    ensures old(sock.open) && sock.Reliable() && fs.Healthy() ==>
              (overrun <==> SessionReadsOff(host, settings, old(fs.nodes), fs.cwd, version, old(sock.incoming)))
    ensures fs.Valid() && GrowsBelow(old(fs.nodes), fs.nodes, fs.cwd)
    ensures old(sock.sent) <= sock.sent
    ensures sock.sent
            <= old(sock.sent) + SessionPlan(host, settings, old(fs.nodes), fs.cwd, dirname, version, old(sock.incoming))
    ensures old(sock.open) && sock.Reliable() && fs.Healthy() && memory(0) ==>
              sock.sent == old(sock.sent)
                + SessionPlan(host, settings, old(fs.nodes), fs.cwd, dirname, version, old(sock.incoming))
    ensures var stream := old(sock.incoming);
            stream == [] || !Enabled(settings.methods, stream[0]) || !Offers(version, stream[0]) ==>
              fs.nodes == old(fs.nodes) && put.None?
              && (stream == [] || sock.incoming == stream || sock.incoming == stream[1..])
    ensures old(sock.incoming) != [] && SwitchedOff(settings.methods, old(sock.incoming)[0]) ==>
              sock.sent <= old(sock.sent) + [4] && fs.nodes == old(fs.nodes) && put.None?
    ensures old(sock.incoming) != [] && SwitchedOff(settings.methods, old(sock.incoming)[0]) ==>
              old(sock.open) && sock.Reliable() ==> sock.sent == old(sock.sent) + [4]
    ensures put.Some? ==> old(sock.incoming) != [] && old(sock.incoming)[0] == SEND_TEXT && settings.methods.sendText
    ensures put.Some? ==> Text.IsReceivedText(old(sock.incoming)[1..], settings.maxText, put.value)
    ensures fs.nodes != old(fs.nodes) ==>
              old(sock.incoming) != [] && old(sock.incoming)[0] == SEND_FILE && settings.methods.sendFiles
  {
    hide HandlerPlan, GrowsBelow, Text.ReadText, Text.Stored, ListReadsOff, Text.IsReceivedText;
    put, overrun := None, false;
    Receive.NothingGrows(fs.nodes, fs.cwd);
    var ok, code := sock.ReadBytes(1);
    if !ok { return; }
    var m := code[0];
    ok := CheckMethodEnabled(sock, settings.methods, m);
    if !ok { return; }
    if !Offers(version, m) {
      ok := sock.WriteSock([STATUS_UNKNOWN_METHOD]);
      sock.open := false;
      return;
    }
    if m == SEND_TEXT || m == SEND_FILE {
      ok, put := Accepting(version, m, sock, fs, host, settings, ids, memory, dirname);
    } else {
      ok, overrun := Answering(version, m, sock, fs, host, settings, dirname);
    }
  }

  /** The first part of server: the version to go on with, if there is one. */
  method Negotiate(sock: Socket, range: Range) returns (version: Option<byte>)
    requires Ordered(range)
    modifies sock
    ensures old(sock.sent) <= sock.sent <= old(sock.sent) + Greeting(range, old(sock.incoming))
    ensures old(sock.open) && sock.Reliable() ==>
              sock.sent == old(sock.sent) + Greeting(range, old(sock.incoming))
              && (version.Some? <==> Agreed(range, old(sock.incoming)).Version?)
    ensures version.Some? ==>
              && Agreed(range, old(sock.incoming)) == Version(version.value, sock.incoming)
              && sock.sent == old(sock.sent) + Greeting(range, old(sock.incoming)) && sock.open == old(sock.open)
  {
    version := None;
    var ok, first := sock.ReadBytes(1);
    if !ok { return; }
    var v := first[0];
    if v < range.min {
      ok := sock.WriteSock([PROTOCOL_OBSOLETE]);
      sock.open := false;
      return;
    } else if v <= range.max {
      ok := sock.WriteSock([PROTOCOL_SUPPORTED]);
      if !ok { return; }
    } else {
      ok := OfferVersion(sock, range.max);
      if !ok { return; }
      ok, first := sock.ReadBytes(1);
      if !ok { return; }
      v := first[0];
      if v != range.max {
        sock.open := false;
        return;
      }
    }
    version := Some(v);
  }

  /**
    * server: negotiation, then the session in the agreed version. Whatever fails, what is written is the beginning of
    * the plan, and nothing follows a refusal. With `overrun` the server came to a name that it looks for behind its
    * path; what is written is then what was written before.
    */
  method Serve(sock: Socket, fs: Fs, host: Host, settings: Settings, ids: seq<nat>, memory: nat -> bool,
               ghost dirname: bytes)
    returns (version: Option<byte>, put: Option<bytes>, overrun: bool)
    requires Proper(settings) && fs.Valid() && Batch.Picks(fs.nodes, fs.cwd, ids, dirname)
    modifies sock, fs
    ensures fs.Valid() && GrowsBelow(old(fs.nodes), fs.nodes, fs.cwd)
    ensures old(sock.sent) <= sock.sent
    ensures sock.sent <= old(sock.sent) + ServerPlan(host, settings, old(fs.nodes), fs.cwd, dirname, old(sock.incoming))
    ensures old(sock.open) && sock.Reliable() && fs.Healthy() && memory(0) ==>
              sock.sent == old(sock.sent)
                + ServerPlan(host, settings, old(fs.nodes), fs.cwd, dirname, old(sock.incoming))
    ensures QuietAfterRefusal(settings.range, old(sock.incoming), sock.sent[|old(sock.sent)|..])
    ensures overrun ==> ServerReadsOff(host, settings, old(fs.nodes), fs.cwd, old(sock.incoming))
    ensures old(sock.open) && sock.Reliable() && fs.Healthy() ==>
              (overrun <==> ServerReadsOff(host, settings, old(fs.nodes), fs.cwd, old(sock.incoming)))
    ensures version.Some? ==> Agreed(settings.range, old(sock.incoming)).Version?
    ensures version.Some? ==> version.value == Agreed(settings.range, old(sock.incoming)).version
    ensures version.Some? ==> Within(version.value, settings.range)
    ensures version.None? ==> fs.nodes == old(fs.nodes) && put.None?
    ensures AsksInRange(settings, old(sock.incoming)) ==> sock.sent <= old(sock.sent) + [1, 4]
    ensures AsksAfterOffer(settings, old(sock.incoming)) ==>
              sock.sent <= old(sock.sent) + [3, settings.range.max, 4]
    ensures old(sock.open) && sock.Reliable() && fs.Healthy() && memory(0) ==>
              && (AsksInRange(settings, old(sock.incoming)) ==> sock.sent == old(sock.sent) + [1, 4])
              && (AsksAfterOffer(settings, old(sock.incoming)) ==>
                    sock.sent == old(sock.sent) + [3, settings.range.max, 4])
    ensures put.Some? ==> settings.methods.sendText
    ensures fs.nodes != old(fs.nodes) ==> settings.methods.sendFiles
    ensures old(sock.open) && sock.Reliable() && Agreed(settings.range, old(sock.incoming)).Version? ==> version.Some?
  {
    hide SessionPlan, GrowsBelow, Proper, Batch.Picks, Greeting, QuietAfterRefusal, ServerPlan, SessionReadsOff,
         AsksInRange, AsksAfterOffer, SwitchedOff;
    put, overrun := None, false;
    Receive.NothingGrows(fs.nodes, fs.cwd);
    ProperRange(settings);
    Batch.PickedIsLong(fs.nodes, fs.cwd, ids, dirname);
    ghost var stream, before, nodes := sock.incoming, sock.sent, fs.nodes;
    version := Negotiate(sock, settings.range);
    GreetingFirst(host, settings, nodes, fs.cwd, dirname, stream);
    ghost var rest := Continuation(host, settings, nodes, fs.cwd, dirname, stream);
    PrefixThen(before, sock.sent, Greeting(settings.range, stream), rest);
    if version.Some? {
      put, overrun := RunVersion(version.value, sock, fs, host, settings, ids, memory, dirname);
    }
    assert before + Greeting(settings.range, stream) + rest == before + (Greeting(settings.range, stream) + rest);
    NothingAfterRefusal(host, settings, nodes, fs.cwd, dirname, stream, sock.sent[|before|..]);
    SwitchedOffIsRefused(host, settings, nodes, fs.cwd, dirname, stream);
  }

  /** PROTOCOL_UNKNOWN and the largest version. */
  method OfferVersion(sock: Socket, max: byte) returns (ok: bool)
    modifies sock`sent, sock`calls
    ensures old(sock.sent) <= sock.sent <= old(sock.sent) + [PROTOCOL_UNKNOWN, max]
    ensures ok ==> sock.sent == old(sock.sent) + [PROTOCOL_UNKNOWN, max]
    ensures sock.open && sock.Reliable() ==> ok
  {
    ghost var before := sock.sent;
    ok := sock.WriteSock([PROTOCOL_UNKNOWN]);
    assert before + [PROTOCOL_UNKNOWN] + [max] == before + [PROTOCOL_UNKNOWN, max];
    if !ok { return; }
    ok := sock.WriteSock([max]);
  }
}
