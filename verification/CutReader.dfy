/**
  * Reading a list of copied files: the text is split and every URL decoded inside one buffer, by get_copied_files and
  * get_copied_dirs_files of src/utils/utils.c.
  */
module CutReader {
  import opened Bytes
  import opened Common
  import opened CutFiles
  import opened Url

  // ---------------------------------------------------------------- one turn of the decoding loop

  lemma OverwriteKeeps(buf: bytes, pos: nat, s: bytes, k: nat)
    requires pos + |s| < k <= |buf|
    ensures Overwrite(buf, pos, s)[k..] == buf[k..]
  {
  }

  /** How far the reader steps: over the string as it was, or 2049 bytes. */
  function Advance(u: bytes): nat {
    (if |u| <= MAX_FILE_NAME_LEN then |u| else MAX_FILE_NAME_LEN) + 1
  }

  /** get_copied_files lists regular files only; get_copied_dirs_files directories as well, with further tests. */
  datatype Mode = FilesOnly | DirsToo

  /** What a turn does with its entry: leave the loop, read behind the buffer, or leave this text in its place. */
  datatype Turn = Stop | RunOff | Take(path: bytes)

  /** get_copied_dirs_files rejects empty and long names and drops a slash at the end of the first one. */
  function Judge(mode: Mode, first: bool, p: bytes): (t: Turn)
    ensures !t.RunOff? && (t.Take? ==> |t.path| == |p|)
  {
    if mode == FilesOnly then Take(p)
    else if p == [] || |p| > MAX_FILE_NAME_LEN then Stop
    else if first && p[|p| - 1] == SLASH then Take(p[..|p| - 1] + [NUL])
    else Take(p)
  }

  function TurnAt(mode: Mode, first: bool, buf: bytes, pos: nat): (t: Turn)
    requires pos < |buf| && NUL in buf[pos..]
    ensures t.Take? ==> pos + |t.path| < |buf|
  {
    match DecodeAt(buf, pos)
    case NotUrl => Stop
    case Overrun => RunOff
    case Path(p) => Judge(mode, first, p)
  }

  /** What stands at `pos` is read, and where the next entry is expected. */
  function Next(buf: bytes, pos: nat): nat
    requires pos < |buf|
  {
    pos + Advance(CStr(buf[pos..]))
  }

  /**
    * The decoding loop on `cnt` entries from `pos` on, the buffer being rewritten as it goes. The names are what stat
    * is asked about. None: the decoder reads behind the buffer.
    */
  function NamesFrom(mode: Mode, first: bool, buf: bytes, pos: nat, cnt: nat): (r: Option<seq<bytes>>)
    ensures r.Some? ==> |r.value| <= cnt
    decreases cnt
  {
    if cnt == 0 then Some([])
    else if pos >= |buf| || NUL !in buf[pos..] then None
    else match TurnAt(mode, first, buf, pos)
      case Stop => Some([])
      case RunOff => None
      case Take(path) =>
        match NamesFrom(mode, false, Overwrite(buf, pos, path), Next(buf, pos), cnt - 1)
        case None => None
        case Some(rest) => Some([CStr(path)] + rest)
  }

  lemma NoNames(mode: Mode, first: bool, buf: bytes, pos: nat)
    ensures NamesFrom(mode, first, buf, pos, 0) == Some([])
  {
  }

  /** One turn of the decoding loop. */
  lemma NamesStep(mode: Mode, first: bool, buf: bytes, pos: nat, cnt: nat)
    requires cnt > 0 && pos < |buf| && NUL in buf[pos..]
    ensures match TurnAt(mode, first, buf, pos)
            case Stop => NamesFrom(mode, first, buf, pos, cnt) == Some([])
            case RunOff => NamesFrom(mode, first, buf, pos, cnt) == None
            case Take(path) =>
              match NamesFrom(mode, false, Overwrite(buf, pos, path), Next(buf, pos), cnt - 1)
              case None => NamesFrom(mode, first, buf, pos, cnt) == None
              case Some(rest) => NamesFrom(mode, first, buf, pos, cnt) == Some([CStr(path)] + rest)
  {
    hide TurnAt, Overwrite, Next;
  }

  // ---------------------------------------------------------------- the loop stays inside the buffer

  function Nuls(s: bytes): nat {
    if s == [] then 0 else (if s[0] == NUL then 1 else 0) + Nuls(s[1..])
  }

  lemma {:induction false} NulsConcat(a: bytes, b: bytes)
    ensures Nuls(a + b) == Nuls(a) + Nuls(b)
  {
    if a == [] {
      assert a + b == b;
    } else {
      assert (a + b)[1..] == a[1..] + b;
      NulsConcat(a[1..], b);
    }
  }

  lemma {:induction false} NoNuls(s: bytes)
    requires NUL !in s
    ensures Nuls(s) == 0
  {
    if s != [] { NoNuls(s[1..]); }
  }

  lemma {:induction false} NulsAreThere(s: bytes)
    requires Nuls(s) > 0
    ensures NUL in s
  {
    if s[0] != NUL { NulsAreThere(s[1..]); }
  }

  lemma NulsOfTail(s: bytes, i: nat, k: nat)
    requires i <= k <= |s|
    ensures Nuls(s[k..]) <= Nuls(s[i..])
    ensures NUL !in s[i..k] ==> Nuls(s[k..]) == Nuls(s[i..])
  {
    hide Nuls;
    assert s[i..] == s[i..k] + s[k..];
    NulsConcat(s[i..k], s[k..]);
    if NUL !in s[i..k] { NoNuls(s[i..k]); }
  }

  /** A terminator counts for one. */
  lemma NulsAfterString(s: bytes, i: nat, u: bytes)
    requires StringAt(s, i, u)
    ensures Nuls(s[i..]) == Nuls(s[i + |u|..]) == 1 + Nuls(s[i + |u| + 1..])
  {
    NulsOfTail(s, i, i + |u|);
    assert s[i + |u|..][1..] == s[i + |u| + 1..];
  }

  /** The buffer ends with the bare prefix. */
  predicate EndsBare(buf: bytes) {
    |buf| >= 8 && buf[|buf| - 8..] == PREFIX + [NUL]
  }

  predicate EndsWithNul(buf: bytes) { buf != [] && buf[|buf| - 1] == NUL }

  /** The last byte that a turn needs unchanged: the terminator of the text that it decodes. */
  function ReadUpTo(buf: bytes, pos: nat): nat
    requires pos < |buf| && NUL in buf[pos..]
  {
    var u := CStr(buf[pos..]);
    if u == PREFIX && pos + 8 < |buf| then pos + 8 + |CStr(buf[pos + 8..])| else pos + |u|
  }

  /** What is written ends at least seven bytes before that terminator. */
  lemma WritesStayBehind(mode: Mode, first: bool, buf: bytes, pos: nat)
    requires pos < |buf| && EndsWithNul(buf) && NUL in buf[pos..] && TurnAt(mode, first, buf, pos).Take?
    ensures pos + |TurnAt(mode, first, buf, pos).path| + 7 <= ReadUpTo(buf, pos) < |buf|
  {
    hide CStr, TurnAt;
    TakenIsDecoded(mode, first, buf, pos);
    StringThere(buf, pos);
    if CStr(buf[pos..]) == PREFIX {
      BareHasNext(buf, pos);
    } else {
      DecodeAtWhole(buf, pos);
      DecodeIsShorter(CStr(buf[pos..]));
    }
  }

  lemma DecodeIsShorter(u: bytes)
    ensures Decode(u).Some? ==> |Decode(u).value| + 7 <= |u|
  {
  }

  lemma TakenIsDecoded(mode: Mode, first: bool, buf: bytes, pos: nat)
    requires pos < |buf| && NUL in buf[pos..]
    ensures TurnAt(mode, first, buf, pos).RunOff? <==> DecodeAt(buf, pos).Overrun?
    ensures TurnAt(mode, first, buf, pos).Take? ==>
              DecodeAt(buf, pos).Path? && |TurnAt(mode, first, buf, pos).path| == |DecodeAt(buf, pos).path|
  {
    hide DecodeAt;
  }

  /** The bare prefix is decoded from what stands behind it. */
  lemma BareHasNext(buf: bytes, pos: nat)
    requires pos < |buf| && EndsWithNul(buf) && NUL in buf[pos..] && CStr(buf[pos..]) == PREFIX
    ensures pos + 8 <= |buf| && (DecodeAt(buf, pos).Overrun? <==> pos + 8 == |buf|)
    ensures pos + 8 < |buf| ==> NUL in buf[pos + 8..] && StringAt(buf, pos + 8, CStr(buf[pos + 8..]))
    ensures pos + 8 < |buf| && DecodeAt(buf, pos).Path? ==> |DecodeAt(buf, pos).path| <= 1 + |CStr(buf[pos + 8..])|
    ensures pos + 8 == |buf| ==> EndsBare(buf) && buf[pos..] == PREFIX + [NUL]
  {
    hide CStr, DecodeAll, DecodeAt;
    StringThere(buf, pos);
    if pos + 8 == |buf| {
      BareAtEnd(buf, pos);
    } else {
      Url.NulIsAhead(buf, pos + 8);
      StringThere(buf, pos + 8);
      DecodeAtBare(buf, pos);
    }
  }

  /** After a turn there are terminators enough for the rest of the turns, at or behind the next position. */
  lemma NulsRemain(mode: Mode, first: bool, buf: bytes, pos: nat, cnt: nat)
    requires pos < |buf| && EndsWithNul(buf) && 0 < cnt <= Nuls(buf[pos..])
    ensures NUL in buf[pos..] && Next(buf, pos) <= |buf|
    ensures TurnAt(mode, first, buf, pos).Take? ==>
              var next := Overwrite(buf, pos, TurnAt(mode, first, buf, pos).path);
              EndsWithNul(next) && cnt - 1 <= Nuls(next[Next(buf, pos)..])
  {
    hide CStr, TurnAt, Overwrite, Nuls;
    NulsAreThere(buf[pos..]);
    StringThere(buf, pos);
    if TurnAt(mode, first, buf, pos).Take? {
      var path := TurnAt(mode, first, buf, pos).path;
      var next, end := Overwrite(buf, pos, path), ReadUpTo(buf, pos);
      WritesStayBehind(mode, first, buf, pos);
      OverwriteKeeps(buf, pos, path, end);
      assert next[end..][|buf| - 1 - end] == buf[end..][|buf| - 1 - end];
      EnoughBehind(buf, pos);
      NulsOfTail(next, Next(buf, pos), if Next(buf, pos) <= end then end else Next(buf, pos));
      if end < Next(buf, pos) { OverwriteKeeps(buf, pos, path, Next(buf, pos)); }
    }
  }

  /** Counted from where nothing was written, one terminator may be missing, that of the entry itself. */
  lemma EnoughBehind(buf: bytes, pos: nat)
    requires pos < |buf| && EndsWithNul(buf) && NUL in buf[pos..]
    ensures ReadUpTo(buf, pos) < |buf| && Next(buf, pos) <= |buf|
    ensures var k := if Next(buf, pos) <= ReadUpTo(buf, pos) then ReadUpTo(buf, pos) else Next(buf, pos);
            Nuls(buf[pos..]) <= 1 + Nuls(buf[k..])
  {
    hide CStr, Nuls;
    var u := CStr(buf[pos..]);
    StringThere(buf, pos);
    NulsAfterString(buf, pos, u);
    if u == PREFIX && pos + 8 < |buf| {
      BareHasNext(buf, pos);
      NulsAfterString(buf, pos + 8, CStr(buf[pos + 8..]));
    }
  }

  /** A turn cannot put the bare prefix at the end of the buffer. */
  lemma EndStaysClean(mode: Mode, first: bool, buf: bytes, pos: nat)
    requires pos < |buf| && EndsWithNul(buf) && NUL in buf[pos..]
    requires TurnAt(mode, first, buf, pos).Take? && !EndsBare(buf)
    ensures !EndsBare(Overwrite(buf, pos, TurnAt(mode, first, buf, pos).path))
  {
    hide TurnAt, CStr;
    var path := TurnAt(mode, first, buf, pos).path;
    var next := Overwrite(buf, pos, path);
    WritesStayBehind(mode, first, buf, pos);
    if |buf| >= 8 {
      var k := |buf| - 8;
      if pos + |path| < k {
        OverwriteKeeps(buf, pos, path, k);
      } else {
        assert next[k..][0] == NUL;
      }
    }
  }

  /**
    * However long the entries are and wherever the steps of 2049 bytes lead, with as many terminators as entries every
    * read stays inside the buffer, unless the buffer ends with the bare prefix.
    */
  lemma {:induction false} WalkStaysInside(mode: Mode, first: bool, buf: bytes, pos: nat, cnt: nat)
    requires pos <= |buf| && EndsWithNul(buf) && cnt <= Nuls(buf[pos..]) && !EndsBare(buf)
    ensures NamesFrom(mode, first, buf, pos, cnt).Some?
    decreases cnt
  {
    hide TurnAt, CStr, Overwrite, Next, NamesFrom, EndsBare;
    if cnt == 0 {
      NoNames(mode, first, buf, pos);
    } else {
      assert pos < |buf| by { assert Nuls([]) == 0; }
      NulsRemain(mode, first, buf, pos, cnt);
      NamesStep(mode, first, buf, pos, cnt);
      TakenIsDecoded(mode, first, buf, pos);
      NoOverrun(buf, pos);
      if TurnAt(mode, first, buf, pos).Take? {
        EndStaysClean(mode, first, buf, pos);
        WalkStaysInside(mode, false, Overwrite(buf, pos, TurnAt(mode, first, buf, pos).path), Next(buf, pos), cnt - 1);
      }
    }
  }

  lemma NoOverrun(buf: bytes, pos: nat)
    requires pos < |buf| && EndsWithNul(buf) && NUL in buf[pos..]
    ensures DecodeAt(buf, pos).Overrun? <==> buf[pos..] == PREFIX + [NUL]
    ensures DecodeAt(buf, pos).Overrun? ==> EndsBare(buf)
  {
    hide CStr, DecodeAt, Decode;
    BareString(buf[pos..]);
    if CStr(buf[pos..]) == PREFIX {
      BareHasNext(buf, pos);
    } else {
      DecodeAtWhole(buf, pos);
    }
  }

  lemma BareString(s: bytes)
    ensures s == PREFIX + [NUL] ==> CStr(s) == PREFIX
  {
    if s == PREFIX + [NUL] { CStrOfPrefix(PREFIX, s); }
  }

  /** The loop comes to the last eight bytes of the buffer and finds the bare prefix there. */
  predicate MeetsBareEnd(mode: Mode, first: bool, buf: bytes, pos: nat, cnt: nat)
    decreases cnt
  {
    cnt > 0 && pos < |buf| && NUL in buf[pos..]
    && (buf[pos..] == PREFIX + [NUL]
        || (TurnAt(mode, first, buf, pos).Take?
            && MeetsBareEnd(mode, false, Overwrite(buf, pos, TurnAt(mode, first, buf, pos).path),
                            Next(buf, pos), cnt - 1)))
  }

  /** The exact condition: that, and nothing else, makes the loop read behind the buffer. */
  lemma {:induction false} OverrunIff(mode: Mode, first: bool, buf: bytes, pos: nat, cnt: nat)
    requires pos <= |buf| && EndsWithNul(buf) && cnt <= Nuls(buf[pos..])
    ensures NamesFrom(mode, first, buf, pos, cnt).None? <==> MeetsBareEnd(mode, first, buf, pos, cnt)
    decreases cnt
  {
    hide TurnAt, CStr, Overwrite, Next, NamesFrom, EndsBare;
    if cnt == 0 {
      NoNames(mode, first, buf, pos);
    } else {
      assert pos < |buf| by { assert Nuls([]) == 0; }
      NulsRemain(mode, first, buf, pos, cnt);
      NamesStep(mode, first, buf, pos, cnt);
      TakenIsDecoded(mode, first, buf, pos);
      NoOverrun(buf, pos);
      if TurnAt(mode, first, buf, pos).Take? {
        OverrunIff(mode, false, Overwrite(buf, pos, TurnAt(mode, first, buf, pos).path), Next(buf, pos), cnt - 1);
      }
    }
  }

  // ---------------------------------------------------------------- the text

  /** Newlines become terminators. */
  function Cut(s: bytes): (r: bytes)
    ensures |r| == |s|
    ensures forall i :: 0 <= i < |s| ==> r[i] == if s[i] == LF then NUL else s[i]
  {
    seq(|s|, i requires 0 <= i < |s| => if s[i] == LF then NUL else s[i])
  }

  /** The position of the first newline, or the length of the text. */
  function FirstLine(text: bytes): (n: nat)
    ensures n <= |text| && LF !in text[..n] && (n < |text| ==> text[n] == LF)
  {
    if text == [] || text[0] == LF then 0 else 1 + FirstLine(text[1..])
  }

  /** The text announces a file list. */
  predicate HasHeader(text: bytes) {
    FirstLine(text) < |text| && text[..FirstLine(text)] in {CUT, COPY}
  }

  /** The text announces a file list exactly if it begins with "cut" or "copy" and a newline. */
  lemma HeaderIff(text: bytes)
    ensures HasHeader(text) <==> [99, 117, 116, 10] <= text || [99, 111, 112, 121, 10] <= text
  {
    var n := FirstLine(text);
    if HasHeader(text) {
      assert text[..n + 1] == text[..n] + [LF];
    } else if [99, 117, 116, 10] <= text {
      assert text[..3] == CUT;
      FirstLineIs(text, 3);
    } else if [99, 111, 112, 121, 10] <= text {
      assert text[..4] == COPY;
      FirstLineIs(text, 4);
    }
  }

  lemma FirstLineIs(text: bytes, n: nat)
    requires n < |text| && text[n] == LF && LF !in text[..n]
    ensures FirstLine(text) == n
  {
    var k := FirstLine(text);
    assert forall j :: 0 <= j < n ==> text[j] in text[..n];
    assert forall j :: 0 <= j < k ==> text[j] in text[..k];
  }

  function Body(text: bytes): bytes
    requires HasHeader(text)
  {
    text[FirstLine(text) + 1..]
  }

  /** What the selection holds up to its first NUL, in a buffer that ends with the terminator that was added. */
  function TextOf(buf: bytes): bytes { CStr(buf) }

  /** The buffer once every newline of the text is a terminator; what follows the text is not touched. */
  function Prepared(buf: bytes): (r: bytes)
    requires HasHeader(TextOf(buf))
    ensures |r| == |buf|
  {
    buf[..FirstLine(TextOf(buf))] + [NUL] + Cut(Body(TextOf(buf))) + buf[|TextOf(buf)|..]
  }

  /** Where the list begins. */
  function Start(buf: bytes): nat { FirstLine(TextOf(buf)) + 1 }

  /** How many entries are counted. */
  function EntryCount(buf: bytes): nat
    requires HasHeader(TextOf(buf))
  {
    |Split(LF, Body(TextOf(buf)))|
  }

  /** The names that the reader finds in the buffer; None if it reads behind it. */
  function NamesIn(mode: Mode, buf: bytes): Option<seq<bytes>>
    requires HasHeader(TextOf(buf))
  {
    NamesFrom(mode, true, Prepared(buf), Start(buf), EntryCount(buf))
  }

  /** The names that stat reports as regular files. */
  function Regular(names: seq<bytes>, regular: set<bytes>): (r: seq<bytes>)
    ensures |r| <= |names|
    ensures |r| == |names| ==> r == names
    ensures (forall n :: n in names ==> n in regular) ==> r == names
    ensures forall n :: n in r <==> n in names && n in regular
  {
    if names == [] then []
    else
      var init, last := Regular(names[..|names| - 1], regular), names[|names| - 1];
      assert names == names[..|names| - 1] + [last];
      if last in regular then init + [last] else init
  }

  /** The list of get_copied_files. */
  function CopiedFiles(buf: bytes, regular: set<bytes>): Option<seq<bytes>>
    requires HasHeader(TextOf(buf))
  {
    match NamesIn(FilesOnly, buf)
    case None => None
    case Some(names) => Some(Regular(names, regular))
  }

  lemma {:induction false} NulsOfCut(s: bytes)
    ensures |Split(LF, s)| <= 1 + Nuls(Cut(s))
  {
    if s != [] {
      NulsOfCut(s[1..]);
      assert Cut(s)[1..] == Cut(s[1..]);
    }
  }

  /** There is a terminator for every entry. */
  lemma EntriesAreTerminated(buf: bytes)
    requires EndsWithNul(buf) && HasHeader(TextOf(buf))
    ensures Start(buf) <= |Prepared(buf)| && EndsWithNul(Prepared(buf))
    ensures EntryCount(buf) <= Nuls(Prepared(buf)[Start(buf)..])
  {
    hide Nuls, Split, Cut, FirstLine;
    var text := TextOf(buf);
    assert |text| < |buf| && buf[|text|] == NUL by { assert NUL in buf; }
    var rest := buf[|text|..];
    assert Prepared(buf)[Start(buf)..] == Cut(Body(text)) + rest;
    NulsOfCut(Body(text));
    NulsConcat(Cut(Body(text)), rest);
    assert rest[|rest| - 1] == NUL;
    assert Nuls(rest) > 0 by { SomeNul(rest); }
  }

  lemma SomeNul(s: bytes)
    requires s != [] && s[0] == NUL
    ensures Nuls(s) > 0
  {
  }

  /**
    * So for every text, whatever a client of the X server put there, the reader stays inside the buffer if the text
    * does not end with the bare prefix.
    */
  lemma ReaderStaysInside(mode: Mode, buf: bytes)
    requires EndsWithNul(buf) && HasHeader(TextOf(buf))
    ensures !EndsBare(buf) ==> NamesIn(mode, buf).Some?
    ensures NamesIn(mode, buf).None? <==> MeetsBareEnd(mode, true, Prepared(buf), Start(buf), EntryCount(buf))
  {
    hide NamesFrom, Prepared, EndsBare, EntryCount, Start, MeetsBareEnd, Nuls;
    EntriesAreTerminated(buf);
    OverrunIff(mode, true, Prepared(buf), Start(buf), EntryCount(buf));
    if !EndsBare(buf) {
      PreparedEndsClean(buf);
      WalkStaysInside(mode, true, Prepared(buf), Start(buf), EntryCount(buf));
    }
  }

  lemma PreparedEndsClean(buf: bytes)
    requires EndsWithNul(buf) && HasHeader(TextOf(buf)) && !EndsBare(buf)
    ensures !EndsBare(Prepared(buf))
  {
    hide FirstLine, CStr, EndsBare, Prepared;
    PreparedBytes(buf);
    OnlyNulsAdded(buf, Prepared(buf));
  }

  lemma PreparedBytes(buf: bytes)
    requires HasHeader(TextOf(buf))
    ensures forall k :: 0 <= k < |buf| ==> Prepared(buf)[k] == buf[k] || Prepared(buf)[k] == NUL
  {
    hide FirstLine, CStr;
    var text, next := TextOf(buf), Prepared(buf);
    forall k | 0 <= k < |buf| ensures next[k] == buf[k] || next[k] == NUL {
      if Start(buf) <= k < |text| { assert Body(text)[k - Start(buf)] == text[k] == buf[k]; }
    }
  }

  lemma OnlyNulsAdded(a: bytes, b: bytes)
    requires |a| == |b| && !EndsBare(a) && forall k :: 0 <= k < |a| ==> b[k] == a[k] || b[k] == NUL
    requires EndsWithNul(a)
    ensures !EndsBare(b)
  {
    if |a| >= 8 {
      var n := |a| - 8;
      var k :| 0 <= k < 8 && a[n..][k] != (PREFIX + [NUL])[k];
      assert b[n..][k] == b[n + k] && a[n..][k] == a[n + k];
      assert b[n..][k] != (PREFIX + [NUL])[k];
    }
  }

  // ---------------------------------------------------------------- the code

  /** get_copied_files after the selection was read into `buf`, which ends with the terminator that was added. */
  method GetCopiedFiles(buf: array<byte>, regular: set<bytes>) returns (found: bool, overrun: bool, lst: seq<bytes>)
    requires buf.Length > 0 && buf[buf.Length - 1] == NUL
    modifies buf
    ensures found || overrun <==> HasHeader(TextOf(old(buf[..])))
    ensures found ==> CopiedFiles(old(buf[..]), regular) == Some(lst)
    ensures overrun ==> !found && CopiedFiles(old(buf[..]), regular) == None && EndsBare(old(buf[..]))
  {
    hide NamesFrom, Prepared, EntryCount, Start, EndsBare, HasHeader, Regular;
    var names;
    found, overrun, names := CopiedNames(FilesOnly, buf);
    lst := [];
    if !found { return; }
    for i := 0 to |names|
      invariant lst == Regular(names[..i], regular)
    {
      assert names[..i + 1][..i] == names[..i];
      RegularStep(names[..i + 1], regular);
      if names[i] in regular { lst := lst + [names[i]]; }
    }
    assert names[..|names|] == names;
  }

  lemma RegularStep(names: seq<bytes>, regular: set<bytes>)
    requires names != []
    ensures var init, last := Regular(names[..|names| - 1], regular), names[|names| - 1];
            Regular(names, regular) == if last in regular then init + [last] else init
  {
  }

  /** The names in the order of the list, before stat is asked. */
  method CopiedNames(mode: Mode, buf: array<byte>) returns (found: bool, overrun: bool, names: seq<bytes>)
    requires buf.Length > 0 && buf[buf.Length - 1] == NUL
    modifies buf
    ensures found || overrun <==> HasHeader(TextOf(old(buf[..])))
    ensures found ==> NamesIn(mode, old(buf[..])) == Some(names)
    ensures overrun ==> !found && NamesIn(mode, old(buf[..])) == None && EndsBare(old(buf[..]))
  {
    hide NamesFrom, Split, Start, HasHeader, TextOf, EndsBare, Nuls, Prepared, EntryCount, MeetsBareEnd;
    ghost var before := buf[..];
    overrun, names := false, [];
    var at, fileCnt;
    found, at, fileCnt := PrepareList(buf);
    if !found { return; }
    EntriesAreTerminated(before);
    ReaderStaysInside(mode, before);
    assert buf[at..] == Prepared(before)[Start(before)..];
    overrun, names := DecodeEntries(mode, buf, at, fileCnt);
    found := !overrun;
  }

  /** get_copied_files_as_str on what was read, and the loop that counts the entries: the list begins at `at`. */
  method PrepareList(buf: array<byte>) returns (found: bool, at: nat, fileCnt: nat)
    requires buf.Length > 0 && buf[buf.Length - 1] == NUL
    modifies buf
    ensures found <==> HasHeader(TextOf(old(buf[..])))
    ensures found ==> buf[..] == Prepared(old(buf[..])) && at == Start(old(buf[..])) <= buf.Length
    ensures found ==> fileCnt == EntryCount(old(buf[..]))
  {
    hide Split, Cut, FirstLine, CStr, StringAt, Prepared;
    ghost var before, text := buf[..], TextOf(buf[..]);
    found, at, fileCnt := false, 0, 0;
    TextThere(before);
    var line := FirstLineAt(buf, text);
    if buf[line] == NUL { return; }
    LineOf(before, text, line);
    buf[line] := NUL;
    assert buf[..line] == before[..line] && buf[line + 1..] == before[line + 1..];
    if buf[..line] != CUT && buf[..line] != COPY { return; }
    found, at := true, line + 1;
    StringInRest(before, buf[..], at, text[at..]);
    assert buf[..at] == before[..line] + [NUL];
    fileCnt := SplitInPlace(buf, at, text[at..]);
    PreparedParts(before, buf[..], at);
  }

  lemma StringInRest(before: bytes, after: bytes, at: nat, u: bytes)
    requires at <= |before| == |after| && StringAt(before, at, u) && after[at..] == before[at..]
    ensures StringAt(after, at, u) && after[at + |u|..] == before[at + |u|..]
  {
    assert after[at..][..|u|] == before[at..][..|u|] && after[at..][|u|] == before[at..][|u|];
    assert after[at..][|u|..] == before[at..][|u|..];
  }

  lemma LineOf(buf: bytes, text: bytes, line: nat)
    requires StringAt(buf, 0, text) && line < |text|
    ensures buf[..line] == text[..line] && StringAt(buf, line + 1, text[line + 1..])
  {
    assert buf[0..|text|] == text;
    assert buf[line + 1..|text|] == text[line + 1..];
    assert buf[..line] == buf[0..|text|][..line];
  }

  lemma PreparedParts(before: bytes, after: bytes, at: nat)
    requires HasHeader(TextOf(before)) && at == Start(before) && |after| == |before|
    requires after[..at] == before[..at - 1] + [NUL]
    requires after[at..] == Cut(Body(TextOf(before))) + before[|TextOf(before)|..]
    ensures after == Prepared(before)
  {
    hide CStr, FirstLine, Cut;
    assert after == after[..at] + after[at..];
  }

  lemma TextThere(buf: bytes)
    requires EndsWithNul(buf)
    ensures StringAt(buf, 0, TextOf(buf))
  {
    assert NUL in buf;
    assert buf[0..] == buf;
    StringThere(buf, 0);
  }

  /** The loop that finds the end of the first line. */
  method FirstLineAt(buf: array<byte>, ghost text: bytes) returns (line: nat)
    requires StringAt(buf[..], 0, text)
    ensures line == FirstLine(text) < buf.Length && (line == |text| <==> buf[line] == NUL)
  {
    hide FirstLine;
    assert forall k :: 0 <= k < |text| ==> buf[k] == buf[0..|text|][k] == text[k] && text[k] in text;
    line := 0;
    while buf[line] != NUL && buf[line] != LF
      invariant 0 <= line <= FirstLine(text)
      invariant forall k :: 0 <= k < line ==> text[k] != LF
      decreases |text| - line
    {
      line := line + 1;
    }
  }

  /** The loop that counts the entries and ends each with a terminator. */
  method SplitInPlace(buf: array<byte>, at: nat, ghost body: bytes) returns (fileCnt: nat)
    requires StringAt(buf[..], at, body)
    modifies buf
    ensures buf[at..] == Cut(body) + old(buf[at + |body|..]) && buf[..at] == old(buf[..at])
    ensures fileCnt == |Split(LF, body)|
  {
    hide Split, Cut, StringAt;
    ghost var before := buf[..];
    StringBytes(before, at, body);
    OnePart();
    fileCnt := 1;
    var ptr := at;
    assert body[..0] == [];
    while buf[ptr] != NUL
      invariant at <= ptr <= at + |body| < buf.Length
      invariant forall k :: at <= k < ptr ==> buf[k] == Cut(body)[k - at]
      invariant forall k :: 0 <= k < at || ptr <= k < buf.Length ==> buf[k] == before[k]
      invariant fileCnt == |Split(LF, body[..ptr - at])|
      decreases at + |body| - ptr
    {
      var i := ptr - at;
      assert body[..i + 1] == body[..i] + [body[i]];
      SplitSnoc(LF, body[..i], body[i]);
      if buf[ptr] == LF {
        fileCnt := fileCnt + 1;
        buf[ptr] := NUL;
      }
      ptr := ptr + 1;
    }
    assert body[..ptr - at] == body;
    CutIsDone(before, buf[..], at, body);
    assert buf[at..] == buf[..][at..] && buf[..at] == buf[..][..at];
  }

  lemma OnePart()
    ensures |Split(LF, [])| == 1
  {
  }

  lemma CutIsDone(before: bytes, after: bytes, at: nat, body: bytes)
    requires at + |body| <= |before| == |after|
    requires forall k :: at <= k < at + |body| ==> after[k] == Cut(body)[k - at]
    requires forall k :: 0 <= k < at || at + |body| <= k < |after| ==> after[k] == before[k]
    ensures after[at..] == Cut(body) + before[at + |body|..] && after[..at] == before[..at]
  {
    hide Cut;
  }

  lemma StringBytes(buf: bytes, at: nat, u: bytes)
    requires StringAt(buf, at, u)
    ensures at + |u| < |buf| && buf[at..at + |u|] == u && buf[at + |u|] == NUL
    ensures forall k :: at <= k < at + |u| ==> buf[k] == u[k - at] != NUL
  {
    forall k | at <= k < at + |u| ensures buf[k] == u[k - at] != NUL {
      assert buf[at..at + |u|][k - at] == buf[k] && u[k - at] in u;
    }
  }

  lemma {:induction false} SplitSnoc(sep: byte, s: bytes, c: byte)
    ensures |Split(sep, s + [c])| == |Split(sep, s)| + (if c == sep then 1 else 0)
  {
    if s == [] {
      assert Split(sep, [c][1..]) == [[]];
    } else {
      SplitSnoc(sep, s[1..], c);
      assert (s + [c])[1..] == s[1..] + [c];
    }
  }

  /** The decoding loop. No read leaves the buffer; where one would, the loop ends. */
  method DecodeEntries(mode: Mode, buf: array<byte>, at: nat, fileCnt: nat) returns (overrun: bool, names: seq<bytes>)
    requires at <= buf.Length && EndsWithNul(buf[..]) && fileCnt <= Nuls(buf[at..])
    modifies buf
    ensures overrun ==> NamesFrom(mode, true, old(buf[..]), at, fileCnt) == None
    ensures !overrun ==> NamesFrom(mode, true, old(buf[..]), at, fileCnt) == Some(names)
  {
    hide CStr, Overwrite, NamesFrom, TurnAt, Nuls;
    names, overrun := [], false;
    var fname: nat := at;
    ghost var before := buf[..];
    assert buf[at..] == buf[..][at..];
    StartOfLoop(NamesFrom(mode, true, before, at, fileCnt));
    for i := 0 to fileCnt
      invariant fname <= buf.Length && EndsWithNul(buf[..]) && fileCnt - i <= Nuls(buf[..][fname..])
      invariant NamesFrom(mode, true, before, at, fileCnt)
                == Put(names, NamesFrom(mode, i == 0, buf[..], fname, fileCnt - i))
    {
      ghost var view := buf[..];
      SomethingLeft(view, fname, fileCnt - i);
      NulsRemain(mode, i == 0, view, fname, fileCnt - i);
      NamesStep(mode, i == 0, view, fname, fileCnt - i);
      var more, off, name, next := DecodeEntry(mode, i == 0, buf, fname);
      if off { return true, names; }
      if !more {
        PutNothing(names);
        return;
      }
      PutOne(names, name, NamesFrom(mode, false, buf[..], next, fileCnt - i - 1));
      names, fname := names + [name], next;
    }
    NoNames(mode, fileCnt == 0, buf[..], fname);
    PutNothing(names);
  }

  lemma SomethingLeft(buf: bytes, pos: nat, cnt: nat)
    requires pos <= |buf| && 0 < cnt <= Nuls(buf[pos..])
    ensures pos < |buf|
  {
  }

  /** The names so far and what the rest of the loop will add. */
  function Put(names: seq<bytes>, rest: Option<seq<bytes>>): Option<seq<bytes>> {
    match rest
    case None => None
    case Some(more) => Some(names + more)
  }

  lemma StartOfLoop(r: Option<seq<bytes>>)
    ensures Put([], r) == r
  {
    if r.Some? { assert [] + r.value == r.value; }
  }

  lemma PutNothing(names: seq<bytes>)
    ensures Put(names, Some([])) == Some(names)
  {
    assert names + [] == names;
  }

  lemma PutOne(names: seq<bytes>, name: bytes, rest: Option<seq<bytes>>)
    ensures Put(names + [name], rest)
            == Put(names, match rest { case None => None case Some(more) => Some([name] + more) })
  {
    if rest.Some? { assert (names + [name]) + rest.value == names + ([name] + rest.value); }
  }

  /** The body of the decoding loop up to stat: decode in place, and step over the entry as it was. */
  method DecodeEntry(mode: Mode, first: bool, buf: array<byte>, fname: nat)
    returns (more: bool, off: bool, name: bytes, next: nat)
    requires fname < buf.Length && EndsWithNul(buf[..])
    modifies buf
    ensures NUL in old(buf[..])[fname..]
    ensures off <==> TurnAt(mode, first, old(buf[..]), fname).RunOff?
    ensures more <==> TurnAt(mode, first, old(buf[..]), fname).Take?
    ensures more ==> buf[..] == Overwrite(old(buf[..]), fname, TurnAt(mode, first, old(buf[..]), fname).path)
    ensures more ==> name == CStr(TurnAt(mode, first, old(buf[..]), fname).path)
    ensures next == Next(old(buf[..]), fname)
  {
    hide CStr, Overwrite, StringAt, DecodeAt;
    ghost var before := buf[..];
    assert buf[fname..] == before[fname..];
    Url.NulIsAhead(before, fname);
    StringThere(before, fname);
    name := [];
    var length := Length(buf, fname, CStr(before[fname..]));
    next := fname + (if length <= MAX_FILE_NAME_LEN then length else MAX_FILE_NAME_LEN) + 1;
    more, off, name := DecodeName(mode, first, buf, fname);
  }

  /** url_decode, the tests of get_copied_dirs_files, and the name that is left in place of the entry. */
  method DecodeName(mode: Mode, first: bool, buf: array<byte>, fname: nat) returns (more: bool, off: bool, name: bytes)
    requires fname < buf.Length && EndsWithNul(buf[..]) && NUL in buf[..][fname..]
    modifies buf
    ensures off <==> TurnAt(mode, first, old(buf[..]), fname).RunOff?
    ensures more <==> TurnAt(mode, first, old(buf[..]), fname).Take?
    ensures more ==> buf[..] == Overwrite(old(buf[..]), fname, TurnAt(mode, first, old(buf[..]), fname).path)
    ensures more ==> name == CStr(TurnAt(mode, first, old(buf[..]), fname).path)
  {
    hide CStr, Overwrite, DecodeAt, Judge;
    ghost var before := buf[..];
    assert buf[fname..] == before[fname..];
    var len;
    more, off, len := UrlDecode(buf, fname);
    name := [];
    if !more { return; }
    more, name := KeepName(mode, first, buf, fname, len, before, DecodeAt(before, fname).path);
  }

  /** The tests of get_copied_dirs_files on a decoded name. */
  method KeepName(mode: Mode, first: bool, buf: array<byte>, fname: nat, len: nat, ghost before: bytes,
                  ghost decoded: bytes)
    returns (more: bool, name: bytes)
    requires len == |decoded| && fname + len < |before| && buf[..] == Overwrite(before, fname, decoded)
    modifies buf
    ensures more <==> Judge(mode, first, decoded).Take?
    ensures more ==> buf[..] == Overwrite(before, fname, Judge(mode, first, decoded).path)
    ensures more ==> name == CStr(Judge(mode, first, decoded).path)
  {
    hide CStr, Overwrite;
    name := [];
    ghost var path := decoded;
    OverwrittenText(before, fname, path);
    if mode == DirsToo {
      if len == 0 || len > MAX_FILE_NAME_LEN { return false, name; }
      if first && buf[fname + len - 1] == SLASH {
        buf[fname + len - 1] := NUL;
        CutLast(before, fname, path);
        path := path[..len - 1] + [NUL];
        OverwrittenText(before, fname, path);
      }
    }
    more := true;
    name := NameAt(buf, fname, path);
  }

  lemma OverwrittenText(buf: bytes, pos: nat, s: bytes)
    requires pos + |s| < |buf|
    ensures Overwrite(buf, pos, s)[pos..pos + |s|] == s && Overwrite(buf, pos, s)[pos + |s|] == NUL
  {
  }

  lemma CutLast(buf: bytes, pos: nat, s: bytes)
    requires s != [] && pos + |s| < |buf|
    ensures Overwrite(buf, pos, s)[pos + |s| - 1 := NUL] == Overwrite(buf, pos, s[..|s| - 1] + [NUL])
  {
  }

  /** strnlen, which the caller caps at 2048. */
  method Length(buf: array<byte>, at: nat, ghost u: bytes) returns (n: nat)
    requires StringAt(buf[..], at, u)
    ensures n == |u|
  {
    StringBytes(buf[..], at, u);
    n := 0;
    while buf[at + n] != NUL
      invariant n <= |u|
      decreases |u| - n
    {
      n := n + 1;
    }
  }

  /** The decoded name as stat and strdup see it: up to its first NUL. */
  method NameAt(buf: array<byte>, at: nat, ghost path: bytes) returns (name: bytes)
    requires at + |path| < buf.Length && buf[at..at + |path|] == path && buf[at + |path|] == NUL
    ensures name == CStr(path)
  {
    hide CStr;
    ghost var s := CStr(path);
    assert forall k :: 0 <= k < |path| ==> buf[at + k] == path[k];
    assert forall k :: 0 <= k < |s| ==> s[k] == path[k] && s[k] in s;
    assert buf[at + |s|] == NUL;
    var n := 0;
    while buf[at + n] != NUL
      invariant n <= |s|
      decreases |s| - n
    {
      n := n + 1;
    }
    name := buf[at..at + n];
  }
}
