/** What set_clipboard_cut_files writes and what the readers make of it, put together. */
module CutRoundTrip {
  import opened Bytes
  import opened Common
  import opened CutFiles
  import opened CutReader
  import opened Url

  // ---------------------------------------------------------------- entries in a buffer

  function Terminated(entries: seq<bytes>): bytes {
    if entries == [] then [] else entries[0] + [NUL] + Terminated(entries[1..])
  }

  lemma {:induction false} CutIsTerminated(s: bytes)
    ensures Cut(s) + [NUL] == Terminated(Split(LF, s))
  {
    if s == [] {
      TerminatedAlone([]);
      assert Split(LF, s) == [[]];
    } else {
      var r := Split(LF, s[1..]);
      CutIsTerminated(s[1..]);
      CutPush(s);
      assert Split(LF, s) == if s[0] == LF then [[]] + r else [[s[0]] + r[0]] + r[1..];
      hide Split, Terminated, Cut;
      TerminatedPush(s[0], r);
      TerminatedEnd(r);
    }
  }

  lemma CutPush(s: bytes)
    requires s != []
    ensures Cut(s) + [NUL] == [if s[0] == LF then NUL else s[0]] + (Cut(s[1..]) + [NUL])
  {
    assert Cut(s) == [if s[0] == LF then NUL else s[0]] + Cut(s[1..]);
  }

  lemma TerminatedCons(first: bytes, rest: seq<bytes>)
    ensures Terminated([first] + rest) == first + [NUL] + Terminated(rest)
  {
    assert ([first] + rest)[1..] == rest;
  }

  lemma TerminatedAlone(first: bytes)
    ensures Terminated([first]) == first + [NUL]
  {
    assert [first] + [] == [first];
    TerminatedCons(first, []);
  }

  /** A separator in front is one more empty entry. */
  lemma TerminatedEnd(r: seq<bytes>)
    ensures Terminated([[]] + r) == [NUL] + Terminated(r)
  {
    hide Terminated;
    var empty: bytes := [];
    TerminatedCons(empty, r);
    assert empty + [NUL] == [NUL];
  }

  /** Another character in front makes the first entry longer. */
  lemma TerminatedPush(c: byte, r: seq<bytes>)
    requires r != []
    ensures Terminated([[c] + r[0]] + r[1..]) == [c] + Terminated(r)
  {
    hide Terminated;
    var rest := Terminated(r[1..]);
    TerminatedCons([c] + r[0], r[1..]);
    TerminatedCons(r[0], r[1..]);
    assert [r[0]] + r[1..] == r;
    Regroup(c, r[0] + [NUL], rest);
    assert ([c] + r[0]) + [NUL] == [c] + (r[0] + [NUL]);
  }

  lemma Regroup(c: byte, a: bytes, b: bytes)
    ensures ([c] + a) + b == [c] + (a + b)
  {
  }

  /** What the list means when every entry fits: decode each, up to the first that is not accepted. */
  function NamesOf(mode: Mode, first: bool, entries: seq<bytes>): seq<bytes>
    decreases |entries|
  {
    if entries == [] then []
    else match Decode(entries[0])
      case None => []
      case Some(d) =>
        match Judge(mode, first, d)
        case Take(path) => [CStr(path)] + NamesOf(mode, false, entries[1..])
        case _ => []
  }

  /** A string that the decoder decodes by itself. */
  predicate Whole(entry: bytes) { NUL !in entry && entry != PREFIX }

  /** Every entry but the last one must fit, because only then the reader steps to the next one. */
  predicate AllFit(entries: seq<bytes>) {
    forall i :: 0 <= i < |entries| ==> Whole(entries[i]) && (i < |entries| - 1 ==> |entries[i]| <= MAX_FILE_NAME_LEN)
  }

  lemma FirstEntry(buf: bytes, pos: nat, entries: seq<bytes>)
    requires pos <= |buf| && Terminated(entries) <= buf[pos..] && entries != [] && NUL !in entries[0]
    ensures pos < |buf| && NUL in buf[pos..] && CStr(buf[pos..]) == entries[0] && StringAt(buf, pos, entries[0])
    ensures pos + |entries[0]| + 1 <= |buf| && Terminated(entries[1..]) <= buf[pos + |entries[0]| + 1..]
  {
    assert Terminated(entries) == entries[0] + [NUL] + Terminated(entries[1..]);
    hide Terminated, CStr;
    StringThenRest(buf, pos, entries[0], Terminated(entries[1..]));
    CStrAt(entries[0], buf[pos..]);
  }

  lemma StringThenRest(buf: bytes, pos: nat, u: bytes, rest: bytes)
    requires pos <= |buf| && u + [NUL] + rest <= buf[pos..] && NUL !in u
    ensures StringAt(buf, pos, u) && buf[pos..][..|u|] == u && buf[pos..][|u|] == NUL
    ensures rest <= buf[pos + |u| + 1..]
  {
    var s, n := buf[pos..], |u|;
    assert s[n] == NUL && s[..n] == u;
    assert buf[pos..pos + n] == s[..n];
    assert s[n + 1..] == buf[pos + n + 1..];
    assert s[n + 1..][..|rest|] == rest;
  }

  /** The turn on an entry that is decoded by itself. */
  lemma WholeTurn(mode: Mode, first: bool, buf: bytes, pos: nat, u: bytes)
    requires pos < |buf| && NUL in buf[pos..] && CStr(buf[pos..]) == u && u != PREFIX
    ensures TurnAt(mode, first, buf, pos)
            == match Decode(u) { case None => Stop case Some(d) => Judge(mode, first, d) }
    ensures Next(buf, pos) == pos + Advance(u)
    ensures Decode(u).Some? ==> |Decode(u).value| + 7 <= |u|
  {
    hide CStr, Decode, DecodeAt, Judge;
    DecodeAtWhole(buf, pos);
    DecodeIsShorter(u);
  }

  /** Decoding an entry in place never disturbs the entries after it. */
  lemma {:induction false} EntriesAreIndependent(mode: Mode, first: bool, buf: bytes, pos: nat, entries: seq<bytes>)
    requires pos <= |buf| && Terminated(entries) <= buf[pos..] && AllFit(entries)
    ensures NamesFrom(mode, first, buf, pos, |entries|) == Some(NamesOf(mode, first, entries))
    decreases |entries|
  {
    hide Decode, CStr, Judge, Overwrite, Terminated, NamesFrom, TurnAt, Next, Advance;
    if entries == [] {
      NoNames(mode, first, buf, pos);
    } else {
      var u, rest := entries[0], entries[1..];
      FirstEntry(buf, pos, entries);
      WholeTurn(mode, first, buf, pos, u);
      NamesStep(mode, first, buf, pos, |entries|);
      if TurnAt(mode, first, buf, pos).Take? {
        var path := TurnAt(mode, first, buf, pos).path;
        var next := Overwrite(buf, pos, path);
        if rest == [] {
          NoNames(mode, false, next, Next(buf, pos));
        } else {
          StepsOver(u);
          OverwriteKeeps(buf, pos, path, pos + |u| + 1);
          EntriesAreIndependent(mode, false, next, pos + |u| + 1, rest);
        }
      }
    }
  }

  // ---------------------------------------------------------------- lists on which the reader runs off

  /** The reader takes the entry and goes on. */
  predicate Taken(mode: Mode, first: bool, entry: bytes) {
    match Decode(entry)
    case None => false
    case Some(d) => Judge(mode, first, d).Take?
  }

  /** No line before the last one is longer than the reader's steps, and none of them is the bare prefix. */
  predicate ShortLines(entries: seq<bytes>) {
    forall i :: 0 <= i < |entries| - 1 ==> |entries[i]| <= MAX_FILE_NAME_LEN && entries[i] != PREFIX
  }

  /** The last entry is the bare prefix, and all before it are taken. */
  predicate BareAfterTaken(mode: Mode, first: bool, entries: seq<bytes>) {
    && entries != [] && entries[|entries| - 1] == PREFIX
    && forall i :: 0 <= i < |entries| - 1 ==> Taken(mode, first && i == 0, entries[i])
  }

  lemma LastEntryRunsOffIff(mode: Mode, first: bool, buf: bytes, pos: nat, u: bytes)
    requires pos <= |buf| && buf[pos..] == u + [NUL] && NUL !in u
    ensures NamesFrom(mode, first, buf, pos, 1).None? <==> u == PREFIX
  {
    hide Decode, CStr, Judge, Overwrite, NamesFrom, DecodeAt, Next;
    assert buf[|buf| - 1] == buf[pos..][|u|] == NUL;
    assert NUL in buf[pos..] by { assert buf[pos..][|u|] == NUL; }
    CStrAt(u, buf[pos..]);
    NamesStep(mode, first, buf, pos, 1);
    if u == PREFIX {
      NoOverrun(buf, pos);
    } else {
      WholeTurn(mode, first, buf, pos, u);
      if TurnAt(mode, first, buf, pos).Take? {
        NoNames(mode, false, Overwrite(buf, pos, TurnAt(mode, first, buf, pos).path), Next(buf, pos));
      }
    }
  }

  /** What a caller can check: on short lines the reader runs off exactly if it takes all up to a bare last one. */
  lemma {:induction false} EntriesRunOffIff(mode: Mode, first: bool, buf: bytes, pos: nat, entries: seq<bytes>)
    requires pos <= |buf| && Terminated(entries) == buf[pos..] && entries != [] && ShortLines(entries)
    requires forall e :: e in entries ==> NUL !in e
    ensures NamesFrom(mode, first, buf, pos, |entries|).None? <==> BareAfterTaken(mode, first, entries)
    decreases |entries|
  {
    hide CStr, Judge, Overwrite, Terminated, NamesFrom, TurnAt, Next, Advance, BareAfterTaken, StringAt;
    hide Decode;
    var u, rest := entries[0], entries[1..];
    assert u in entries;
    if rest == [] {
      assert entries == [u];
      TerminatedAlone(u);
      BareAlone(mode, first, u);
      LastEntryRunsOffIff(mode, first, buf, pos, u);
    } else {
      assert entries == [u] + rest;
      TerminatedCons(u, rest);
      EntrySuffix(buf, pos, u, Terminated(rest));
      FirstEntry(buf, pos, entries);
      WholeTurn(mode, first, buf, pos, u);
      NamesStep(mode, first, buf, pos, |entries|);
      BareAfterFirst(mode, first, u, rest);
      if TurnAt(mode, first, buf, pos).Take? {
        var path := TurnAt(mode, first, buf, pos).path;
        StepsOver(u);
        OverwriteKeeps(buf, pos, path, pos + |u| + 1);
        EntriesRunOffIff(mode, false, Overwrite(buf, pos, path), pos + |u| + 1, rest);
      }
    }
  }

  lemma EntrySuffix(buf: bytes, pos: nat, u: bytes, tail: bytes)
    requires pos <= |buf| && buf[pos..] == u + [NUL] + tail
    ensures pos + |u| + 1 <= |buf| && buf[pos + |u| + 1..] == tail
  {
    assert buf[pos..][|u| + 1..] == tail;
  }

  lemma BareAlone(mode: Mode, first: bool, u: bytes)
    ensures BareAfterTaken(mode, first, [u]) <==> u == PREFIX
  {
  }

  lemma BareAfterFirst(mode: Mode, first: bool, u: bytes, rest: seq<bytes>)
    requires rest != []
    ensures BareAfterTaken(mode, first, [u] + rest) <==> Taken(mode, first, u) && BareAfterTaken(mode, false, rest)
  {
    hide Taken;
    var entries := [u] + rest;
    if BareAfterTaken(mode, first, entries) {
      forall i | 0 <= i < |rest| - 1 ensures Taken(mode, false, rest[i]) {
        assert entries[i + 1] == rest[i];
      }
      assert Taken(mode, first && 0 == 0, entries[0]);
    }
  }

  /** The same on the text: `buf` is a text without inner NUL and its terminator. */
  lemma TextRunsOffIff(mode: Mode, buf: bytes)
    requires HasHeader(TextOf(buf)) && buf == TextOf(buf) + [NUL]
    requires ShortLines(Split(LF, Body(TextOf(buf))))
    ensures NamesIn(mode, buf).None? <==> BareAfterTaken(mode, true, Split(LF, Body(TextOf(buf))))
  {
    hide Terminated, NamesFrom, Split, Cut, CStr, FirstLine, ShortLines, BareAfterTaken, HasHeader;
    var body := Body(TextOf(buf));
    CStrIsClean(buf);
    CutIsTerminated(body);
    LinesAreClean(body);
    assert buf[|TextOf(buf)|..] == [NUL];
    assert Prepared(buf)[Start(buf)..] == Cut(body) + [NUL];
    EntriesRunOffIff(mode, true, Prepared(buf), Start(buf), Split(LF, body));
  }

  lemma CStrIsClean(buf: bytes)
    requires HasHeader(TextOf(buf))
    ensures NUL !in Body(TextOf(buf)) && Start(buf) <= |TextOf(buf)| <= |buf|
  {
  }

  lemma {:induction false} LinesAreClean(s: bytes)
    requires NUL !in s
    ensures Split(LF, s) != [] && forall e :: e in Split(LF, s) ==> NUL !in e
  {
    if s != [] { LinesAreClean(s[1..]); }
  }

  lemma StepsOver(u: bytes)
    requires |u| <= MAX_FILE_NAME_LEN
    ensures Advance(u) == |u| + 1
  {
  }

  // ---------------------------------------------------------------- the entries of a written list

  function Entries(paths: seq<bytes>): seq<bytes> {
    seq(|paths|, i requires 0 <= i < |paths| => Entry(paths[i]))
  }

  lemma {:induction false} BodyOfLines(paths: seq<bytes>)
    requires paths != []
    ensures Lines(paths) == [LF] + Lines(paths)[1..]
    ensures Split(LF, Lines(paths)[1..]) == Entries(paths)
  {
    hide Entry, Split;
    var init, last := paths[..|paths| - 1], Entry(paths[|paths| - 1]);
    SplitEntry(paths[|paths| - 1]);
    EntriesSnoc(paths);
    if init == [] {
      assert Lines(init) == [];
      assert Lines(paths)[1..] == last;
    } else {
      BodyOfLines(init);
      assert Lines(paths) == Lines(init) + [LF] + last;
      TailOfThree(Lines(init), LF, last);
      hide Lines, Entries;
      SplitConcat(LF, Lines(init)[1..], last);
    }
  }

  /** The lines of the text: "cut", and then the URLs in their order, up to 4096 bytes of each. */
  lemma LinesOfCut(paths: seq<bytes>)
    ensures var lines := Split(LF, CutText(paths));
            && |lines| == |paths| + 1 && lines[0] == [99, 117, 116]
            && forall i :: 0 <= i < |paths| ==>
                 lines[i + 1] <= Encode(paths[i])
                 && |lines[i + 1]| == if |Encode(paths[i])| > 4096 then 4096 else |Encode(paths[i])|
  {
    hide Encode, Split;
    SplitClean(LF, CUT);
    if paths == [] {
      assert CutText(paths) == CUT;
    } else {
      BodyOfLines(paths);
      var body := Lines(paths)[1..];
      assert CutText(paths) == CUT + [LF] + body by { hide Lines; }
      SplitConcat(LF, CUT, body);
    }
  }

  lemma TailOfThree(a: bytes, c: byte, b: bytes)
    requires a != []
    ensures (a + [c] + b)[1..] == a[1..] + [c] + b
    ensures [(a + [c] + b)[0]] + (a + [c] + b)[1..] == a + [c] + b
  {
  }

  lemma SplitEntry(path: bytes)
    ensures Split(LF, Entry(path)) == [Entry(path)]
  {
    hide Encode;
    UrlIsClean(path);
    SplitClean(LF, Entry(path));
  }

  lemma EntriesSnoc(paths: seq<bytes>)
    requires paths != []
    ensures Entries(paths) == Entries(paths[..|paths| - 1]) + [Entry(paths[|paths| - 1])]
    ensures |paths| == 1 ==> Entries(paths) == [Entry(paths[0])]
  {
    hide Entry;
  }

  lemma {:induction false} LineEnds(text: bytes, n: nat)
    requires n < |text| && text[n] == LF && LF !in text[..n]
    ensures FirstLine(text) == n
  {
    if n > 0 {
      assert text[0] == text[..n][0];
      assert text[1..][..n - 1] == text[..n][1..];
      LineEnds(text[1..], n - 1);
    }
  }

  /** The two first lines that the reader accepts; a file manager writes the second one when files are copied. */
  predicate IsVerb(verb: bytes) { verb in {CUT, COPY} }

  lemma HeaderOfList(verb: bytes, paths: seq<bytes>)
    requires paths != [] && IsVerb(verb)
    ensures var text := verb + Lines(paths);
            HasHeader(text) && Body(text) == Lines(paths)[1..] && FirstLine(text) == |verb|
  {
    BodyOfLines(paths);
    var text, n := verb + Lines(paths), |verb|;
    assert text[n] == LF && text[..n] == verb;
    assert text[3] == LF || text[4] == LF;
    LineEnds(text, n);
    assert text[n + 1..] == Lines(paths)[1..];
  }

  /** A path as it can be in a list. */
  predicate Listable(path: bytes) { path != [] && NUL !in path }

  predicate AllListable(paths: seq<bytes>) {
    forall p :: p in paths ==> Listable(p)
  }

  /** The limits of writer and reader: 2048 bytes for every URL but the last one, which may have 4096. */
  predicate UrlsFit(paths: seq<bytes>) {
    forall i :: 0 <= i < |paths| ==> |Encode(paths[i])| <= if i == |paths| - 1 then MAX_URL_LEN else MAX_FILE_NAME_LEN
  }

  /** get_copied_dirs_files leaves the paths as they are. */
  predicate Accepted(mode: Mode, first: bool, paths: seq<bytes>) {
    mode == DirsToo ==>
      (forall p :: p in paths ==> |p| <= MAX_FILE_NAME_LEN)
      && (first && paths != [] && paths[0] != [] ==> paths[0][|paths[0]| - 1] != SLASH)
  }

  lemma {:induction false} NamesRoundTrip(mode: Mode, first: bool, paths: seq<bytes>)
    requires AllListable(paths) && Accepted(mode, first, paths) && forall p :: p in paths ==> |Encode(p)| <= MAX_URL_LEN
    ensures NamesOf(mode, first, Entries(paths)) == paths
    decreases |paths|
  {
    hide Decode, CStr, Encode, Judge, Entry, NamesOf;
    NoEntries(mode, first, Entries(paths));
    if paths != [] {
      var p := paths[0];
      assert p in paths;
      EntryIsWhole(p);
      UrlRoundTrip(p);
      NamesRoundTrip(mode, false, paths[1..]);
      assert Entries(paths)[0] == Encode(p) && Entries(paths)[1..] == Entries(paths[1..]);
      JudgedAsIs(mode, first, p);
      NamesOfFirst(mode, first, Entries(paths), p);
      assert [p] + paths[1..] == paths;
    }
  }

  lemma NamesOfFirst(mode: Mode, first: bool, entries: seq<bytes>, path: bytes)
    requires entries != [] && Decode(entries[0]) == Some(path) && Judge(mode, first, path) == Take(path)
    ensures NamesOf(mode, first, entries) == [CStr(path)] + NamesOf(mode, false, entries[1..])
  {
  }

  lemma NoEntries(mode: Mode, first: bool, entries: seq<bytes>)
    ensures entries == [] ==> NamesOf(mode, first, entries) == []
  {
  }

  lemma JudgedAsIs(mode: Mode, first: bool, path: bytes)
    requires Listable(path) && Accepted(mode, first, [path])
    ensures Judge(mode, first, path) == Take(path) && CStr(path) == path
  {
    assert path in [path];
  }

  lemma EntryIsWhole(path: bytes)
    requires path != []
    ensures Whole(Entry(path)) && Entry(path) <= Encode(path)
    ensures |Encode(path)| <= MAX_URL_LEN ==> Entry(path) == Encode(path)
    ensures |Encode(path)| > MAX_URL_LEN ==> |Entry(path)| == MAX_URL_LEN
  {
    hide Encode;
    UrlIsClean(path);
  }

  lemma EntriesFit(paths: seq<bytes>)
    requires AllListable(paths) && UrlsFit(paths)
    ensures AllFit(Entries(paths)) && forall p :: p in paths ==> |Encode(p)| <= MAX_URL_LEN
  {
    hide Encode, Entry, Whole;
    forall i | 0 <= i < |paths|
      ensures Whole(Entries(paths)[i]) && (i < |paths| - 1 ==> |Entries(paths)[i]| <= MAX_FILE_NAME_LEN)
    {
      assert paths[i] in paths;
      EntryIsWhole(paths[i]);
    }
  }

  // ---------------------------------------------------------------- the reader on a written list

  /** The buffer of the reader begins with the list and its terminator; the writer offers its whole buffer. */
  predicate Holds(verb: bytes, buf: bytes, paths: seq<bytes>) {
    IsVerb(verb) && verb + Lines(paths) + [NUL] <= buf
  }

  /** What the writer leaves in the clipboard is a list of that kind. */
  lemma WriterIsHeld(buf: bytes, paths: seq<bytes>)
    requires CutText(paths) + [NUL] <= buf
    ensures Holds(CUT, buf, paths)
  {
    hide Lines;
  }

  lemma {:induction false} LinesAreNulFree(paths: seq<bytes>)
    ensures NUL !in Lines(paths)
  {
    hide Encode;
    if paths != [] {
      LinesAreNulFree(paths[..|paths| - 1]);
      UrlIsClean(paths[|paths| - 1]);
    }
  }

  lemma TextIsRead(verb: bytes, buf: bytes, paths: seq<bytes>)
    requires Holds(verb, buf, paths)
    ensures TextOf(buf) == verb + Lines(paths)
  {
    hide CStr, Lines;
    LinesAreNulFree(paths);
    CStrOfPrefix(verb + Lines(paths), buf);
  }

  /** What the reader makes of a written list. */
  lemma ReadOfList(mode: Mode, verb: bytes, buf: bytes, paths: seq<bytes>)
    requires paths != [] && Holds(verb, buf, paths)
    ensures HasHeader(TextOf(buf)) && Start(buf) <= |Prepared(buf)|
    ensures Terminated(Entries(paths)) <= Prepared(buf)[Start(buf)..]
    ensures NamesIn(mode, buf) == NamesFrom(mode, true, Prepared(buf), Start(buf), |paths|)
  {
    hide Terminated, Entries, Split, Cut, NamesFrom, Lines, CStr, FirstLine, Prepared;
    TextIsRead(verb, buf, paths);
    HeaderOfList(verb, paths);
    BodyOfLines(paths);
    EntriesLength(paths);
    var body := Body(verb + Lines(paths));
    CutIsTerminated(body);
    PreparedBegins(buf, body);
  }

  lemma PreparedBegins(buf: bytes, body: bytes)
    requires HasHeader(TextOf(buf)) && body == Body(TextOf(buf)) && NUL in buf
    ensures Start(buf) <= |buf| && Cut(body) + [NUL] <= Prepared(buf)[Start(buf)..]
  {
    hide Cut, FirstLine;
    var rest := buf[|TextOf(buf)|..];
    assert Prepared(buf)[Start(buf)..] == Cut(body) + rest;
    assert rest[0] == NUL;
  }

  lemma EntriesLength(paths: seq<bytes>)
    ensures |Entries(paths)| == |paths|
  {
  }

  /** Reading a cut list back gives the list that was written, in order. */
  lemma CutListRoundTrip(mode: Mode, verb: bytes, buf: bytes, paths: seq<bytes>)
    requires paths != [] && Holds(verb, buf, paths)
    requires AllListable(paths) && Accepted(mode, true, paths) && UrlsFit(paths)
    ensures HasHeader(TextOf(buf)) && NamesIn(mode, buf) == Some(paths)
  {
    hide Terminated, CutText, Entries, NamesIn, NamesOf, NamesFrom, AllFit, Holds, AllListable, Accepted, UrlsFit,
         Prepared, HasHeader, Start, CStr;
    ReadOfList(mode, verb, buf, paths);
    EntriesFit(paths);
    EntriesLength(paths);
    EntriesAreIndependent(mode, true, Prepared(buf), Start(buf), Entries(paths));
    NamesRoundTrip(mode, true, paths);
  }

  // ---------------------------------------------------------------- longer URLs

  /** "file://" does not occur in the text. */
  predicate HasNoUrl(s: bytes) {
    forall k :: 0 <= k <= |s| ==> !(PREFIX <= s[k..])
  }

  /** Plain text at the start of an encoding is at the start of the text. */
  lemma {:induction false} PlainPrefix(w: bytes, p: bytes)
    requires w <= EncodeAll(p) && PERCENT !in w
    ensures w <= p
    decreases |w|
  {
    if w != [] {
      assert w[0] == EncodeAll(p)[0];
      assert Plain(p[0]) && EncodeAll(p)[1..] == EncodeAll(p[1..]) && w[0] == p[0];
      assert w[1..] <= EncodeAll(p)[1..];
      PlainPrefix(w[1..], p[1..]);
      assert w == [w[0]] + w[1..] && p == [p[0]] + p[1..];
    }
  }

  lemma TailOfEncoding(p: bytes, j: nat)
    requires p != [] && j <= |EncodeAll(p)|
    ensures j >= |EncodeByte(p[0])| ==> j - |EncodeByte(p[0])| <= |EncodeAll(p[1..])|
    ensures j >= |EncodeByte(p[0])| ==> EncodeAll(p)[j..] == EncodeAll(p[1..])[j - |EncodeByte(p[0])|..]
    ensures 0 < j < |EncodeByte(p[0])| ==> EncodeAll(p)[j] == EncodeByte(p[0])[j]
  {
    var head, tail := EncodeByte(p[0]), EncodeAll(p[1..]);
    assert EncodeAll(p) == head + tail;
    TailOfConcat(head, tail, j);
  }

  lemma TailOfConcat(a: bytes, b: bytes, j: nat)
    requires j <= |a + b|
    ensures j >= |a| ==> j - |a| <= |b| && (a + b)[j..] == b[j - |a|..]
    ensures j < |a| ==> (a + b)[j] == a[j]
  {
  }

  /** A path without "file://" has none in its encoding either. */
  lemma {:induction false} EncodingHasNoUrl(p: bytes, j: nat)
    requires HasNoUrl(p) && j <= |EncodeAll(p)|
    ensures !(PREFIX <= EncodeAll(p)[j..])
    decreases |p|
  {
    if PREFIX <= EncodeAll(p)[j..] {
      if j == 0 {
        assert EncodeAll(p)[0..] == EncodeAll(p) && p[0..] == p;
        PlainPrefix(PREFIX, p);
      } else {
        TailOfEncoding(p, j);
        assert EncodeAll(p)[j..][0] == PREFIX[0];
        if j >= |EncodeByte(p[0])| {
          forall k | 0 <= k <= |p[1..]| ensures !(PREFIX <= p[1..][k..]) {
            assert p[1..][k..] == p[k + 1..];
          }
          EncodingHasNoUrl(p[1..], j - |EncodeByte(p[0])|);
        }
      }
    }
  }

  /** So the only "file://" of its URL is the first. */
  lemma NoUrlInside(p: bytes, k: nat)
    requires HasNoUrl(p) && 1 <= k <= |Encode(p)|
    ensures !(PREFIX <= Encode(p)[k..])
  {
    if k < 7 {
      assert Encode(p)[k..][0] == PREFIX[k];
    } else {
      assert Encode(p)[k..] == EncodeAll(p)[k - 7..];
      EncodingHasNoUrl(p, k - 7);
    }
  }

  /** A URL that is cut short decodes to a shorter path, if at all. */
  lemma {:induction false} ClippedIsShorter(p: bytes, k: nat)
    requires k < |EncodeAll(p)|
    ensures DecodeAll(EncodeAll(p)[..k]).Some? ==> DecodeAll(EncodeAll(p)[..k]).value < p
    decreases |p|
  {
    var u, b := EncodeAll(p)[..k], EncodeByte(p[0]);
    if 0 < k {
      assert u[0] == b[0];
      if k >= |b| {
        var rest := EncodeAll(p[1..])[..k - |b|];
        assert u == b + rest;
        DecodeOfEncodedByte(p[0], rest);
        ClippedIsShorter(p[1..], k - |b|);
        assert p == [p[0]] + p[1..];
      }
    }
  }

  /** The decoded text of an entry: the path, or a part of it if the URL was cut. */
  lemma DecodedEntry(p: bytes)
    requires p != []
    ensures |Encode(p)| <= MAX_URL_LEN ==> Decode(Entry(p)) == Some(p)
    ensures |Encode(p)| > MAX_URL_LEN && Decode(Entry(p)).Some? ==> Decode(Entry(p)).value < p
  {
    hide EncodeAll, DecodeAll;
    if |Encode(p)| <= MAX_URL_LEN {
      UrlRoundTrip(p);
    } else {
      var u := Entry(p);
      assert u[..7] == PREFIX && u[7..] == EncodeAll(p)[..MAX_URL_LEN - 7];
      ClippedIsShorter(p, MAX_URL_LEN - 7);
    }
  }

  /** Behind a URL that is too long the reader finds no URL. */
  lemma NoUrlBehind(buf: bytes, pos: nat, u: bytes, d: bytes, p: bytes)
    requires |u| > MAX_FILE_NAME_LEN && pos + |u| < |buf| && buf[pos..pos + |u|] == u && buf[pos + |u|] == NUL
    requires NUL !in u && NUL !in p && |d| < |u| && u <= Encode(p) && HasNoUrl(p)
    requires d <= p || |d| <= MAX_FILE_NAME_LEN
    ensures var next, at := Overwrite(buf, pos, d), pos + MAX_FILE_NAME_LEN + 1;
            at < |next| && NUL in next[at..] && !(PREFIX <= CStr(next[at..]))
  {
    hide Encode, CStr, HasNoUrl;
    var k := MAX_FILE_NAME_LEN + 1;
    var next, at := Overwrite(buf, pos, d), pos + k;
    if |d| >= k {
      var tail := d[k..];
      assert next[at..][..|tail|] == tail && next[at..][|tail|] == NUL;
      CStrAt(tail, next[at..]);
      NoUrlInSlice(p, d, k);
    } else {
      var tail := u[k..];
      OverwriteKeeps(buf, pos, d, at);
      assert next[at..] == buf[at..];
      assert buf[at..][..|tail|] == tail && buf[at..][|tail|] == NUL;
      CStrAt(tail, next[at..]);
      NoUrlInside(p, k);
      assert tail <= Encode(p)[k..];
    }
  }

  lemma NoUrlInSlice(p: bytes, d: bytes, k: nat)
    requires HasNoUrl(p) && d <= p && k <= |d|
    ensures !(PREFIX <= d[k..])
  {
    assert d[k..] <= p[k..];
  }

  /** An entry that is too long is the last one that is read. */
  lemma LongEntryEndsTheList(mode: Mode, first: bool, buf: bytes, pos: nat, paths: seq<bytes>)
    requires paths != [] && pos <= |buf| && Terminated(Entries(paths)) <= buf[pos..]
    requires |Entry(paths[0])| > MAX_FILE_NAME_LEN && Listable(paths[0]) && HasNoUrl(paths[0])
    ensures NamesFrom(mode, first, buf, pos, |paths|) == Some(NamesOf(mode, first, [Entry(paths[0])]))
  {
    hide Decode, CStr, Encode, Overwrite, NamesFrom, Terminated, HasNoUrl, TurnAt, Next, StringAt, NamesOf, Judge,
         Entry;
    var p, u := paths[0], Entry(paths[0]);
    EntryIsWhole(p);
    DecodedEntry(p);
    FirstEntry(buf, pos, Entries(paths));
    WholeTurn(mode, first, buf, pos, u);
    NamesStep(mode, first, buf, pos, |paths|);
    NamesOfOne(mode, first, u);
    if TurnAt(mode, first, buf, pos).Take? {
      var path := TurnAt(mode, first, buf, pos).path;
      JudgedLength(mode, first, Decode(u).value);
      StringBytes(buf, pos, u);
      NoUrlBehind(buf, pos, u, path, p);
      var next := Overwrite(buf, pos, path);
      if |paths| > 1 {
        LoopStops(mode, next, pos + MAX_FILE_NAME_LEN + 1, |paths| - 1);
      } else {
        NoNames(mode, false, next, Next(buf, pos));
      }
      assert [CStr(path)] + [] == [CStr(path)];
    }
  }

  /** What one entry gives. */
  lemma NamesOfOne(mode: Mode, first: bool, u: bytes)
    ensures NamesOf(mode, first, [u])
            == match Decode(u)
               case None => []
               case Some(d) => match Judge(mode, first, d) { case Take(path) => [CStr(path)] case _ => [] }
  {
    hide Decode, CStr, Judge;
    var none: seq<bytes> := [];
    assert [u][1..] == none && NamesOf(mode, false, none) == [];
  }

  lemma JudgedLength(mode: Mode, first: bool, d: bytes)
    ensures var t := Judge(mode, first, d);
            t.Take? ==> |t.path| == |d| && (t.path == d || |d| <= MAX_FILE_NAME_LEN)
  {
  }

  lemma LoopStops(mode: Mode, buf: bytes, pos: nat, cnt: nat)
    requires pos < |buf| && NUL in buf[pos..] && !(PREFIX <= CStr(buf[pos..])) && cnt > 0
    ensures NamesFrom(mode, false, buf, pos, cnt) == Some([])
  {
    hide CStr;
    WholeTurn(mode, false, buf, pos, CStr(buf[pos..]));
  }

  /** The reader gives the paths back as they are. */
  predicate ReadsBack(mode: Mode, first: bool, paths: seq<bytes>) { UrlsFit(paths) && Accepted(mode, first, paths) }

  /** If some URL or path is too long, or the first path is trimmed, the list that is read is another one. */
  lemma {:induction false} OtherListIsRead(mode: Mode, first: bool, buf: bytes, pos: nat, paths: seq<bytes>)
    requires pos <= |buf| && Terminated(Entries(paths)) <= buf[pos..] && paths != [] && !ReadsBack(mode, first, paths)
    requires forall p :: p in paths ==> Listable(p) && HasNoUrl(p)
    ensures NamesFrom(mode, first, buf, pos, |paths|) != Some(paths)
    decreases |paths|
  {
    hide Decode, CStr, Encode, Overwrite, NamesFrom, Terminated, HasNoUrl, Entry, NamesOf, Judge, UrlsFit, Accepted;
    var p, u := paths[0], Entry(paths[0]);
    assert p in paths && Listable(p);
    EntryIsWhole(p);
    if |u| > MAX_FILE_NAME_LEN {
      LongEntryEndsTheList(mode, first, buf, pos, paths);
      LongEntryIsAnother(mode, first, paths);
    } else {
      ShortEntry(mode, first, paths);
      FirstTurn(mode, first, buf, pos, paths);
      if Judge(mode, first, p) == Take(p) {
        OtherListIsRead(mode, false, Overwrite(buf, pos, p), pos + |u| + 1, paths[1..]);
        assert paths == [p] + paths[1..];
      }
    }
  }

  /** What is left of a list that begins with a long entry. */
  lemma LongEntryIsAnother(mode: Mode, first: bool, paths: seq<bytes>)
    requires paths != [] && Listable(paths[0]) && |Entry(paths[0])| > MAX_FILE_NAME_LEN
    requires !ReadsBack(mode, first, paths)
    ensures NamesOf(mode, first, [Entry(paths[0])]) != paths
  {
    hide Decode, CStr, Encode, NamesOf, Judge, Entry;
    var p, u := paths[0], Entry(paths[0]);
    NamesOfOne(mode, first, u);
    DecodedEntry(p);
    if |paths| == 1 && Decode(u).Some? {
      var d := Decode(u).value;
      assert paths == [p];
      JudgedLength(mode, first, d);
      if |Encode(p)| > MAX_URL_LEN {
        if Judge(mode, first, d).Take? { ShorterText(p, Judge(mode, first, d).path); }
      } else {
        assert UrlsFit(paths);
        NotAsIs(mode, first, p);
      }
    }
  }

  /** A path that is not accepted is not given back. */
  lemma NotAsIs(mode: Mode, first: bool, p: bytes)
    requires Listable(p) && !Accepted(mode, first, [p])
    ensures Judge(mode, first, p).Take? ==> CStr(Judge(mode, first, p).path) != p
    ensures Judge(mode, first, p) != Take(p)
  {
    hide CStr;
    var t := Judge(mode, first, p);
    if t.Take? {
      assert t.path == p[..|p| - 1] + [NUL];
      CStrStops(p[..|p| - 1], [NUL]);
    }
  }

  /** After an entry that fits there is more to come, and the rest is not given back, unless the first is trimmed. */
  lemma ShortEntry(mode: Mode, first: bool, paths: seq<bytes>)
    requires paths != [] && !ReadsBack(mode, first, paths) && |Entry(paths[0])| <= MAX_FILE_NAME_LEN
    requires forall p :: p in paths ==> Listable(p)
    ensures Entry(paths[0]) == Encode(paths[0]) && |paths[0]| <= MAX_FILE_NAME_LEN
    ensures Judge(mode, first, paths[0]) == Take(paths[0]) ==> |paths| > 1 && !ReadsBack(mode, false, paths[1..])
    ensures Judge(mode, first, paths[0]) != Take(paths[0]) ==>
              Judge(mode, first, paths[0]).Take? && CStr(Judge(mode, first, paths[0]).path) != paths[0]
  {
    hide CStr, Encode, Entry;
    var p, rest := paths[0], paths[1..];
    assert p in paths;
    EntryIsWhole(p);
    UrlIsClean(p);
    if Accepted(mode, first, [p]) {
      JudgedAsIs(mode, first, p);
      assert p in [p];
      if UrlsFit(paths) {
        assert forall q :: q in paths ==> q == p || q in rest;
      } else {
        RestIsTooLong(paths);
      }
    } else {
      NotAsIs(mode, first, p);
      assert p in [p];
    }
  }

  lemma ShorterText(p: bytes, path: bytes)
    ensures |path| < |p| ==> CStr(path) != p
  {
    hide CStr;
  }

  lemma RestIsTooLong(paths: seq<bytes>)
    requires paths != [] && !UrlsFit(paths)
    requires |Encode(paths[0])| <= if |paths| == 1 then MAX_URL_LEN else MAX_FILE_NAME_LEN
    ensures |paths| > 1 && !UrlsFit(paths[1..])
  {
    hide Encode;
    var i :| 0 <= i < |paths| && |Encode(paths[i])| > if i == |paths| - 1 then MAX_URL_LEN else MAX_FILE_NAME_LEN;
    assert paths[1..][i - 1] == paths[i];
  }

  /** The turn on an entry that fits: its name, and if it is taken as it is, the reader goes on with the next one. */
  lemma FirstTurn(mode: Mode, first: bool, buf: bytes, pos: nat, paths: seq<bytes>)
    requires paths != [] && pos <= |buf| && Terminated(Entries(paths)) <= buf[pos..]
    requires Listable(paths[0]) && |Encode(paths[0])| <= MAX_FILE_NAME_LEN && Judge(mode, first, paths[0]).Take?
    ensures var p := paths[0]; var u := Entry(p); var next := pos + |u| + 1;
            && pos + |p| < |buf| && next <= |buf|
            && Terminated(Entries(paths[1..])) <= Overwrite(buf, pos, p)[next..]
            && (Judge(mode, first, p) == Take(p) ==>
                  NamesFrom(mode, first, buf, pos, |paths|) ==
                  match NamesFrom(mode, false, Overwrite(buf, pos, p), next, |paths| - 1)
                  case None => None
                  case Some(rest) => Some([p] + rest))
    ensures var r := NamesFrom(mode, first, buf, pos, |paths|);
            r.Some? ==> r.value != [] && r.value[0] == CStr(Judge(mode, first, paths[0]).path)
  {
    hide Decode, CStr, Encode, Overwrite, NamesFrom, Terminated, TurnAt, Next, Advance, Judge;
    var p, u := paths[0], Entry(paths[0]);
    EntryIsWhole(p);
    DecodedEntry(p);
    FirstEntry(buf, pos, Entries(paths));
    assert Entries(paths)[1..] == Entries(paths[1..]);
    WholeTurn(mode, first, buf, pos, u);
    StepsOver(u);
    NamesStep(mode, first, buf, pos, |paths|);
    OverwriteKeeps(buf, pos, p, pos + |u| + 1);
    CStrOfClean(p);
  }

  lemma CStrOfClean(p: bytes)
    requires NUL !in p
    ensures CStr(p) == p
  {
  }

  /**
    * For paths that do not themselves contain "file://", either reader gives the list that was written exactly if every
    * URL but the last has at most 2048 bytes, the last at most 4096, and, for get_copied_dirs_files, no path has more
    * than 2048 and the first does not end with a separator.
    */
  lemma CutNamesRoundTripIff(mode: Mode, verb: bytes, buf: bytes, paths: seq<bytes>)
    requires paths != [] && Holds(verb, buf, paths) && forall p :: p in paths ==> Listable(p) && HasNoUrl(p)
    ensures HasHeader(TextOf(buf))
    ensures NamesIn(mode, buf) == Some(paths) <==> UrlsFit(paths) && Accepted(mode, true, paths)
  {
    hide Terminated, CutText, Entries, NamesIn, NamesFrom, HasNoUrl, UrlsFit, HasHeader, Holds, Prepared, Start, CStr,
         Accepted;
    ReadOfList(mode, verb, buf, paths);
    if UrlsFit(paths) && Accepted(mode, true, paths) {
      CutListRoundTrip(mode, verb, buf, paths);
    } else {
      OtherListIsRead(mode, true, Prepared(buf), Start(buf), paths);
    }
  }

  /** The list of get_copied_files when every path is a regular file. */
  lemma AllRegular(paths: seq<bytes>, names: seq<bytes>, regular: set<bytes>)
    requires |names| <= |paths| && forall p :: p in paths ==> p in regular
    ensures Regular(names, regular) == paths <==> names == paths
  {
  }

  /**
    * For paths of regular files that do not themselves contain "file://": get_copied_files gives the list that was
    * written exactly if every URL but the last has at most 2048 bytes and the last at most 4096.
    */
  lemma CutListRoundTripIff(verb: bytes, buf: bytes, paths: seq<bytes>, regular: set<bytes>)
    requires paths != [] && Holds(verb, buf, paths)
    requires forall p :: p in paths ==> Listable(p) && HasNoUrl(p) && p in regular
    ensures HasHeader(TextOf(buf))
    ensures CopiedFiles(buf, regular) == Some(paths) <==> UrlsFit(paths)
  {
    hide Terminated, CutText, Entries, NamesIn, NamesFrom, HasNoUrl, UrlsFit, HasHeader, Holds, Prepared, Start, CStr,
         Regular;
    ReadOfList(FilesOnly, verb, buf, paths);
    CutNamesRoundTripIff(FilesOnly, verb, buf, paths);
    if NamesIn(FilesOnly, buf).Some? { AllRegular(paths, NamesIn(FilesOnly, buf).value, regular); }
  }

  // ---------------------------------------------------------------- both ends on one buffer

  /** A reader on a buffer that the writer offered. */
  method Paste(mode: Mode, clip: bytes, ghost paths: seq<bytes>) returns (names: Option<seq<bytes>>)
    requires CutText(paths) + [NUL] <= clip && AllListable(paths)
    ensures paths != [] && ReadsBack(mode, true, paths) ==> names == Some(paths)
    ensures paths != [] && (forall p :: p in paths ==> HasNoUrl(p)) ==>
              (names == Some(paths) <==> ReadsBack(mode, true, paths))
  {
    hide CutText, HasNoUrl, UrlsFit, Accepted, HasHeader, NamesIn, Holds, TextOf;
    names := None;
    var buf := BufferOf(clip);  // xclip_util adds a terminator
    ghost var before := buf[..];
    assert CutText(paths) + [NUL] <= before;
    WriterIsHeld(before, paths);
    if paths != [] {
      if ReadsBack(mode, true, paths) { CutListRoundTrip(mode, CUT, before, paths); }
      if forall p :: p in paths ==> HasNoUrl(p) { CutNamesRoundTripIff(mode, CUT, before, paths); }
    }
    var found, overrun, read := CopiedNames(mode, buf);
    if found { names := Some(read); }
  }

  /**
    * set_clipboard_cut_files, and then one of the readers: the paths come back, without those for whose URL there was
    * no memory, if they fit the limits, and for paths without "file://" exactly then.
    */
  method CutAndRead(mode: Mode, paths: seq<bytes>, memory: nat -> bool) returns (ok: bool, names: Option<seq<bytes>>)
    requires AllListable(paths)
    ensures ok <==> CutFits(paths, memory)
    ensures var listed := Granted(paths, memory);
            ok && listed != [] && ReadsBack(mode, true, listed) ==> names == Some(listed)
    ensures var listed := Granted(paths, memory);
            ok && listed != [] && (forall p :: p in listed ==> HasNoUrl(p)) ==>
              (names == Some(listed) <==> ReadsBack(mode, true, listed))
    ensures (forall i: nat :: i < |paths| ==> memory(i)) && ok && paths != [] && ReadsBack(mode, true, paths) ==>
              names == Some(paths)
  {
    hide CutFits, Granted, CutText, HasNoUrl, UrlsFit, Accepted, Allocated, Encode;
    names := None;
    GrantedAreThere(paths, memory);
    if forall i: nat :: i < |paths| ==> memory(i) { AllGranted(paths, memory); }
    var clip;
    ok, clip := SetClipboardCutFiles(paths, memory);
    if ok { names := Paste(mode, clip[..], Granted(paths, memory)); }
  }

  lemma {:induction false} GrantedAreThere(paths: seq<bytes>, memory: nat -> bool)
    ensures forall p :: p in Granted(paths, memory) ==> p in paths
  {
    if paths != [] { GrantedAreThere(paths[..|paths| - 1], memory); }
  }

  // ---------------------------------------------------------------- examples

  /** `n` times the same byte. */
  function Repeat(c: byte, n: nat): (s: bytes)
    ensures |s| == n && forall x :: x in s ==> x == c
  {
    seq(n, _ => c)
  }

  /** An absolute path of `k` components of 255 bytes each, the longest that a file system commonly allows. */
  function Deep(c: byte, k: nat): (s: bytes)
    ensures |s| == 256 * k && forall x :: x in s ==> x == c || x == SLASH
    ensures k > 0 ==> s[0] == SLASH
  {
    if k == 0 then [] else [SLASH] + Repeat(c, 255) + Deep(c, k - 1)
  }

  lemma {:induction false} EncodeAllConcat(a: bytes, b: bytes)
    ensures EncodeAll(a + b) == EncodeAll(a) + EncodeAll(b)
  {
    if a == [] {
      assert a + b == b;
    } else {
      assert (a + b)[1..] == a[1..] + b;
      EncodeAllConcat(a[1..], b);
    }
  }

  lemma {:induction false} EncodedRepeat(c: byte, n: nat)
    ensures |EncodeAll(Repeat(c, n))| == n * |EncodeByte(c)|
  {
    if n > 0 {
      assert Repeat(c, n)[1..] == Repeat(c, n - 1);
      EncodedRepeat(c, n - 1);
    }
  }

  lemma {:induction false} EncodedDeep(c: byte, k: nat)
    ensures |EncodeAll(Deep(c, k))| == k * (1 + 255 * |EncodeByte(c)|)
  {
    hide EncodeByte, EncodeAll;
    if k == 0 {
      NothingEncoded();
    } else {
      EncodedDeep(c, k - 1);
      EncodedRepeat(c, 255);
      EncodeAllConcat([SLASH] + Repeat(c, 255), Deep(c, k - 1));
      EncodeAllConcat([SLASH], Repeat(c, 255));
      EncodedSlash();
      var e := |EncodeByte(c)|;
      OneMoreTime(k, 1 + 255 * e);
    }
  }

  lemma OneMoreTime(k: nat, n: nat)
    requires k > 0
    ensures (k - 1) * n + n == k * n
  {
  }

  lemma EncodedSlash()
    ensures |EncodeAll([SLASH])| == 1
  {
    assert [SLASH][1..] == [];
  }

  lemma DeepIsListable(c: byte, k: nat)
    requires k > 0 && c != NUL && c != PREFIX[0]
    ensures Listable(Deep(c, k)) && HasNoUrl(Deep(c, k)) && |Encode(Deep(c, k))| == 7 + k * (1 + 255 * |EncodeByte(c)|)
  {
    hide EncodeAll, EncodeByte;
    var s := Deep(c, k);
    EncodedDeep(c, k);
    forall i | 0 <= i <= |s| ensures !(PREFIX <= s[i..]) {
      if i < |s| { assert s[i] in s && s[i..][0] == s[i] != PREFIX[0]; }
    }
  }

  /** "/b" */
  const SHORT_PATH: bytes := [SLASH, 98]

  /**
    * A path of 2048 bytes, eight components of 255 letters, has a URL of 2055 bytes: the reader steps over 2049 of
    * them, finds the rest of that URL, which is no URL, and stops. The second path is lost.
    */
  lemma LongUrlLosesTheRest(verb: bytes, buf: bytes, regular: set<bytes>)
    requires Deep(97, 8) in regular && SHORT_PATH in regular && Holds(verb, buf, [Deep(97, 8), SHORT_PATH])
    ensures HasHeader(TextOf(buf)) && CopiedFiles(buf, regular) == Some([Deep(97, 8)])
  {
    hide Deep, Holds, HasHeader, CopiedFiles, Encode, HasNoUrl, Listable;
    DeepIsListable(97, 8);
    OnlyTheFirstIsRead(verb, buf, Deep(97, 8), SHORT_PATH, regular);
  }

  lemma OnlyTheFirstIsRead(verb: bytes, buf: bytes, a: bytes, b: bytes, regular: set<bytes>)
    requires Listable(a) && HasNoUrl(a) && MAX_FILE_NAME_LEN < |Encode(a)| <= MAX_URL_LEN
    requires a in regular && Holds(verb, buf, [a, b])
    ensures HasHeader(TextOf(buf)) && CopiedFiles(buf, regular) == Some([a])
  {
    hide Decode, CStr, NamesFrom, Terminated, HasHeader, Entry, HasNoUrl, Holds, Regular, Prepared, NamesIn;
    var paths := [a, b];
    ReadOfList(FilesOnly, verb, buf, paths);
    EntryIsWhole(a);
    DecodedEntry(a);
    LongEntryEndsTheList(FilesOnly, true, Prepared(buf), Start(buf), paths);
    NamesOfOne(FilesOnly, true, Entry(a));
    assert CStr(a) == a;
    assert forall n :: n in [a] ==> n in regular;
  }

  /**
    * A path of 1536 bytes, six components of 255 spaces, has a URL of 4603 bytes, which the writer cuts: even a list of
    * this one path is not read back.
    */
  lemma CutUrlIsLost(verb: bytes, buf: bytes, regular: set<bytes>)
    requires Deep(32, 6) in regular && Holds(verb, buf, [Deep(32, 6)])
    ensures HasHeader(TextOf(buf)) && CopiedFiles(buf, regular) != Some([Deep(32, 6)])
  {
    hide Deep, Holds, HasHeader, CopiedFiles, Encode, HasNoUrl, Listable;
    DeepIsListable(32, 6);
    assert |EncodeByte(32)| == 3;
    var paths := [Deep(32, 6)];
    assert !UrlsFit(paths) by { assert |Encode(paths[0])| > MAX_URL_LEN; }
    CutListRoundTripIff(verb, buf, paths, regular);
  }

  /** "copy", a newline and the bare prefix: the decoder reads behind the buffer. */
  lemma BareListRunsOff()
    ensures var buf := COPY + [LF] + PREFIX + [NUL];
            HasHeader(TextOf(buf)) && NamesIn(FilesOnly, buf) == None && EndsBare(buf)
  {
    hide CStr, DecodeAt, Split, Cut;
    var buf := COPY + [LF] + PREFIX + [NUL];
    CStrAt(COPY + [LF] + PREFIX, buf);
    BareListText(buf);
    SplitClean(LF, PREFIX);
    assert Cut(PREFIX) == PREFIX;
    var next := Prepared(buf);
    assert next[5..] == PREFIX + [NUL];
    BareString(next[5..]);
    assert NUL in next[5..] by { assert next[5..][7] == NUL; }
    NoOverrun(next, 5);
    NamesStep(FilesOnly, true, next, 5, 1);
  }

  lemma BareListText(buf: bytes)
    requires TextOf(buf) == COPY + [LF] + PREFIX
    ensures HasHeader(TextOf(buf)) && Start(buf) == 5 && Body(TextOf(buf)) == PREFIX
  {
    var text := TextOf(buf);
    assert text[4] == LF && text[..4] == COPY;
    LineEnds(text, 4);
    assert text[5..] == PREFIX;
  }
}
