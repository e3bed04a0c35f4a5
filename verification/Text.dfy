/** Sending and receiving clipboard text: get_text and send_text of src/proto/methods.c. */
module Text {
  import opened Bytes
  import opened Common
  import opened NetUtils
  import Eol
  import Utf8
  import Send

  // ---------------------------------------------------------------- what is sent and stored

  /** The text as it goes out: with LF line endings, if there is one and the clipboard holds no more than allowed. */
  function Offered(clip: Option<bytes>, maxLen: nat): Option<bytes> {
    match clip
    case None => None
    case Some(s) =>
      if s == [] || |s| > maxLen || Eol.ToLf(CStr(s)) == [] then None else Some(Eol.ToLf(CStr(s)))
  }

  /** A text is offered exactly if the clipboard holds one within the limit that does not begin with a NUL. */
  lemma OfferedIff(clip: Option<bytes>, maxLen: nat)
    ensures Offered(clip, maxLen).Some? <==>
              clip.Some? && 0 < |clip.value| <= maxLen && clip.value[0] != NUL
    ensures Offered(clip, maxLen).Some? ==>
              IsConverted(CStr(clip.value), Offered(clip, maxLen).value)
  {
    if clip.Some? { ConvertedLf(clip.value); }
  }

  /** Nothing but CRs is missing, one for each CR LF pair. */
  predicate IsConverted(s: bytes, t: bytes) {
    Eol.WithoutCrs(t) == Eol.WithoutCrs(s) && |t| == |s| - |Eol.Pairs(s)|
  }

  lemma ConvertedLf(s: bytes)
    ensures IsConverted(CStr(s), Eol.ToLf(CStr(s)))
    ensures Eol.ToLf(CStr(s)) == [] <==> CStr(s) == []
  {
    hide CStr, Eol.WithoutCrs, Eol.Pairs;
    Eol.OneCrLessForEachPair(CStr(s));
    Eol.OnlyCrsChange(CStr(s));
    LfOfSomething(CStr(s));
  }

  /** A length and that many bytes. */
  function Sized(data: bytes): bytes { EncodeSize(|data|) + data }

  function Answer(text: Option<bytes>): bytes {
    match text
    case None => [STATUS_NO_DATA]
    case Some(t) => [STATUS_OK] + Sized(t)
  }

  datatype Announced = Nothing | Text(data: bytes, rest: bytes)

  /** The announced text, if its length is allowed and all of it arrives. */
  function ReadText(stream: bytes, maxLen: nat): (r: Announced)
    ensures r.Text? ==> r.data != [] && |r.data| <= maxLen && 8 <= |stream| && stream[8..] == r.data + r.rest
    ensures r.Text? ==> |r.data| == DecodeSize(stream[..8])
  {
    if |stream| < 8 then Nothing
    else
      var n := DecodeSize(stream[..8]);
      if n <= 0 || n > maxLen || |stream| - 8 < n then Nothing else Text(stream[8..8 + n], stream[8 + n..])
  }

  /** What goes to the clipboard: nothing unless the bytes are UTF-8, and LF line endings. */
  function Stored(data: bytes): Option<bytes> {
    if Utf8.WellFormed(data) && Eol.ToLf(CStr(data)) != [] then Some(Eol.ToLf(CStr(data))) else None
  }

  /** What is stored is never empty, holds no NUL, and is UTF-8. */
  lemma StoredIsText(data: bytes)
    requires Stored(data).Some?
    ensures Stored(data).value != [] && NUL !in Stored(data).value && Utf8.WellFormed(Stored(data).value)
  {
    Eol.StoredTextIsWellFormed(data);
    Eol.LfIsNulFree(CStr(data));
  }

  lemma LfOfSomething(s: bytes)
    ensures Eol.ToLf(s) == [] <==> s == []
  {
    if s != [] && s[0] == CR && |s| > 1 && s[1] == LF {
      assert s[1..][0] == LF;
    }
  }

  /** Received bytes are stored exactly if they are UTF-8 and do not begin with a NUL. */
  lemma StoredIff(data: bytes)
    requires data != []
    ensures Stored(data).Some? <==> Utf8.WellFormed(data) && data[0] != NUL
    ensures Stored(data).Some? ==> IsConverted(CStr(data), Stored(data).value)
  {
    ConvertedLf(data);
  }

  /**
    * A text that one server offers and another one receives is stored unchanged, exactly if the clipboard text
    * has no CR CR LF: the line endings are converted once at each end.
    */
  lemma TextRoundTrip(clip: bytes, maxLen: nat, rest: bytes)
    requires Offered(Some(clip), maxLen).Some? && Utf8.WellFormed(CStr(clip)) && IsInt64(maxLen)
    ensures ReadText(Answer(Offered(Some(clip), maxLen))[1..] + rest, maxLen)
            == Text(Offered(Some(clip), maxLen).value, rest)
    ensures Stored(Offered(Some(clip), maxLen).value) == Some(Eol.ToLf(Offered(Some(clip), maxLen).value))
    ensures Stored(Offered(Some(clip), maxLen).value) == Offered(Some(clip), maxLen) <==> !Eol.HasCrCrlf(CStr(clip))
  {
    hide Eol.ToLf, EncodeSize, DecodeSize, Utf8.WellFormed, CStr;
    var t := Offered(Some(clip), maxLen).value;
    SizedIsRead(t, maxLen, rest);
    assert Answer(Some(t))[1..] == Sized(t);
    Eol.ConversionsKeepUtf8(CStr(clip));
    Eol.LfIsNulFree(CStr(clip));
    Eol.LfIdempotentIff(CStr(clip));
    LfOfSomething(t);
  }

  lemma SizedIsRead(t: bytes, maxLen: nat, rest: bytes)
    requires t != [] && |t| <= maxLen && IsInt64(maxLen)
    ensures ReadText(Sized(t) + rest, maxLen) == Text(t, rest)
  {
    hide EncodeSize, DecodeSize;
    var stream := Sized(t) + rest;
    SizeRoundTrip(|t|);
    assert stream[..8] == EncodeSize(|t|);
    assert stream[8..8 + |t|] == t && stream[8 + |t|..] == rest;
  }

  /** A lone continuation byte, and a text that begins with a NUL, are read and acknowledged like any other text. */
  lemma AcknowledgedAndDropped(maxLen: nat, rest: bytes)
    requires 2 <= maxLen && IsInt64(maxLen)
    ensures ReadText(Sized([0x80]) + rest, maxLen) == Text([0x80], rest) && Stored([0x80]) == None
    ensures ReadText(Sized([NUL, 97]) + rest, maxLen) == Text([NUL, 97], rest) && Stored([NUL, 97]) == None
  {
    hide Sized, ReadText, Eol.ToLf, CStr;
    var lone: bytes, empty: bytes := [0x80], [NUL, 97];
    SizedIsRead(lone, maxLen, rest);
    SizedIsRead(empty, maxLen, rest);
    StoredIff(lone);
    StoredIff(empty);
  }

  // ---------------------------------------------------------------- the code

  /** convert_eol on a buffer, as a text. */
  method ConvertBuffer(s: bytes) returns (t: bytes)
    ensures t == Eol.ToLf(CStr(s))
  {
    var buf := BufferOf(s);
    CStrStops(s, [NUL]);
    var len := Eol.ConvertToLf(buf);
    t := buf[..len];
  }

  /** STATUS_OK and a block of data. */
  method SendAnswer(sock: Socket, data: bytes) returns (ok: bool)
    requires IsInt64(|data|)
    modifies sock`sent, sock`calls
    ensures ok ==> sock.sent == old(sock.sent) + Answer(Some(data))
    ensures old(sock.sent) <= sock.sent <= old(sock.sent) + Answer(Some(data))
    ensures sock.open && sock.Reliable() ==> ok
  {
    hide EncodeSize, Answer;
    ghost var before := sock.sent;
    AnswerIs(before, data);
    ok := sock.WriteSock([STATUS_OK]);
    if !ok { return false; }
    ok := Send.SendData(sock, data);
  }

  lemma AnswerIs(before: bytes, data: bytes)
    requires IsInt64(|data|)
    ensures before + [STATUS_OK] + EncodeSize(|data|) + data == before + Answer(Some(data))
    ensures before + [STATUS_OK] <= before + Answer(Some(data))
  {
    hide EncodeSize;
    assert before + [STATUS_OK] + Sized(data) == before + ([STATUS_OK] + Sized(data));
    assert before + [STATUS_OK] + EncodeSize(|data|) + data == before + [STATUS_OK] + Sized(data);
  }

  /** get_text_v1 */
  method GetTextV1(sock: Socket, clip: Option<bytes>, maxLen: nat) returns (ok: bool)
    requires maxLen <= 0xFFFF_FFFF
    modifies sock`sent, sock`calls, sock`open
    ensures old(sock.sent) <= sock.sent <= old(sock.sent) + Answer(Offered(clip, maxLen))
    ensures ok ==>
              Offered(clip, maxLen).Some?
              && sock.sent == old(sock.sent) + Answer(Offered(clip, maxLen)) && sock.open == old(sock.open)
    ensures old(sock.open) && sock.Reliable() ==>
              sock.sent == old(sock.sent) + Answer(Offered(clip, maxLen)) && (ok <==> Offered(clip, maxLen).Some?)
  {
    hide Eol.ToLf, EncodeSize;
    if clip.None? || |clip.value| == 0 || |clip.value| > maxLen {
      ok := sock.WriteSock([STATUS_NO_DATA]);
      sock.open := false;
      return false;
    }
    var t := ConvertBuffer(clip.value);
    if t == [] {
      ok := sock.WriteSock([STATUS_NO_DATA]);
      return false;
    }
    ok := SendAnswer(sock, t);
  }

  /** The text is the converted, well-formed content of a block whose length is within the limit. */
  ghost predicate IsReceivedText(stream: bytes, maxLen: nat, text: bytes) {
    && |stream| >= 8
    && var n := DecodeSize(stream[..8]);
    && 0 < n <= maxLen && n <= |stream| - 8 && stream[8] != NUL
    && Utf8.WellFormed(stream[8..8 + n]) && IsConverted(CStr(stream[8..8 + n]), text)
  }

  lemma StoredIsReceived(stream: bytes, maxLen: nat)
    requires ReadText(stream, maxLen).Text? && Stored(ReadText(stream, maxLen).data).Some?
    ensures IsReceivedText(stream, maxLen, Stored(ReadText(stream, maxLen).data).value)
  {
    hide DecodeSize, IsConverted, Stored, Utf8.WellFormed;
    StoredIff(ReadText(stream, maxLen).data);
  }

  /** _read_ack */
  method ReadAck(sock: Socket) returns (ok: bool)
    modifies sock`incoming, sock`calls
    ensures ok ==> old(sock.incoming) != [] && old(sock.incoming)[0] == ACK && sock.incoming == old(sock.incoming)[1..]
    ensures sock.open && sock.Reliable() && old(sock.incoming) != [] && old(sock.incoming)[0] == ACK ==> ok
  {
    var status;
    ok, status := sock.ReadBytes(1);
    if !ok || status[0] != ACK { return false; }
  }

  /**
    * _send_text_common. The acknowledgement of version 4 is sent only after the whole announced text was read, but
    * before the text is looked at: text that is not UTF-8 is acknowledged and dropped.
    */
  method SendTextCommon(sock: Socket, version: nat, maxLen: nat, allocates: bool) returns (ok: bool, put: Option<bytes>)
    modifies sock
    ensures old(sock.sent) <= sock.sent <= old(sock.sent) + [STATUS_OK, ACK]
    ensures |sock.sent| > |old(sock.sent)| + 1 ==> version >= 4
    ensures |sock.sent| > |old(sock.sent)| + 1 || put.Some? ==>
              ReadText(old(sock.incoming), maxLen).Text? && sock.incoming == ReadText(old(sock.incoming), maxLen).rest
    ensures put.Some? <==> ok
    ensures ok ==> put == Stored(ReadText(old(sock.incoming), maxLen).data)
    ensures put.Some? ==> IsReceivedText(old(sock.incoming), maxLen, put.value)
    ensures ok ==> sock.sent == old(sock.sent) + (if version >= 4 then [STATUS_OK, ACK] else [STATUS_OK])
    ensures old(sock.open) && sock.Reliable() && allocates && ReadText(old(sock.incoming), maxLen).Text? ==>
              put == Stored(ReadText(old(sock.incoming), maxLen).data)
    ensures old(sock.open) && sock.Reliable() && allocates ==>
              sock.sent == old(sock.sent)
                + if version >= 4 && ReadText(old(sock.incoming), maxLen).Text? then [STATUS_OK, ACK] else [STATUS_OK]
  {
    hide Eol.ToLf, DecodeSize, Utf8.WellFormed, CStr, IsReceivedText;
    put := None;
    ok := sock.WriteSock([STATUS_OK]);
    if !ok { return; }
    var length, data;
    ok, length := sock.ReadSize();
    if !ok || length <= 0 || length > maxLen || !allocates { return false, None; }
    ok, data := sock.ReadBytes(length);
    if !ok { return; }
    assert ReadText(old(sock.incoming), maxLen) == Text(data, sock.incoming) by {
      assert data == old(sock.incoming)[8..8 + length];
      assert sock.incoming == old(sock.incoming)[8 + length..];
    }
    if version >= 4 {
      ok := sock.WriteSock([ACK]);
      if !ok { return; }
    }
    sock.open := false;
    if !Utf8.WellFormed(data) { return false, None; }
    var t := ConvertBuffer(data);
    if t == [] { return false, None; }
    ok, put := true, Some(t);
    StoredIsReceived(old(sock.incoming), maxLen);
  }
}
