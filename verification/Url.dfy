/** Percent encoding of file URLs: src/utils/utils.c, lines 932 to 1024. */
module Url {
  import opened Bytes

  const PERCENT: byte := 37

  /** "file://" */
  const PREFIX: bytes := [102, 105, 108, 101, 58, 47, 47]

  // ---------------------------------------------------------------- what the codec means

  /** Characters the encoder leaves alone. */
  predicate Plain(c: byte) {
    || (97 <= c <= 122)  // a to z
    || (64 <= c <= 90)   // @ and A to Z
    || (38 <= c <= 58)   // & to :, with the digits
    || c in {95, 61, 33, 126}  // _ = ! ~
  }

  function HexDigit(n: nat): (c: byte)
    requires n < 16
    ensures HexValue(c) == n && Plain(c)
  {
    if n < 10 then 48 + n else 55 + n
  }

  /** hex2char */
  function HexValue(c: byte): (v: int)
    ensures -1 <= v < 16
  {
    if 48 <= c <= 57 then c - 48
    else if 65 <= c <= 70 then c - 55
    else if 97 <= c <= 102 then c - 87
    else -1
  }

  function EncodeByte(c: byte): bytes {
    if Plain(c) then [c] else [PERCENT, HexDigit(c / 16), HexDigit(c % 16)]
  }

  function EncodeAll(s: bytes): bytes {
    if s == [] then [] else EncodeByte(s[0]) + EncodeAll(s[1..])
  }

  function Encode(s: bytes): bytes { PREFIX + EncodeAll(s) }

  /** a to z, @ and A to Z, & to :, and _ = ! ~ go as they are; a question mark, a space or a percent sign do not. */
  lemma EncodedByteIs(c: byte)
    ensures 97 <= c <= 122 || 64 <= c <= 90 || 38 <= c <= 58 || c in {95, 61, 33, 126} <==> EncodeByte(c) == [c]
    ensures EncodeByte(c) != [c] ==>
              |EncodeByte(c)| == 3 && EncodeByte(c)[0] == 37
              && (forall i :: 1 <= i <= 2 ==> 48 <= EncodeByte(c)[i] <= 57 || 65 <= EncodeByte(c)[i] <= 70)
              && HexValue(EncodeByte(c)[1]) == c / 16 && HexValue(EncodeByte(c)[2]) == c % 16
  {
  }

  /** Nothing else is in a URL, apart from the percent signs. */
  lemma UrlAlphabet(s: bytes)
    ensures forall c :: c in Encode(s) ==>
              97 <= c <= 122 || 64 <= c <= 90 || 38 <= c <= 58 || c in {95, 61, 33, 126, 37}
  {
    hide EncodeAll;
    EncodeAllIsClean(s);
  }

  /** The length tells how many bytes were escaped. */
  lemma {:induction false} EscapedCount(s: bytes)
    ensures |Encode(s)| == 7 + |s| + 2 * Escaped(s)
    decreases s
  {
    if s != [] {
      EscapedCount(s[1..]);
      EncodedByteIs(s[0]);
    }
  }

  /** The number of bytes that are not written as they are. */
  function Escaped(s: bytes): nat {
    if s == [] then 0
    else
      var c := s[0];
      Escaped(s[1..])
      + if 97 <= c <= 122 || 64 <= c <= 90 || 38 <= c <= 58 || c in {95, 61, 33, 126} then 0 else 1
  }

  /** A triplet %XY stands for one byte; anything else for itself. */
  function DecodeAll(u: bytes): (r: Option<bytes>)
    ensures r.Some? ==> |r.value| <= |u|
  {
    if u == [] then Some([])
    else if u[0] != PERCENT then Prepend(u[0], DecodeAll(u[1..]))
    else if |u| < 3 || HexValue(u[1]) < 0 || HexValue(u[2]) < 0 then None
    else Prepend(HexValue(u[1]) * 16 + HexValue(u[2]), DecodeAll(u[3..]))
  }

  function Prepend(c: byte, r: Option<bytes>): Option<bytes> {
    match r
    case None => None
    case Some(s) => Some([c] + s)
  }

  function Decode(u: bytes): Option<bytes> {
    if PREFIX <= u then DecodeAll(u[7..]) else None
  }

  // ---------------------------------------------------------------- the laws

  lemma DecodeOfEncodedByte(c: byte, rest: bytes)
    ensures DecodeAll(EncodeByte(c) + rest) == Prepend(c, DecodeAll(rest))
  {
    var u := EncodeByte(c) + rest;
    if Plain(c) {
      assert u[1..] == rest;
    } else {
      assert u[0] == PERCENT && u[1] == HexDigit(c / 16) && u[2] == HexDigit(c % 16) && u[3..] == rest;
    }
  }

  lemma {:induction false} DecodeOfEncodeAll(s: bytes)
    ensures DecodeAll(EncodeAll(s)) == Some(s)
  {
    if s != [] {
      DecodeOfEncodeAll(s[1..]);
      DecodeOfEncodedByte(s[0], EncodeAll(s[1..]));
      assert [s[0]] + s[1..] == s;
    }
  }

  /** Decoding an encoded path gives the path back. */
  lemma UrlRoundTrip(s: bytes)
    ensures Decode(Encode(s)) == Some(s)
  {
    DecodeOfEncodeAll(s);
    assert Encode(s)[7..] == EncodeAll(s);
  }

  /** 0 to 9, A to F or a to f. */
  predicate IsHex(c: byte) { 48 <= c <= 57 || 65 <= c <= 70 || 97 <= c <= 102 }

  /** The digits count from 0 to 15, and capitals and small letters are the same. */
  lemma HexValueIs(c: byte)
    ensures HexValue(c) >= 0 <==> IsHex(c)
    ensures HexValue(48) == 0 && (48 < c <= 57 || 65 < c <= 70 ==> HexValue(c) == HexValue(c - 1) + 1)
    ensures HexValue(65) == 10 && (97 <= c <= 102 ==> HexValue(c) == HexValue(c - 32))
  {
  }

  /** Every percent sign has two digits after it. */
  ghost predicate GoodEscapes(u: bytes) {
    forall i :: 0 <= i < |u| && u[i] == PERCENT ==> GoodEscape(u, i)
  }

  predicate GoodEscape(u: bytes, i: nat) {
    i + 2 < |u| && IsHex(u[i + 1]) && IsHex(u[i + 2])
  }

  function Percents(u: bytes): nat {
    if u == [] then 0 else (if u[0] == PERCENT then 1 else 0) + Percents(u[1..])
  }

  lemma EscapesFrom(u: bytes, k: nat)
    requires k <= |u| && (k == 1 ==> u[0] != PERCENT) && k <= 3
    requires k > 1 ==> k == 3 && GoodEscape(u, 0) && u[0] == PERCENT
    ensures GoodEscapes(u) <==> GoodEscapes(u[k..])
    ensures Percents(u) == Percents(u[k..]) + if k == 3 then 1 else 0
  {
    forall i | 0 <= i < |u| - k ensures GoodEscape(u[k..], i) == GoodEscape(u, i + k) && u[k..][i] == u[i + k] {}
    forall i | k <= i < |u| ensures u[k..][i - k] == u[i] {}
    if k == 3 {
      assert u[1..][1..] == u[2..] && u[2..][1..] == u[3..];
      assert Percents(u[1..]) == Percents(u[2..]) == Percents(u[3..]);
    } else if k == 0 {
      assert u[0..] == u;
    }
  }

  /** What follows the prefix is decoded exactly if every percent sign has two digits, and each triplet gives a byte. */
  lemma {:induction false} DecodedIff(u: bytes)
    ensures DecodeAll(u).Some? <==> GoodEscapes(u)
    ensures DecodeAll(u).Some? ==> |DecodeAll(u).value| == |u| - 2 * Percents(u)
  {
    if u != [] {
      HexValueIs(u[0]);
      if u[0] != PERCENT {
        EscapesFrom(u, 1);
        DecodedIff(u[1..]);
      } else {
        assert GoodEscapes(u) ==> GoodEscape(u, 0);
        if GoodEscape(u, 0) {
          EscapesFrom(u, 3);
          DecodedIff(u[3..]);
        }
      }
    }
  }

  lemma {:induction false} EncodeAllIsClean(s: bytes)
    ensures forall c :: c in EncodeAll(s) ==> Plain(c) || c == PERCENT
    ensures |s| <= |EncodeAll(s)| <= 3 * |s|
  {
    if s != [] { EncodeAllIsClean(s[1..]); }
  }

  /** A URL has no newline and no NUL, so newlines can separate URLs and a NUL can end them. */
  lemma UrlIsClean(s: bytes)
    ensures LF !in Encode(s) && NUL !in Encode(s) && 7 + |s| <= |Encode(s)| <= 7 + 3 * |s|
  {
    EncodeAllIsClean(s);
  }

  lemma {:induction false} EncodeAllSnoc(s: bytes, c: byte)
    ensures EncodeAll(s + [c]) == EncodeAll(s) + EncodeByte(c)
  {
    hide EncodeByte;
    if s == [] {
      EncodeAllCons(c, []);
      assert s + [c] == [c] + [];
    } else {
      EncodeAllSnoc(s[1..], c);
      EncodeAllCons(s[0], s[1..] + [c]);
      assert s + [c] == [s[0]] + (s[1..] + [c]);
    }
  }

  lemma EncodeAllCons(c: byte, s: bytes)
    ensures EncodeAll([c] + s) == EncodeByte(c) + EncodeAll(s)
  {
    assert ([c] + s)[1..] == s;
  }

  /** The encoding of one more character. */
  lemma EncodedSoFar(s: bytes, i: nat)
    requires i < |s|
    ensures EncodeAll(s[..i + 1]) == EncodeAll(s[..i]) + EncodeByte(s[i])
    ensures PREFIX + EncodeAll(s[..i + 1]) == (PREFIX + EncodeAll(s[..i])) + EncodeByte(s[i])
    ensures |EncodeAll(s[..i + 1])| <= |EncodeAll(s)|
  {
    hide EncodeAll, EncodeByte;
    assert s[..i + 1] == s[..i] + [s[i]];
    EncodeAllSnoc(s[..i], s[i]);
    EncodeAllPrefix(s, i + 1);
    assert (PREFIX + EncodeAll(s[..i])) + EncodeByte(s[i]) == PREFIX + (EncodeAll(s[..i]) + EncodeByte(s[i]));
  }

  // ---------------------------------------------------------------- the code

  /** The first pass of url_encode: the length of the buffer, prefix and terminator included. */
  method CountUrl(str: bytes) returns (urlLen: nat)
    ensures urlLen == |Encode(str)| + 1
  {
    urlLen := 8;
    for i := 0 to |str|
      invariant urlLen == 8 + |EncodeAll(str[..i])|
    {
      assert str[..i + 1] == str[..i] + [str[i]];
      EncodeAllSnoc(str[..i], str[i]);
      if Plain(str[i]) { urlLen := urlLen + 1; } else { urlLen := urlLen + 3; }
    }
    assert str[..|str|] == str;
  }

  lemma NothingEncoded()
    ensures EncodeAll([]) == []
  {
  }

  /** url_encode: the second pass fills the buffer that the first pass sized, to the last byte. */
  method UrlEncode(str: bytes) returns (url: array<byte>, len: nat)
    ensures fresh(url) && url.Length == len + 1
    ensures url[..] == Encode(str) + [NUL]
  {
    hide EncodeAll, EncodeByte;
    var urlLen := CountUrl(str);
    NothingEncoded();
    url := new byte[urlLen];
    forall i | 0 <= i < 7 { url[i] := PREFIX[i]; }
    var p := 7;
    assert str[..0] == [] && url[..7] == PREFIX + [];
    for i := 0 to |str|
      invariant p == 7 + |EncodeAll(str[..i])| < url.Length
      invariant url[..p] == PREFIX + EncodeAll(str[..i])
    {
      EncodedSoFar(str, i);
      p := PutEncoded(url, p, str[i]);
    }
    assert str[..|str|] == str;
    url[p] := NUL;
    assert url[..p] + [NUL] == url[..];
    return url, urlLen - 1;
  }

  /** One character of the second pass. */
  method PutEncoded(url: array<byte>, p: nat, c: byte) returns (next: nat)
    requires p + |EncodeByte(c)| <= url.Length
    modifies url
    ensures next == p + |EncodeByte(c)|
    ensures url[..next] == old(url[..p]) + EncodeByte(c)
  {
    if Plain(c) {
      url[p] := c;
      next := p + 1;
    } else {
      url[p] := PERCENT;
      url[p + 1] := HexDigit(c / 16);
      url[p + 2] := HexDigit(c % 16);
      next := p + 3;
    }
  }

  lemma {:induction false} EncodeAllPrefix(s: bytes, i: nat)
    requires i <= |s|
    ensures |EncodeAll(s[..i])| <= |EncodeAll(s)|
    decreases |s| - i
  {
    if i < |s| {
      assert s[..i + 1] == s[..i] + [s[i]];
      EncodeAllSnoc(s[..i], s[i]);
      EncodeAllPrefix(s, i + 1);
    } else {
      assert s[..i] == s;
    }
  }

  /** `u` is the C string that starts at index `at` of the buffer. */
  predicate StringAt(buf: bytes, at: nat, u: bytes) {
    NUL !in u && at + |u| < |buf| && buf[at..at + |u|] == u && buf[at + |u|] == NUL
  }

  /** The decoded prefix `done` and the text `u` still to be decoded, put together. */
  function Joined(done: bytes, u: bytes): Option<bytes> {
    match DecodeAll(u)
    case None => None
    case Some(s) => Some(done + s)
  }

  /** What url_decode does to the string at a position; Overrun is a read behind the buffer. */
  datatype Decoded = NotUrl | Overrun | Path(path: bytes)

  /**
    * The loop copies one byte before it looks for the terminator. If nothing follows the prefix, this byte is the
    * terminator itself, and the loop goes on with the string behind it, if there is one.
    */
  function DecodeAt(buf: bytes, at: nat): (r: Decoded)
    requires at < |buf| && NUL in buf[at..]
    ensures r.Path? ==> at + |r.path| < |buf|
  {
    var u := CStr(buf[at..]);
    if u != PREFIX then FromOption([], Decode(u))
    else if NUL !in buf[at + 8..] then Overrun
    else FromOption([NUL], DecodeAll(CStr(buf[at + 8..])))
  }

  function FromOption(front: bytes, r: Option<bytes>): Decoded {
    match r
    case None => NotUrl
    case Some(s) => Path(front + s)
  }

  /** Any string but the bare prefix is decoded by itself. */
  lemma DecodeAtWhole(buf: bytes, at: nat)
    requires at < |buf| && NUL in buf[at..] && CStr(buf[at..]) != PREFIX
    ensures DecodeAt(buf, at) == match Decode(CStr(buf[at..])) { case None => NotUrl case Some(s) => Path(s) }
  {
    hide CStr, Decode;
    assert forall s: bytes :: [] + s == s;
  }

  /** The bare prefix takes the string behind it. */
  lemma DecodeAtBare(buf: bytes, at: nat)
    requires at + 8 < |buf| && NUL in buf[at..] && NUL in buf[at + 8..] && CStr(buf[at..]) == PREFIX
    ensures DecodeAt(buf, at) == FromOption([NUL], DecodeAll(CStr(buf[at + 8..])))
  {
    hide CStr, DecodeAll;
  }

  /** The buffer after the decoded text and its terminator were written at `pos`. */
  function Overwrite(buf: bytes, pos: nat, s: bytes): (r: bytes)
    requires pos + |s| < |buf|
    ensures |r| == |buf|
  {
    buf[..pos] + s + [NUL] + buf[pos + |s| + 1..]
  }

  lemma OverwriteIs(before: bytes, after: bytes, pos: nat, s: bytes)
    requires pos + |s| < |before| == |after|
    requires after[pos..pos + |s|] == s && after[pos + |s|] == NUL
    requires forall k :: 0 <= k < pos || pos + |s| < k < |before| ==> after[k] == before[k]
    ensures after == Overwrite(before, pos, s)
  {
  }

  lemma StringThere(buf: bytes, at: nat)
    requires at < |buf| && NUL in buf[at..]
    ensures StringAt(buf, at, CStr(buf[at..]))
  {
    hide CStr;
    var u := CStr(buf[at..]);
    assert buf[at..at + |u|] == buf[at..][..|u|] == u;
    assert buf[at + |u|] == buf[at..][|u|];
  }

  /** url_decode, in place, in a buffer that ends with a terminator. */
  method UrlDecode(buf: array<byte>, at: nat) returns (ok: bool, overrun: bool, len: nat)
    requires at < buf.Length && buf[buf.Length - 1] == NUL
    modifies buf
    ensures NUL in old(buf[at..])
    ensures overrun <==> DecodeAt(old(buf[..]), at).Overrun?
    ensures overrun ==> at + 8 == buf.Length && old(buf[at..]) == PREFIX + [NUL]
    ensures ok <==> DecodeAt(old(buf[..]), at).Path?
    ensures ok ==> len == |DecodeAt(old(buf[..]), at).path| && at + len < buf.Length
    ensures ok ==> buf[..] == Overwrite(old(buf[..]), at, DecodeAt(old(buf[..]), at).path)
  {
    hide Decode, DecodeAll, DecodeAt, CStr, StringAt, Overwrite;
    ghost var before := buf[..];
    NulIsAhead(before, at);
    StringThere(before, at);
    ghost var u := CStr(buf[at..]);
    assert buf[at..] == before[at..];
    ok, overrun, len := false, false, 0;
    PrefixOnly(before, at, u);
    if u != PREFIX { DecodeAtWhole(before, at); }
    var isUrl := HasPrefix(buf, at, u);
    if !isUrl { return; }
    if buf[at + 7] == NUL {
      ok, overrun, len := DecodeBehind(buf, at);
      return;
    }
    StringMeans(before, at, u);
    ok, len := DecodeLoop(buf, at, u);
    if ok { OverwriteIs(before, buf[..], at, Decode(u).value); }
  }

  lemma NulIsAhead(buf: bytes, at: nat)
    requires at < |buf| && buf[|buf| - 1] == NUL
    ensures NUL in buf[at..]
  {
    assert buf[at..][|buf| - 1 - at] == NUL;
  }

  lemma StringMeans(buf: bytes, at: nat, u: bytes)
    requires StringAt(buf, at, u) && PREFIX <= u && u != PREFIX
    ensures |u| > 7 && NUL !in u && at + |u| < |buf| && buf[at + 7..at + |u|] == u[7..] && buf[at + |u|] == NUL
    ensures DecodeAll(u[7..]) == Decode(u)
  {
    hide DecodeAll;
    assert buf[at..at + |u|][7..] == buf[at + 7..at + |u|];
  }

  /** Where the string is the bare prefix, its terminator comes right after it. */
  lemma PrefixOnly(buf: bytes, at: nat, u: bytes)
    requires StringAt(buf, at, u)
    ensures PREFIX <= u ==> at + 7 < |buf| && (buf[at + 7] == NUL <==> u == PREFIX)
    ensures !(PREFIX <= u) ==> Decode(u) == None && u != PREFIX
  {
    if PREFIX <= u && u != PREFIX {
      assert buf[at..at + |u|][7] == buf[at + 7] && u[7] in u;
    }
  }

  /** The loop on the bare prefix: it copies the terminator and goes on behind it. */
  method DecodeBehind(buf: array<byte>, at: nat) returns (ok: bool, overrun: bool, len: nat)
    requires at + 8 <= buf.Length && buf[buf.Length - 1] == NUL && NUL in buf[at..] && CStr(buf[at..]) == PREFIX
    modifies buf
    ensures overrun <==> DecodeAt(old(buf[..]), at).Overrun?
    ensures overrun ==> at + 8 == buf.Length && old(buf[at..]) == PREFIX + [NUL]
    ensures ok <==> DecodeAt(old(buf[..]), at).Path?
    ensures ok ==> len == |DecodeAt(old(buf[..]), at).path|
    ensures ok ==> buf[..] == Overwrite(old(buf[..]), at, DecodeAt(old(buf[..]), at).path)
  {
    hide DecodeAll, DecodeAt, CStr, Overwrite, StringAt;
    ghost var before := buf[..];
    assert buf[at..] == before[at..];
    if at + 8 == buf.Length {
      BareAtEnd(before, at);
      return false, true, 0;
    }
    NulIsAhead(before, at + 8);
    DecodeAtBare(before, at);
    StringThere(before, at + 8);
    ghost var v := CStr(before[at + 8..]);
    buf[at] := NUL;
    ok, len := DecodeNext(buf, at, before, v);
    overrun := false;
  }

  /** The turns after the first one. */
  method DecodeNext(buf: array<byte>, at: nat, ghost before: bytes, ghost v: bytes) returns (ok: bool, len: nat)
    requires at + 8 < |before| && buf[..] == before[at := NUL] && StringAt(before, at + 8, v)
    modifies buf
    ensures ok <==> DecodeAll(v).Some?
    ensures ok ==> len == 1 + |DecodeAll(v).value| && at + len < |before|
    ensures ok ==> buf[..] == Overwrite(before, at, [NUL] + DecodeAll(v).value)
  {
    hide DecodeAll, Overwrite, StringAt;
    if buf[at + 8] == NUL {
      buf[at + 1] := NUL;
      ok, len := true, 0;
      NothingBehind(before, at + 8, v);
    } else {
      BehindAsUrl(before, buf[..], at, v);
      ok, len := DecodeLoop(buf, at + 1, PREFIX + v);
    }
    len := len + 1;
    if ok { OverwriteBehind(before, buf[..], at, DecodeAll(v).value); }
  }

  lemma BareAtEnd(buf: bytes, at: nat)
    requires at + 8 == |buf| && NUL in buf[at..] && CStr(buf[at..]) == PREFIX
    ensures DecodeAt(buf, at) == Overrun && buf[at..] == PREFIX + [NUL]
  {
    hide CStr, DecodeAll;
    assert buf[at..][..7] == PREFIX && buf[at..][7] == NUL;
  }

  lemma NothingBehind(buf: bytes, at: nat, v: bytes)
    requires StringAt(buf, at, v) && buf[at] == NUL
    ensures v == [] && DecodeAll(v) == Some([])
  {
  }

  lemma BehindAsUrl(before: bytes, after: bytes, at: nat, v: bytes)
    requires StringAt(before, at + 8, v) && after == before[at := NUL] && before[at + 8] != NUL
    ensures var u := PREFIX + v; var from := at + 1;
            |u| > 7 && NUL !in u && from + |u| < |after| && after[from + 7..from + |u|] == u[7..]
            && after[from + |u|] == NUL
    ensures (PREFIX + v)[7..] == v
  {
    assert v != [];
    assert (PREFIX + v)[7..] == v;
  }

  lemma OverwriteBehind(before: bytes, after: bytes, at: nat, d: bytes)
    requires at + 1 + |d| < |before| == |after| && after[at] == NUL
    requires after[at + 1..at + 1 + |d|] == d && after[at + 1 + |d|] == NUL
    requires forall k :: 0 <= k < at || at + 1 + |d| < k < |before| ==> after[k] == before[k]
    ensures after == Overwrite(before, at, [NUL] + d)
  {
    assert after[at..at + 1 + |d|] == [NUL] + d;
    OverwriteIs(before, after, at, [NUL] + d);
  }

  /** The loop of url_decode; what is decoded is `u` without its first seven bytes. */
  method DecodeLoop(buf: array<byte>, at: nat, ghost u: bytes) returns (ok: bool, len: nat)
    requires |u| > 7 && NUL !in u && at + |u| < buf.Length
    requires buf[at + 7..at + |u|] == u[7..] && buf[at + |u|] == NUL
    modifies buf
    ensures ok <==> DecodeAll(u[7..]).Some?
    ensures ok ==> len == |DecodeAll(u[7..]).value| && len + 7 <= |u|
    ensures ok ==> buf[at..at + len] == DecodeAll(u[7..]).value && buf[at + len] == NUL
    ensures ok ==> forall k :: at + len < k < buf.Length ==> buf[k] == old(buf[k])
    ensures forall k :: 0 <= k < at || at + |u| <= k < buf.Length ==> buf[k] == old(buf[k])
  {
    len := 0;
    hide DecodeAll, Joined;
    var w: nat, r: nat := at, at + 7;
    StartDecoding(buf[..], at, u);
    while true
      invariant r < at + |u| && Decoding(buf[..], at, w, r, u)
      invariant forall k :: 0 <= k < at || w <= k < buf.Length ==> buf[k] == old(buf[k])
      decreases at + |u| - r
    {
      var valid, next := DecodeStep(buf, at, w, r, u);
      if !valid { return false, 0; }
      w, r := w + 1, next;
      if buf[r] == NUL { break; }
    }
    AllDecoded(buf[..], at, w, r, u);
    buf[w] := NUL;
    return true, w - at;
  }

  /** The decoder wrote up to `w` and goes on reading at `r`; the write index stays at least 7 behind. */
  ghost predicate Decoding(buf: bytes, at: nat, w: nat, r: nat, u: bytes)
  {
    && at <= w && w + 7 <= r <= at + |u| < |buf| && buf[at + |u|] == NUL
    && buf[r..at + |u|] == u[r - at..]
    && DecodeAll(u[7..]) == Joined(buf[at..w], u[r - at..])
  }

  lemma StartDecoding(buf: bytes, at: nat, u: bytes)
    requires |u| > 7 && at + |u| < |buf| && buf[at + 7..at + |u|] == u[7..] && buf[at + |u|] == NUL
    ensures Decoding(buf, at, at, at + 7, u)
  {
    hide DecodeAll, Joined;
    NothingDone(buf[at..at], u[7..]);
  }

  lemma AllDecoded(buf: bytes, at: nat, w: nat, r: nat, u: bytes)
    requires |u| > 7 && Decoding(buf, at, w, r, u) && r == at + |u|
    ensures DecodeAll(u[7..]) == Some(buf[at..w])
  {
    hide DecodeAll, Joined;
    AllDone(buf[at..w], u[r - at..]);
  }

  /** The body of the loop: decode one character or triplet and store it. */
  method DecodeStep(buf: array<byte>, ghost at: nat, w: nat, r: nat, ghost u: bytes) returns (valid: bool, next: nat)
    requires NUL !in u && r < at + |u| && Decoding(buf[..], at, w, r, u)
    modifies buf
    ensures !valid ==> DecodeAll(u[7..]) == None
    ensures valid ==> r < next && Decoding(buf[..], at, w + 1, next, u)
    ensures valid ==> (next < at + |u| <==> buf[next] != NUL)
    ensures forall k :: 0 <= k < buf.Length && k != w ==> buf[k] == old(buf[k])
  {
    hide DecodeAll, Joined;
    ghost var before := buf[..];
    var c;
    valid, c, next := DecodeOne(buf, r, u[r - at..]);
    NoneStays(buf[at..w], u[r - at..]);
    if valid {
      buf[w] := c;
      StepKeepsDecoding(before, buf[..], at, w, r, next, u, c);
    }
  }

  lemma NoneStays(done: bytes, u: bytes)
    ensures DecodeAll(u) == None ==> Joined(done, u) == None
  {
  }

  lemma StepKeepsDecoding(before: bytes, after: bytes, at: nat, w: nat, r: nat, next: nat, u: bytes, c: byte)
    requires NUL !in u && r < next <= at + |u| && Decoding(before, at, w, r, u) && after == before[w := c]
    requires DecodeAll(u[r - at..]) == Prepend(c, DecodeAll(u[r - at..][next - r..]))
    ensures Decoding(after, at, w + 1, next, u)
    ensures next < at + |u| <==> after[next] != NUL
  {
    hide DecodeAll;
    var done := before[at..w];
    assert u[r - at..][next - r..] == u[next - at..];
    JoinedStep(done, c, u[next - at..]);
    assert after[at..w + 1] == done + [c];
    assert after[next..at + |u|] == before[r..at + |u|][next - r..];
    assert next < at + |u| ==> after[next] == u[next - at];
  }

  lemma AllDone(done: bytes, u: bytes)
    requires u == []
    ensures Joined(done, u) == Some(done)
  {
    assert done + [] == done;
  }

  lemma NothingDone(done: bytes, u: bytes)
    requires done == []
    ensures Joined(done, u) == DecodeAll(u)
  {
    assert forall s: bytes :: done + s == s;
  }

  lemma JoinedStep(done: bytes, c: byte, u: bytes)
    ensures Joined(done + [c], u) == match DecodeAll(u) { case None => None case Some(s) => Some(done + ([c] + s)) }
  {
    assert forall s: bytes :: (done + [c]) + s == done + ([c] + s);
  }

  /** The body of the decoding loop up to the store: one character or one triplet, where `u` is what is left. */
  method DecodeOne(buf: array<byte>, r: nat, ghost u: bytes) returns (valid: bool, c: byte, next: nat)
    requires u != [] && StringAt(buf[..], r, u)
    ensures !valid ==> DecodeAll(u) == None
    ensures valid ==> r < next <= r + |u| && DecodeAll(u) == Prepend(c, DecodeAll(u[next - r..]))
  {
    assert forall k :: 0 <= k < |u| ==> buf[r + k] == u[k];
    c := buf[r];
    next := r + 1;
    if c == PERCENT {
      var c1 := HexValue(buf[r + 1]);
      if c1 < 0 { return false, c, next; }
      var c2 := HexValue(buf[r + 2]);
      if c2 < 0 { return false, c, next; }
      c := c1 * 16 + c2;
      next := r + 3;
    }
    return true, c, next;
  }

  /** strncmp against the prefix, which stops at the terminator. */
  method HasPrefix(buf: array<byte>, at: nat, ghost u: bytes) returns (b: bool)
    requires StringAt(buf[..], at, u)
    ensures b <==> PREFIX <= u
  {
    assert forall k :: 0 <= k < |u| ==> buf[at + k] == u[k];
    var i := 0;
    while i < 7
      invariant 0 <= i <= 7 && PREFIX[..i] <= u
    {
      if buf[at + i] != PREFIX[i] { return false; }
      i := i + 1;
    }
    return true;
  }
}
