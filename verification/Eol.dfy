/** Line-ending conversion inside one buffer: src/utils/utils.c, lines 281 to 366. */
module Eol {
  import opened Bytes
  import Utf8

  // ---------------------------------------------------------------- what the conversions mean

  /** CR is inserted before every LF that no CR precedes; `afterCr` tells what came before `s`. */
  function Expand(afterCr: bool, s: bytes): (r: bytes)
    ensures |r| >= |s|
    decreases s
  {
    if s == [] then [] else Piece(afterCr, s[0]) + Expand(s[0] == CR, s[1..])
  }

  function Piece(afterCr: bool, c: byte): bytes {
    if c == LF && !afterCr then [CR, LF] else [c]
  }

  function ToCrlf(s: bytes): bytes { Expand(false, s) }

  /** The CR of every CR LF pair is dropped. */
  function ToLf(s: bytes): (r: bytes)
    ensures |r| <= |s|
  {
    if s == [] then []
    else if s[0] == CR && |s| > 1 && s[1] == LF then ToLf(s[1..])
    else [s[0]] + ToLf(s[1..])
  }

  /** CR LF occurs somewhere in `s`. */
  predicate HasCrlf(s: bytes) {
    |s| >= 2 && ((s[0] == CR && s[1] == LF) || HasCrlf(s[1..]))
  }

  /** CR CR LF occurs somewhere in `s`. */
  predicate HasCrCrlf(s: bytes) {
    |s| >= 3 && ((s[0] == CR && s[1] == CR && s[2] == LF) || HasCrCrlf(s[1..]))
  }

  // ---------------------------------------------------------------- the algebra

  lemma {:induction false} LfOfExpand(afterCr: bool, s: bytes)
    ensures ToLf(Expand(afterCr, s)) == ToLf(s)
    decreases s
  {
    if s != [] {
      var rest := Expand(s[0] == CR, s[1..]);
      LfOfExpand(s[0] == CR, s[1..]);
      RestOfExpand(s[0], s[1..]);
      if s[0] == LF && !afterCr {
        LfOfPair(rest);
      } else {
        LfOfOne(s[0], rest);
        LfOfOne(s[0], s[1..]);
        assert [s[0]] + s[1..] == s;
      }
    }
  }

  /** After a character, the expansion begins with LF exactly if the text does and the character is a CR. */
  lemma RestOfExpand(c: byte, s: bytes)
    ensures c == CR ==>
              (Expand(true, s) != [] && Expand(true, s)[0] == LF <==> s != [] && s[0] == LF)
  {
  }

  lemma LfOfPair(rest: bytes)
    ensures ToLf([CR, LF] + rest) == [LF] + ToLf(rest)
  {
    assert ([CR, LF] + rest)[1..] == [LF] + rest;
    assert ([LF] + rest)[1..] == rest;
  }

  lemma LfOfOne(c: byte, rest: bytes)
    ensures ToLf([c] + rest) == if c == CR && rest != [] && rest[0] == LF then ToLf(rest) else [c] + ToLf(rest)
  {
    assert ([c] + rest)[1..] == rest;
  }

  /** Contracting an expanded text gives the contraction of the text itself. */
  lemma LfAfterCrlf(s: bytes)
    ensures ToLf(ToCrlf(s)) == ToLf(s)
  {
    LfOfExpand(false, s);
  }

  lemma {:induction false} ExpandTwice(afterCr: bool, s: bytes)
    ensures Expand(afterCr, Expand(afterCr, s)) == Expand(afterCr, s)
    decreases s
  {
    if s != [] {
      ExpandTwice(s[0] == CR, s[1..]);
      ExpandCons(afterCr, s[0], Expand(s[0] == CR, s[1..]));
    }
  }

  lemma ExpandCons(afterCr: bool, c: byte, rest: bytes)
    requires Expand(c == CR, rest) == rest
    ensures Expand(afterCr, Piece(afterCr, c) + rest) == Piece(afterCr, c) + rest
  {
    hide Expand;
    ExpandStep(afterCr, c, rest);
    if c == LF && !afterCr {
      ExpandStep(true, c, rest);
      ExpandStep(afterCr, CR, [c] + rest);
      assert [CR] + ([c] + rest) == [CR, c] + rest;
    }
  }

  lemma ExpandStep(afterCr: bool, c: byte, rest: bytes)
    ensures Expand(afterCr, [c] + rest) == Piece(afterCr, c) + Expand(c == CR, rest)
  {
    assert ([c] + rest)[1..] == rest;
  }

  /** Expanding twice is expanding once. */
  lemma CrlfIdempotent(s: bytes)
    ensures ToCrlf(ToCrlf(s)) == ToCrlf(s)
  {
    ExpandTwice(false, s);
  }

  lemma {:induction false} LfLength(s: bytes)
    ensures HasCrlf(s) <==> |ToLf(s)| < |s|
    ensures !HasCrlf(s) ==> ToLf(s) == s
  {
    if s != [] { LfLength(s[1..]); }
  }

  /** LF after CRLF restores the text exactly when the text has no CR LF pair. */
  lemma LfRestoresIff(s: bytes)
    ensures ToLf(ToCrlf(s)) == s <==> !HasCrlf(s)
  {
    LfAfterCrlf(s);
    LfLength(s);
  }

  lemma {:induction false} CrlfPairAfterLf(s: bytes)
    ensures HasCrlf(ToLf(s)) <==> HasCrCrlf(s)
  {
    if s != [] {
      CrlfPairAfterLf(s[1..]);
      if |s| > 1 {
        assert s[1..][1..] == s[2..];
        assert ([s[0]] + ToLf(s[1..]))[1..] == ToLf(s[1..]);
      }
    }
  }

  /** The contraction is idempotent exactly on texts without CR CR LF: each pass drops one CR only. */
  lemma LfIdempotentIff(s: bytes)
    ensures ToLf(ToLf(s)) == ToLf(s) <==> !HasCrCrlf(s)
  {
    CrlfPairAfterLf(s);
    LfLength(ToLf(s));
  }

  lemma LfNotIdempotentExample()
    ensures ToLf([CR, CR, LF]) == [CR, LF] && ToLf([CR, LF]) == [LF]
  {
    assert ToLf([LF]) == [LF];
    assert [CR, LF][1..] == [LF] && [CR, CR, LF][1..] == [CR, LF];
  }

  /** A text with CR LF line endings comes back with LF line endings. */
  lemma LfDoesNotRestoreExample()
    ensures ToLf(ToCrlf([CR, LF])) == [LF]
  {
    LfAfterCrlf([CR, LF]);
    LfNotIdempotentExample();
  }

  // ---------------------------------------------------------------- UTF-8 is kept

  lemma {:induction false} RunOfExpand(q: Utf8.State, afterCr: bool, s: bytes)
    ensures Utf8.Run(q, Expand(afterCr, s)) == Utf8.Run(q, s)
    decreases s
  {
    if s != [] {
      var rest := Expand(s[0] == CR, s[1..]);
      RunOfExpand(Utf8.Next(q, s[0]), s[0] == CR, s[1..]);
      Utf8.RunConcat(q, Piece(afterCr, s[0]), rest);
      RunOfPiece(q, afterCr, s[0]);
    }
  }

  /** CR and LF only occur between characters, where both leave the automaton in the same state. */
  lemma RunOfPiece(q: Utf8.State, afterCr: bool, c: byte)
    ensures Utf8.Run(q, Piece(afterCr, c)) == Utf8.Next(q, c)
  {
    assert [CR, LF][1..] == [LF] && [c][1..] == [];
    assert Utf8.Run(q, [CR, LF]) == Utf8.Run(Utf8.Next(q, CR), [LF]);
    assert [LF][1..] == [] && Utf8.Run(Utf8.Next(q, CR), [LF]) == Utf8.Next(Utf8.Next(q, CR), LF);
  }

  lemma {:induction false} RunOfLf(q: Utf8.State, s: bytes)
    ensures Utf8.Run(q, ToLf(s)) == Utf8.Run(q, s)
    decreases s
  {
    if s != [] {
      if s[0] == CR && |s| > 1 && s[1] == LF {
        RunOfLf(q, s[1..]);
      } else {
        RunOfLf(Utf8.Next(q, s[0]), s[1..]);
        assert ToLf(s)[1..] == ToLf(s[1..]);
      }
    }
  }

  /** Neither conversion changes whether a text is well-formed UTF-8. */
  lemma ConversionsKeepUtf8(s: bytes)
    ensures Utf8.WellFormed(ToCrlf(s)) <==> Utf8.WellFormed(s)
    ensures Utf8.WellFormed(ToLf(s)) <==> Utf8.WellFormed(s)
  {
    RunOfExpand(Utf8.Start, false, s);
    RunOfLf(Utf8.Start, s);
    Utf8.AutomatonIsGrammar(s);
    Utf8.AutomatonIsGrammar(ToCrlf(s));
    Utf8.AutomatonIsGrammar(ToLf(s));
  }

  /** Text that passed the check of send_text is well-formed when stored, even if a NUL cuts it short. */
  lemma StoredTextIsWellFormed(data: bytes)
    requires Utf8.WellFormed(data)
    ensures Utf8.WellFormed(ToLf(CStr(data))) && Utf8.WellFormed(ToCrlf(CStr(data)))
  {
    if NUL in data {
      Utf8.PrefixBeforeAscii(data, |CStr(data)|);
      assert data[..|CStr(data)|] == CStr(data);
    }
    ConversionsKeepUtf8(CStr(data));
  }

  // ---------------------------------------------------------------- the code

  /** Whether a CR stands just before position `i`. */
  function CrBefore(s: bytes, i: nat): bool
    requires i <= |s|
  {
    i > 0 && s[i - 1] == CR
  }

  /** The expansions of what lies left and right of position `i`. */
  function LeftOf(s: bytes, i: nat): (r: bytes)
    requires i <= |s|
    ensures |r| >= i
  {
    ToCrlf(s[..i])
  }

  function RightOf(s: bytes, i: nat): bytes
    requires i <= |s|
  {
    Expand(CrBefore(s, i), s[i..])
  }

  lemma RightStep(s: bytes, i: nat)
    requires i < |s|
    ensures RightOf(s, i) == Piece(CrBefore(s, i), s[i]) + RightOf(s, i + 1)
  {
    assert s[i..][1..] == s[i + 1..];
  }

  lemma {:induction false} ExpandSnoc(afterCr: bool, s: bytes, c: byte)
    ensures Expand(afterCr, s + [c]) ==
            Expand(afterCr, s) + Piece(if s == [] then afterCr else s[|s| - 1] == CR, c)
    decreases s
  {
    if s == [] {
      assert Expand(c == CR, []) == [];
    } else {
      ExpandSnoc(s[0] == CR, s[1..], c);
      assert (s + [c])[1..] == s[1..] + [c];
    }
  }

  // ---------------------------------------------------------------- which CRs are inserted

  /** An LF at `i` that does not come right after a CR. */
  predicate IsBare(s: bytes, i: nat) {
    i < |s| && s[i] == LF && (i == 0 || s[i - 1] != CR)
  }

  /** Every LF comes right after a CR. */
  ghost predicate EveryLfHasCr(t: bytes) {
    forall i: nat :: !IsBare(t, i)
  }

  function BareLfs(s: bytes): set<nat> {
    set i: nat | i < |s| && IsBare(s, i)
  }

  lemma {:induction false} ExpandHasCrs(afterCr: bool, s: bytes)
    ensures forall i: nat :: IsBare(Expand(afterCr, s), i) ==> i == 0 && afterCr
    decreases s
  {
    if s != [] {
      var head, rest := Piece(afterCr, s[0]), Expand(s[0] == CR, s[1..]);
      var t := head + rest;
      ExpandHasCrs(s[0] == CR, s[1..]);
      forall i: nat | IsBare(t, i) ensures i == 0 && afterCr {
        if i < |head| {
          assert t[i] == head[i];
        } else if i > |head| {
          assert IsBare(rest, i - |head|);
        } else if i == |head| {
          assert t[i - 1] == s[0] && rest[0] == LF;
          assert s[0] != CR ==> IsBare(rest, 0);
        }
      }
    }
  }

  /** The result has CR LF line endings throughout. */
  lemma CrlfThroughout(s: bytes)
    ensures EveryLfHasCr(ToCrlf(s))
  {
    ExpandHasCrs(false, s);
  }

  lemma BareLfsSnoc(s: bytes, c: byte)
    ensures |BareLfs(s + [c])| == |BareLfs(s)| + if c == LF && (s == [] || s[|s| - 1] != CR) then 1 else 0
  {
    var t := s + [c];
    if c == LF && (s == [] || s[|s| - 1] != CR) {
      assert BareLfs(t) == BareLfs(s) + {|s|};
    } else {
      assert BareLfs(t) == BareLfs(s);
    }
  }

  /** One byte is added for each bare LF, and nothing else. */
  lemma {:induction false} OneCrForEachBareLf(s: bytes)
    ensures |ToCrlf(s)| == |s| + |BareLfs(s)|
  {
    if s == [] {
      assert BareLfs(s) == {};
    } else {
      var init, c := s[..|s| - 1], s[|s| - 1];
      assert s == init + [c];
      OneCrForEachBareLf(init);
      ExpandSnoc(false, init, c);
      BareLfsSnoc(init, c);
    }
  }

  /** A text stays as it is exactly if none of its LFs is bare. */
  lemma SameIffNoBareLf(s: bytes)
    ensures ToCrlf(s) == s <==> BareLfs(s) == {}
    ensures BareLfs(s) == {} <==> EveryLfHasCr(s)
  {
    OneCrForEachBareLf(s);
    ExpandLonger(s);
    if BareLfs(s) == {} {
      forall i: nat ensures !IsBare(s, i) {
        assert i !in BareLfs(s);
      }
    } else {
      var i :| i in BareLfs(s);
      assert IsBare(s, i);
    }
  }

  // ---------------------------------------------------------------- which CRs are dropped

  /** A CR at `i` with an LF right after it. */
  predicate IsPair(s: bytes, i: nat) {
    i + 1 < |s| && s[i] == CR && s[i + 1] == LF
  }

  function Pairs(s: bytes): set<nat> {
    set i: nat | i < |s| && IsPair(s, i)
  }

  lemma PairsSnoc(s: bytes, c: byte)
    ensures |Pairs(s + [c])| == |Pairs(s)| + if c == LF && s != [] && s[|s| - 1] == CR then 1 else 0
  {
    var t := s + [c];
    if c == LF && s != [] && s[|s| - 1] == CR {
      assert Pairs(t) == Pairs(s) + {|s| - 1};
    } else {
      assert Pairs(t) == Pairs(s);
    }
  }

  lemma {:induction false} LfSnocLength(s: bytes, c: byte)
    ensures |ToLf(s + [c])| == |ToLf(s)| + if c == LF && s != [] && s[|s| - 1] == CR then 0 else 1
    decreases s
  {
    if s != [] {
      assert (s + [c])[1..] == s[1..] + [c];
      LfSnocLength(s[1..], c);
    }
  }

  lemma {:induction false} LfShortensByPairs(s: bytes)
    ensures |ToLf(s)| == |s| - |Pairs(s)|
    decreases |s|
  {
    if s == [] {
      assert Pairs(s) == {};
    } else {
      var init, c := s[..|s| - 1], s[|s| - 1];
      assert s == init + [c];
      LfShortensByPairs(init);
      LfSnocLength(init, c);
      PairsSnoc(init, c);
    }
  }

  /** One byte is dropped for each CR LF pair. */
  lemma OneCrLessForEachPair(s: bytes)
    ensures |ToLf(s)| == |s| - |Pairs(s)|
    ensures ToLf(s) == s <==> Pairs(s) == {}
  {
    LfShortensByPairs(s);
    LfLength(s);
  }

  /** A text without its CRs. */
  function WithoutCrs(s: bytes): bytes {
    if s == [] then [] else (if s[0] == CR then [] else [s[0]]) + WithoutCrs(s[1..])
  }

  lemma WithoutCrsCons(c: byte, s: bytes)
    ensures WithoutCrs([c] + s) == (if c == CR then [] else [c]) + WithoutCrs(s)
  {
    assert ([c] + s)[1..] == s;
  }

  lemma {:induction false} ExpandKeepsTheRest(afterCr: bool, s: bytes)
    ensures WithoutCrs(Expand(afterCr, s)) == WithoutCrs(s)
    decreases s
  {
    if s != [] {
      var rest := Expand(s[0] == CR, s[1..]);
      ExpandKeepsTheRest(s[0] == CR, s[1..]);
      WithoutCrsCons(s[0], rest);
      if s[0] == LF && !afterCr {
        WithoutCrsCons(CR, [LF] + rest);
        assert [CR, LF] + rest == [CR] + ([LF] + rest);
      }
    }
  }

  /** Nothing but CRs is added or dropped, and the rest keeps its order. */
  lemma {:induction false} OnlyCrsChange(s: bytes)
    ensures WithoutCrs(ToCrlf(s)) == WithoutCrs(s)
    ensures WithoutCrs(ToLf(s)) == WithoutCrs(s)
  {
    ExpandKeepsTheRest(false, s);
    if s != [] {
      OnlyCrsChange(s[1..]);
      WithoutCrsCons(s[0], ToLf(s[1..]));
    }
  }

  /** The number of CRs added left of the read index grows by one at each bare LF. */
  lemma LeftStep(s: bytes, i: nat)
    requires i < |s|
    ensures |LeftOf(s, i + 1)| == |LeftOf(s, i)| + |Piece(CrBefore(s, i), s[i])|
  {
    assert s[..i + 1] == s[..i] + [s[i]];
    ExpandSnoc(false, s[..i], s[i]);
  }

  /**
    * _realloc_for_crlf: -1 if the result does not fit in 32 bits or the allocation fails, 0 if there is
    * nothing to do, and otherwise 1 with the text at the start of a buffer that has room for the result.
    */
  method ReallocForCrlf(str: array<byte>, allocates: bool) returns (status: int, out: array<byte>, len: nat)
    requires NUL in str[..]
    ensures status in {-1, 0, 1}
    ensures status == 0 <==> ToCrlf(CStr(str[..])) == CStr(str[..])
    ensures status == 0 <==> EveryLfHasCr(CStr(str[..]))
    ensures status == 0 ==> out == str && len == |CStr(str[..])|
    ensures status == -1 <==> ToCrlf(CStr(str[..])) != CStr(str[..])
                              && (|ToCrlf(CStr(str[..]))| >= 0xFFFF_FFFF || !allocates)
    ensures status == 1 ==> fresh(out) && len == |ToCrlf(CStr(str[..]))| && out.Length == len + 1
                            && CStr(out[..]) == CStr(str[..]) && NUL in out[..]
  {
    ghost var s := CStr(str[..]);
    var increase, ind := CountBareLf(str);
    ExpandLonger(s);
    SameIffNoBareLf(s);
    out, len := str, ind;
    if increase == 0 { return 0, str, ind; }
    var required := ind + increase;
    if required >= 0xFFFF_FFFF || !allocates { return -1, str, 0; }
    out := new byte[required + 1];
    forall i | 0 <= i <= ind {
      out[i] := str[i];
    }
    assert out[..][ind] == NUL && s + [NUL] <= out[..] && str[..] == old(str[..]);
    CStrOfPrefix(s, out[..]);
    return 1, out, required;
  }

  /** The counting loop of _realloc_for_crlf. */
  method CountBareLf(str: array<byte>) returns (increase: nat, ind: nat)
    requires NUL in str[..]
    ensures ind == |CStr(str[..])| && ind + increase == |ToCrlf(CStr(str[..]))|
    ensures increase == |BareLfs(CStr(str[..]))|
  {
    ghost var s := CStr(str[..]);
    OneCrForEachBareLf(s);
    increase, ind := 0, 0;
    while str[ind] != NUL
      invariant 0 <= ind <= |s|
      invariant ind + increase == |LeftOf(s, ind)|
      decreases |s| - ind
    {
      LeftStep(s, ind);
      if str[ind] == LF && (ind == 0 || str[ind - 1] != CR) {
        increase := increase + 1;
      }
      ind := ind + 1;
    }
    assert s[..ind] == s;
  }

  lemma {:induction false} ExpandShortIsSame(afterCr: bool, s: bytes)
    ensures |Expand(afterCr, s)| == |s| ==> Expand(afterCr, s) == s
    decreases s
  {
    if s != [] { ExpandShortIsSame(s[0] == CR, s[1..]); }
  }

  lemma ExpandLonger(s: bytes)
    ensures ToCrlf(s) == s <==> |ToCrlf(s)| == |s|
  {
    ExpandShortIsSame(false, s);
  }

  /**
    * _convert_to_crlf: expands the text backwards in its own buffer. The write index stays ahead of the
    * read index by the number of bare LFs still to the left, so nothing unread is overwritten.
    */
  method ConvertToCrlf(str: array<byte>, newLen: nat)
    requires NUL in str[..] && CStr(str[..]) != []
    requires newLen == |ToCrlf(CStr(str[..]))| && newLen > |CStr(str[..])| && newLen < str.Length
    modifies str
    ensures str[..newLen] == ToCrlf(old(CStr(str[..]))) && str[newLen] == NUL
    ensures str[newLen + 1..] == old(str[newLen + 1..])
  {
    ghost var s := CStr(str[..]);
    str[newLen] := NUL;
    assert s + [NUL] <= str[..];
    CStrOfPrefix(s, str[..]);
    var length := StrLen(str);
    ExpandBackwards(str, s, length - 1, newLen);
  }

  /**
    * Between the turns of the backward loop: `s[..i]` is still to be read, and what lies above the write
    * index is the expansion of the rest. The write index is ahead by the CRs still to be added on the left.
    */
  ghost predicate Halfway(buf: bytes, s: bytes, i: nat, newInd: int, end: nat)
  {
    && i <= |s| && i <= newInd + 1 == |LeftOf(s, i)| <= end <= |buf|
    && (forall k :: 0 <= k < i ==> buf[k] == s[k])
    && buf[newInd + 1..end] == RightOf(s, i)
  }

  /** The loop of _convert_to_crlf, from the last character to the first. */
  method ExpandBackwards(str: array<byte>, ghost s: bytes, last: nat, newLen: nat)
    requires last + 1 == |s| <= newLen == |ToCrlf(s)| <= str.Length && s <= str[..]
    modifies str
    ensures str[..newLen] == ToCrlf(s) && str[newLen..] == old(str[newLen..])
  {
    var newInd, curInd := newLen - 1, last;
    assert s[..|s|] == s && s[|s|..] == [];
    while true
      invariant 0 <= curInd < |s| && Halfway(str[..], s, curInd + 1, newInd, newLen)
      invariant str[newLen..] == old(str[newLen..])
      decreases curInd
    {
      newInd := CopyBack(str, s, curInd, newInd, newLen);
      if curInd == 0 { break; }
      curInd := curInd - 1;
    }
    assert s[0..] == s && str[..newLen] == str[0..newLen];
  }

  /** The body of the loop: one character moves, and a bare LF gets its CR. */
  method CopyBack(str: array<byte>, ghost s: bytes, curInd: nat, newInd: int, ghost end: nat) returns (next: int)
    requires curInd < |s| && Halfway(str[..], s, curInd + 1, newInd, end)
    modifies str
    ensures Halfway(str[..], s, curInd, next, end) && str[end..] == old(str[end..])
  {
    hide Halfway;
    HalfwayBounds(str[..], s, curInd, newInd, end);
    ghost var before := str[..];
    var c := str[curInd];
    PutByte(str, newInd, c, end);
    next := newInd - 1;
    if c == LF && (curInd == 0 || str[curInd - 1] != CR) {
      PutByte(str, next, CR, end);
      next := next - 1;  // a size_t, so it wraps after index 0; it is not used again then
      Assoc2(CR, c, before[newInd + 1..end]);
    }
    HalfwayStep(before, str[..], s, curInd, newInd, next, end);
  }

  lemma HalfwayBounds(buf: bytes, s: bytes, i: nat, newInd: int, end: nat)
    requires i < |s| && Halfway(buf, s, i + 1, newInd, end)
    ensures i + |Piece(CrBefore(s, i), s[i])| - 1 <= newInd < end <= |buf|
    ensures buf[i] == s[i] && (i > 0 ==> buf[i - 1] == s[i - 1])
  {
    hide LeftOf, RightOf;
    LeftStep(s, i);
  }

  lemma HalfwayStep(before: bytes, buf: bytes, s: bytes, i: nat, newInd: nat, next: int, end: nat)
    requires i < |s| && Halfway(before, s, i + 1, newInd, end) && newInd < end <= |before| == |buf|
    requires next == newInd - |Piece(CrBefore(s, i), s[i])| && i <= next + 1
    requires buf[next + 1..end] == Piece(CrBefore(s, i), s[i]) + before[newInd + 1..end]
    requires forall k :: 0 <= k <= next ==> buf[k] == before[k]
    ensures Halfway(buf, s, i, next, end)
  {
    hide LeftOf, RightOf, Piece;
    LeftStep(s, i);
    RightStep(s, i);
  }

  lemma Assoc2(a: byte, b: byte, s: bytes)
    ensures [a] + ([b] + s) == [a, b] + s
  {
  }

  /** `str[at] = c` where `str[at + 1..end]` is finished: the finished part grows by `c` on the left. */
  method PutByte(str: array<byte>, at: nat, c: byte, ghost end: nat)
    requires at < end <= str.Length
    modifies str
    ensures str[at..end] == [c] + old(str[at + 1..end])
    ensures forall k :: 0 <= k < at ==> str[k] == old(str[k])
    ensures str[end..] == old(str[end..])
  {
    str[at] := c;
  }

  /** strlen on a buffer that holds a terminator. */
  method StrLen(str: array<byte>) returns (n: nat)
    requires NUL in str[..]
    ensures n == |CStr(str[..])|
  {
    n := 0;
    ghost var s := CStr(str[..]);
    while str[n] != NUL
      invariant n <= |s|
      decreases |s| - n
    {
      n := n + 1;
    }
  }

  /** _convert_to_lf: contracts the text forwards in its own buffer; the write index never passes the read index. */
  method ConvertToLf(str: array<byte>) returns (len: nat)
    requires NUL in str[..]
    modifies str
    ensures len == |ToLf(old(CStr(str[..])))| && len < str.Length
    ensures str[..len] == ToLf(old(CStr(str[..]))) && str[len] == NUL
  {
    hide CStr, ToLf;
    ghost var s := CStr(str[..]);
    var oldInd, newInd := 0, 0;
    assert s[0..] == s && str[..0] + ToLf(s) == ToLf(s);
    while str[oldInd] != NUL
      invariant 0 <= newInd <= oldInd <= |s| < str.Length && str[|s|] == NUL
      invariant forall k :: oldInd <= k < |s| ==> str[k] == s[k]
      invariant str[..newInd] + ToLf(s[oldInd..]) == ToLf(s)
      decreases |s| - oldInd
    {
      var c := str[oldInd];
      LfStep(s, oldInd);
      oldInd := oldInd + 1;
      if c != CR || str[oldInd] != LF {
        ghost var written, rest := str[..newInd], ToLf(s[oldInd..]);
        str[newInd] := c;
        newInd := newInd + 1;
        assert str[..newInd] == written + [c];
        assert (written + [c]) + rest == written + ([c] + rest);
      }
    }
    LfOfNothing(s[oldInd..]);
    str[newInd] := NUL;
    len := newInd;
    assert str[..len] == ToLf(s);
  }

  lemma LfOfNothing(s: bytes)
    ensures s == [] ==> ToLf(s) == []
  {
  }

  lemma LfStep(s: bytes, i: nat)
    requires i < |s|
    ensures ToLf(s[i..]) == (if s[i] == CR && i + 1 < |s| && s[i + 1] == LF then [] else [s[i]]) + ToLf(s[i + 1..])
  {
    assert s[i..][1..] == s[i + 1..];
    if i + 1 < |s| { assert s[i..][1] == s[i + 1]; }
  }

  lemma SomethingToExpand(s: bytes)
    requires ToCrlf(s) != s
    ensures s != []
  {
  }

  /** convert_eol of the Windows branch: LF when forced, CRLF otherwise; -1 if the expansion cannot be stored. */
  method ConvertEol(str: array<byte>, forceLf: bool, allocates: bool) returns (len: int, out: array<byte>)
    requires NUL in str[..]
    modifies str
    ensures forceLf ==> len == |ToLf(old(CStr(str[..])))| && CStr(out[..]) == ToLf(old(CStr(str[..])))
    ensures !forceLf && len != -1 ==> len == |ToCrlf(old(CStr(str[..])))| && CStr(out[..]) == ToCrlf(old(CStr(str[..])))
    ensures !forceLf && allocates && |ToCrlf(old(CStr(str[..])))| < 0xFFFF_FFFF ==> len != -1
    ensures !forceLf && len != -1 ==>
              EveryLfHasCr(CStr(out[..])) && len == |old(CStr(str[..]))| + |BareLfs(old(CStr(str[..])))|
    ensures !forceLf && len != -1 ==>
              (CStr(out[..]) == old(CStr(str[..])) <==> EveryLfHasCr(old(CStr(str[..]))))
    ensures forceLf ==> len == |old(CStr(str[..]))| - |Pairs(old(CStr(str[..])))|
    ensures len != -1 ==> WithoutCrs(CStr(out[..])) == WithoutCrs(old(CStr(str[..])))
  {
    hide CStr, ToLf, Expand, EveryLfHasCr, BareLfs, Pairs, WithoutCrs;
    ghost var s := CStr(str[..]);
    OnlyCrsChange(s);
    OneCrLessForEachPair(s);
    CrlfThroughout(s);
    OneCrForEachBareLf(s);
    SameIffNoBareLf(s);
    if !forceLf {
      var status, newLen;
      status, out, newLen := ReallocForCrlf(str, allocates);
      if status == 0 { return newLen, out; }
      if status < 0 { return -1, out; }
      ExpandLonger(s);
      SomethingToExpand(s);
      ConvertToCrlf(out, newLen);
      ExpandIsNulFree(false, s);
      CStrAt(ToCrlf(s), out[..]);
      return newLen, out;
    }
    var n := ConvertToLf(str);
    LfIsNulFree(s);
    CStrAt(ToLf(s), str[..]);
    return n, str;
  }

  lemma {:induction false} ExpandIsNulFree(afterCr: bool, s: bytes)
    requires NUL !in s
    ensures NUL !in Expand(afterCr, s)
    decreases s
  {
    if s != [] { ExpandIsNulFree(s[0] == CR, s[1..]); }
  }

  lemma {:induction false} LfIsNulFree(s: bytes)
    requires NUL !in s
    ensures NUL !in ToLf(s)
  {
    if s != [] { LfIsNulFree(s[1..]); }
  }
}
