/** Numbers with a suffix and the trimming of values in the configuration file: src/utils/config.c. */
module Config {
  import opened Bytes
  import opened NetUtils

  const TWO64 := 0x1_0000_0000_0000_0000
  const TWO63 := 0x8000_0000_0000_0000

  // ---------------------------------------------------------------- strtoull in base 10

  predicate IsDigit(c: byte) { 48 <= c <= 57 }

  predicate IsSpace(c: byte) { c == 32 || 9 <= c <= 13 }

  const PLUS: byte := 43
  const MINUS: byte := 45

  function Value(d: bytes): nat
    requires forall c :: c in d ==> IsDigit(c)
  {
    if d == [] then 0
    else
      assert IsDigit(d[|d| - 1]);
      10 * Value(d[..|d| - 1]) + (d[|d| - 1] as int - 48)
  }

  /** How many bytes at the start are digits, or white space. */
  function DigitsAt(s: bytes): (n: nat)
    ensures n <= |s| && (forall c :: c in s[..n] ==> IsDigit(c)) && (n < |s| ==> !IsDigit(s[n]))
  {
    if s == [] || !IsDigit(s[0]) then 0
    else
      var n := DigitsAt(s[1..]);
      assert s[..n + 1] == [s[0]] + s[1..][..n];
      n + 1
  }

  function SpacesAt(s: bytes): (n: nat)
    ensures n <= |s|
  {
    if s == [] || !IsSpace(s[0]) then 0 else 1 + SpacesAt(s[1..])
  }

  datatype Parsed = Parsed(value: nat, rest: bytes)

  /** The value, which saturates, and where it ends; a minus sign negates modulo 2^64. */
  function Strtoull(s: bytes): (r: Parsed)
    ensures r.value < TWO64
  {
    var t := s[SpacesAt(s)..];
    var u := if t != [] && (t[0] == PLUS || t[0] == MINUS) then t[1..] else t;
    var k := DigitsAt(u);
    if k == 0 then Parsed(0, s)
    else
      var v := Value(u[..k]);
      Parsed(if v >= TWO64 then TWO64 - 1 else if t[0] == MINUS then (TWO64 - v) % TWO64 else v, u[k..])
  }

  // ---------------------------------------------------------------- suffixes

  /** k, m, g, t in either case */
  function Multiplier(c: byte): nat {
    if c in {107, 75} then 1000
    else if c in {109, 77} then 1000000
    else if c in {103, 71} then 1000000000
    else if c in {116, 84} then 1000000000000
    else 0
  }

  /** Overflowed: the C code multiplies two signed numbers whose product int64_t cannot hold. */
  datatype Outcome = Stored(value: int) | Rejected | Overflowed

  const LARGEST_UINT32 := 4294967294
  const LARGEST_INT64 := 0x1FFF_FFFF_FFFF_FFFF

  /** What set_uint32 is for: the product of number and suffix, if it is in range. There is no suffix t. */
  function Uint32Of(s: bytes): Outcome {
    var p := Strtoull(s);
    var n := WrapInt64(p.value);
    if p.rest == [] then if 1 <= n <= LARGEST_UINT32 then Stored(n) else Rejected
    else
      var m := Multiplier(p.rest[0]);
      if |p.rest| == 1 && 0 < m < 1000000000000 && 1 <= n * m <= LARGEST_UINT32 then Stored(n * m) else Rejected
  }

  /** What set_int64 does; without a suffix it accepts every positive int64_t. */
  function Int64Of(s: bytes): Outcome {
    var p := Strtoull(s);
    var n := WrapInt64(p.value);
    if p.rest == [] then if n > 0 then Stored(n) else Rejected
    else
      var m := Multiplier(p.rest[0]);
      if m == 0 || n * m > LARGEST_INT64 then Rejected
      else if n * m < -TWO63 then Overflowed
      else if |p.rest| > 1 || n <= 0 then Rejected
      else Stored(n * m)
  }

  class Field {
    var value: int

    /** set_uint32, with the source's table of limits in place of the product. */
    method SetUint32(str: bytes) returns (outcome: Outcome)
      requires NUL !in str
      modifies this
      ensures outcome == Uint32Of(str)
      ensures value == if outcome.Stored? then outcome.value else old(value)
    {
      hide Strtoull;
      var parsed := Strtoull(str);
      var n := WrapInt64(parsed.value);
      if n < 0 || n > 4294967294 { return Rejected; }
      var suffix := if parsed.rest == [] then NUL else parsed.rest[0];
      RestIsNulFree(str);
      if suffix == 0 {
      } else if suffix == 107 || suffix == 75 {
        if n > 4294967 { return Rejected; }
        n := n * 1000;
      } else if suffix == 109 || suffix == 77 {
        if n > 4294 { return Rejected; }
        n := n * 1000000;
      } else if suffix == 103 || suffix == 71 {
        if n > 4 { return Rejected; }
        n := n * 1000000000;
      } else {
        return Rejected;
      }
      if suffix != NUL && |parsed.rest| > 1 { return Rejected; }
      if n <= 0 || 4294967295 <= n { return Rejected; }
      value := n;
      outcome := Stored(n);
    }

    /** set_int64 */
    method SetInt64(str: bytes) returns (outcome: Outcome)
      requires NUL !in str
      modifies this
      ensures outcome == Int64Of(str)
      ensures value == if outcome.Stored? then outcome.value else old(value)
    {
      hide Strtoull;
      var parsed := Strtoull(str);
      var n := WrapInt64(parsed.value);
      var suffix := if parsed.rest == [] then NUL else parsed.rest[0];
      RestIsNulFree(str);
      if suffix == 0 {
      } else if suffix == 107 || suffix == 75 {
        if n > 2305843009213693 { return Rejected; }
        n := n * 1000;
      } else if suffix == 109 || suffix == 77 {
        if n > 2305843009213 { return Rejected; }
        n := n * 1000000;
      } else if suffix == 103 || suffix == 71 {
        if n > 2305843009 { return Rejected; }
        n := n * 1000000000;
      } else if suffix == 116 || suffix == 84 {
        if n > 2305843 { return Rejected; }
        n := n * 1000000000000;
      } else {
        return Rejected;
      }
      if !IsInt64(n) { return Overflowed; }
      if suffix != NUL && |parsed.rest| > 1 { return Rejected; }
      if n <= 0 { return Rejected; }
      value := n;
      outcome := Stored(n);
    }
  }

  lemma RestIsNulFree(s: bytes)
    requires NUL !in s
    ensures NUL !in Strtoull(s).rest
  {
  }

  // ---------------------------------------------------------------- decimal numbers

  predicate IsNumber(d: bytes) {
    d != [] && forall c :: c in d ==> IsDigit(c)
  }

  predicate IsSuffix(s: bytes) {
    s == [] || (|s| == 1 && Multiplier(s[0]) > 0)
  }

  function Scale(suffix: bytes): nat
    requires IsSuffix(suffix)
  {
    if suffix == [] then 1 else Multiplier(suffix[0])
  }

  lemma {:induction false} DigitsEnd(d: bytes, rest: bytes)
    requires (forall c :: c in d ==> IsDigit(c)) && (rest != [] ==> !IsDigit(rest[0]))
    ensures DigitsAt(d + rest) == |d|
  {
    if d == [] {
      assert d + rest == rest;
    } else {
      assert (d + rest)[1..] == d[1..] + rest;
      DigitsEnd(d[1..], rest);
    }
  }

  lemma ParsedNumber(d: bytes, rest: bytes)
    requires IsNumber(d) && (rest != [] ==> !IsDigit(rest[0]))
    ensures Strtoull(d + rest) == Parsed(if Value(d) >= TWO64 then TWO64 - 1 else Value(d), rest)
  {
    var s := d + rest;
    assert s[0] == d[0] && d[0] in d && SpacesAt(s) == 0 && s[0..] == s;
    DigitsEnd(d, rest);
    assert s[..|d|] == d && s[|d|..] == rest;
  }

  /** Every decimal number and suffix: accepted exactly if the product is in range, and then it is the product. */
  lemma Uint32OfNumber(d: bytes, suffix: bytes)
    requires IsNumber(d) && IsSuffix(suffix)
    ensures Uint32Of(d + suffix) ==
            if 1 <= Value(d) * Scale(suffix) <= LARGEST_UINT32 && Scale(suffix) < 1000000000000
            then Stored(Value(d) * Scale(suffix)) else Rejected
  {
    hide Value, Strtoull;
    ParsedNumber(d, suffix);
    ScaleGrows(Value(d), Scale(suffix));
  }

  lemma ScaleGrows(v: nat, m: nat)
    requires m >= 1
    ensures v * m >= v
  {
  }

  /** What follows the number is a suffix of one letter, or the value is rejected. */
  lemma OtherSuffixIsRejected(d: bytes, rest: bytes)
    requires IsNumber(d) && (rest != [] ==> !IsDigit(rest[0])) && !IsSuffix(rest)
    ensures Uint32Of(d + rest) == Rejected
    ensures Value(d) < TWO63 ==> Int64Of(d + rest) == Rejected
  {
    hide Value, Strtoull;
    ParsedNumber(d, rest);
  }

  /**
    * Numbers below 2^63: with a suffix exactly the products in 1..2^61-1 are accepted, without one every
    * positive number; the stored value is the product and nothing overflows.
    */
  lemma Int64OfNumber(d: bytes, suffix: bytes)
    requires IsNumber(d) && IsSuffix(suffix) && Value(d) < TWO63
    ensures Int64Of(d + suffix) ==
            if 1 <= Value(d) * Scale(suffix) && (suffix == [] || Value(d) * Scale(suffix) <= LARGEST_INT64)
            then Stored(Value(d) * Scale(suffix)) else Rejected
  {
    hide Value, Strtoull;
    ParsedNumber(d, suffix);
    ScaleGrows(Value(d), Scale(suffix));
  }

  /** The number as int64_t: what the conversion makes of 2^63 and above, after saturation at 2^64-1. */
  function AsInt64(v: nat): int {
    if v < TWO63 then v else if v >= TWO64 then -1 else v - TWO64
  }

  /** Larger numbers are negative after the conversion. They are rejected, unless the multiplication overflows. */
  lemma Int64OfLargeNumber(d: bytes, suffix: bytes)
    requires IsNumber(d) && IsSuffix(suffix) && Value(d) >= TWO63
    ensures Int64Of(d + suffix) == if AsInt64(Value(d)) * Scale(suffix) < -TWO63 then Overflowed else Rejected
  {
    hide Value, Strtoull;
    ParsedNumber(d, suffix);
    var n, m := AsInt64(Value(d)), Scale(suffix);
    assert WrapInt64(Strtoull(d + suffix).value) == n;
    assert n < 0 && n * m < 0 by { ScaleGrows(-n, m); assert -(n * m) == (-n) * m; }
  }

  /** No number that is stored overflowed, and a stored value is in range. */
  lemma StoredIsInRange(s: bytes)
    ensures Uint32Of(s).Stored? ==> 1 <= Uint32Of(s).value <= LARGEST_UINT32
    ensures Int64Of(s).Stored? ==> 1 <= Int64Of(s).value && IsInt64(Int64Of(s).value)
  {
    hide Strtoull;
  }

  lemma {:induction false} ValueOfDecimal(n: nat)
    ensures IsNumber(Decimal(n)) && Value(Decimal(n)) == n && (n > 0 ==> Decimal(n)[0] != 48)
  {
    DecimalIsDigits(n);
    if n >= 10 {
      ValueOfDecimal(n / 10);
      assert Decimal(n)[..|Decimal(n)| - 1] == Decimal(n / 10);
    } else {
      var none: bytes := [];
      assert [48 + n][..0] == none && Value(none) == 0;
    }
  }

  /** 2^61 without a suffix is stored, though the comment on set_int64 promises a limit of 2^61-1. */
  lemma UnsuffixedExceedsTheComment()
    ensures Int64Of(Decimal(LARGEST_INT64 + 1)) == Stored(LARGEST_INT64 + 1)
  {
    hide Decimal;
    ValueOfDecimal(LARGEST_INT64 + 1);
    Int64OfNumber(Decimal(LARGEST_INT64 + 1), []);
    assert Decimal(LARGEST_INT64 + 1) + [] == Decimal(LARGEST_INT64 + 1);
  }

  /** 2^63 with the suffix k overflows. */
  lemma LargeNumberOverflows()
    ensures Int64Of(Decimal(TWO63) + [107]) == Overflowed
  {
    hide Decimal;
    ValueOfDecimal(TWO63);
    Int64OfLargeNumber(Decimal(TWO63), [107]);
  }

  /** The number, or a rejection if it is not in the range. */
  predicate IsInRange(outcome: Outcome, n: nat, largest: nat) {
    outcome == if 1 <= n <= largest then Stored(n) else Rejected
  }

  /** k or K, m or M, g or G stand for a thousand, a million and a billion, and only set_int64 knows t and T. */
  lemma SuffixLetters(d: bytes)
    requires IsNumber(d) && Value(d) < 0x8000_0000_0000_0000
    ensures var v := Value(d);
            && IsInRange(Uint32Of(d), v, 4294967294)
            && IsInRange(Uint32Of(d + [107]), v * 1000, 4294967294)
            && IsInRange(Uint32Of(d + [109]), v * 1000000, 4294967294)
            && IsInRange(Uint32Of(d + [103]), v * 1000000000, 4294967294)
            && Uint32Of(d + [116]) == Rejected
    ensures var v := Value(d);
            && IsInRange(Int64Of(d), v, 9223372036854775807)
            && IsInRange(Int64Of(d + [107]), v * 1000, 2305843009213693951)
            && IsInRange(Int64Of(d + [109]), v * 1000000, 2305843009213693951)
            && IsInRange(Int64Of(d + [103]), v * 1000000000, 2305843009213693951)
            && IsInRange(Int64Of(d + [116]), v * 1000000000000, 2305843009213693951)
  {
    hide Value, Uint32Of, Int64Of;
    assert d + [] == d;
    Uint32OfNumber(d, []);
    Int64OfNumber(d, []);
    forall c | c in [107, 109, 103, 116]
      ensures IsSuffix([c]) && Scale([c]) == Multiplier(c)
      ensures Uint32Of(d + [c]) == if 1 <= Value(d) * Scale([c]) <= LARGEST_UINT32 && Scale([c]) < 1000000000000
                                   then Stored(Value(d) * Scale([c])) else Rejected
      ensures Int64Of(d + [c]) == if 1 <= Value(d) * Scale([c]) <= LARGEST_INT64
                                  then Stored(Value(d) * Scale([c])) else Rejected
    {
      Uint32OfNumber(d, [c]);
      Int64OfNumber(d, [c]);
    }
  }

  /** A capital letter means what the small one means. */
  lemma CapitalSuffix(d: bytes, c: byte)
    requires IsNumber(d) && c in {107, 109, 103, 116}
    ensures Uint32Of(d + [c - 32]) == Uint32Of(d + [c]) && Int64Of(d + [c - 32]) == Int64Of(d + [c])
  {
    hide Value, Strtoull;
    var small: bytes, capital: bytes := [c], [c - 32];
    ParsedNumber(d, small);
    ParsedNumber(d, capital);
  }

  /** White space and a sign may stand before the number; a minus sign negates modulo 2^64. */
  lemma LeadIsSkipped(blanks: bytes, d: bytes, rest: bytes)
    requires (forall c :: c in blanks ==> c == 32 || 9 <= c <= 13) && IsNumber(d)
    requires (rest != [] ==> !IsDigit(rest[0])) && Value(d) < 0x1_0000_0000_0000_0000
    ensures Strtoull(blanks + (d + rest)) == Parsed(Value(d), rest)
    ensures Strtoull(blanks + ([43] + (d + rest))) == Parsed(Value(d), rest)
    ensures Strtoull(blanks + ([45] + (d + rest)))
            == Parsed(if Value(d) == 0 then 0 else 0x1_0000_0000_0000_0000 - Value(d), rest)
  {
    hide Strtoull;
    assert (d + rest)[0] == d[0] && d[0] in d;
    ParsedNumber(d, rest);
    SignedNumber(43, d, rest);
    SignedNumber(45, d, rest);
    BlanksSkipped(blanks, d + rest);
    BlanksSkipped(blanks, [43] + (d + rest));
    BlanksSkipped(blanks, [45] + (d + rest));
  }

  lemma SignedNumber(sign: byte, d: bytes, rest: bytes)
    requires sign in {PLUS, MINUS} && IsNumber(d) && (rest != [] ==> !IsDigit(rest[0])) && Value(d) < TWO64
    ensures Strtoull([sign] + (d + rest))
            == Parsed(if sign == MINUS && Value(d) > 0 then TWO64 - Value(d) else Value(d), rest)
  {
    hide Value, DigitsAt, SpacesAt;
    var t := d + rest;
    var s := [sign] + t;
    var none: bytes := [];
    BlanksEnd(none, s);
    DigitsEnd(d, rest);
    assert none + s == s && s[0..] == s && s[1..] == t;
    assert t[..|d|] == d && t[|d|..] == rest;
  }

  lemma BlanksSkipped(blanks: bytes, t: bytes)
    requires (forall c :: c in blanks ==> IsSpace(c)) && t != [] && !IsSpace(t[0])
    ensures Strtoull(blanks + t) == Strtoull(t) || Strtoull(t).rest == t
  {
    hide Value, DigitsAt, SpacesAt;
    var none: bytes := [];
    BlanksEnd(blanks, t);
    BlanksEnd(none, t);
    assert none + t == t && t[0..] == t;
  }

  lemma {:induction false} BlanksEnd(blanks: bytes, t: bytes)
    requires (forall c :: c in blanks ==> IsSpace(c)) && t != [] && !IsSpace(t[0])
    ensures SpacesAt(blanks + t) == |blanks| && (blanks + t)[|blanks|..] == t
  {
    if blanks == [] {
      assert blanks + t == t;
    } else {
      assert (blanks + t)[1..] == blanks[1..] + t;
      BlanksEnd(blanks[1..], t);
    }
  }

  // ---------------------------------------------------------------- trim

  /** Characters that trim removes; bytes from 128 on are negative as char, and stay. */
  predicate Blank(c: byte) { 0 < c <= 32 }

  function DropFront(s: bytes): (r: bytes)
    ensures |r| <= |s| && r == s[|s| - |r|..]
  {
    if s != [] && Blank(s[0]) then DropFront(s[1..]) else s
  }

  function DropBack(s: bytes): (r: bytes)
    ensures r <= s
  {
    if s != [] && Blank(s[|s| - 1]) then DropBack(s[..|s| - 1]) else s
  }

  function Trimmed(s: bytes): bytes { DropBack(DropFront(s)) }

  predicate AllBlank(s: bytes) { forall c :: c in s ==> Blank(c) }

  lemma {:induction false} FrontIsBlank(s: bytes)
    ensures AllBlank(s[..|s| - |DropFront(s)|])
    ensures DropFront(s) != [] ==> !Blank(DropFront(s)[0])
  {
    if s != [] && Blank(s[0]) {
      FrontIsBlank(s[1..]);
      var k := |s| - |DropFront(s)|;
      assert s[..k] == [s[0]] + s[1..][..k - 1];
    }
  }

  lemma {:induction false} BackIsBlank(s: bytes)
    ensures AllBlank(s[|DropBack(s)|..])
    ensures DropBack(s) != [] ==> !Blank(DropBack(s)[|DropBack(s)| - 1])
  {
    if s != [] && Blank(s[|s| - 1]) {
      BackIsBlank(s[..|s| - 1]);
      var k := |DropBack(s)|;
      assert s[k..] == s[..|s| - 1][k..] + [s[|s| - 1]];
    }
  }

  /** Only blanks go, at both ends, and what stays has no blank at either end. */
  lemma TrimmedSplits(s: bytes) returns (front: bytes, back: bytes)
    ensures s == front + Trimmed(s) + back && forall c :: c in front || c in back ==> 0 < c <= 32
    ensures Trimmed(s) != [] ==>
              !(0 < Trimmed(s)[0] <= 32) && !(0 < Trimmed(s)[|Trimmed(s)| - 1] <= 32)
  {
    hide DropFront, DropBack, Blank;
    var mid := DropFront(s);
    front, back := s[..|s| - |mid|], mid[|Trimmed(s)|..];
    FrontIsBlank(s);
    BackIsBlank(mid);
    FrontKeptBack(s, front, mid, Trimmed(s), back);
    BlankIs();
  }

  lemma BlankIs()
    ensures forall c: byte :: Blank(c) <==> 0 < c <= 32
  {
  }

  lemma FrontKeptBack(s: bytes, front: bytes, mid: bytes, kept: bytes, back: bytes)
    requires s == front + mid && kept <= mid && back == mid[|kept|..]
    ensures s == front + kept + back
  {
    assert mid == kept + back;
  }

  /** trim, in place: shift everything to the front, then cut blanks off the end. */
  method Trim(str: array<byte>)
    requires NUL in str[..]
    modifies str
    ensures NUL in str[..] && CStr(str[..]) == Trimmed(old(CStr(str[..])))
  {
    hide CStr, DropFront, DropBack, Blank;
    ghost var s := CStr(str[..]);
    ghost var mid := DropFront(s);
    var ptr := FirstNonBlank(str);
    var p1 := ShiftDown(str, ptr, s);
    CStrAt(mid, str[..]);
    FrontIsBlank(s);
    NothingToDrop(mid);
    if str[0] == NUL { return; }
    CutBack(str, p1 - 1, mid);
  }

  lemma NothingToDrop(mid: bytes)
    ensures mid == [] ==> DropBack(mid) == mid
  {
  }

  /** The first loop. */
  method FirstNonBlank(str: array<byte>) returns (ptr: nat)
    requires NUL in str[..]
    ensures ptr <= |CStr(str[..])| && CStr(str[..])[ptr..] == DropFront(CStr(str[..]))
  {
    ghost var s := CStr(str[..]);
    ptr := 0;
    assert s[0..] == s;
    while 0 < str[ptr] <= 32
      invariant 0 <= ptr <= |s| && DropFront(s[ptr..]) == DropFront(s)
      decreases |s| - ptr
    {
      assert s[ptr..][1..] == s[ptr + 1..];
      ptr := ptr + 1;
    }
    assert ptr < |s| ==> s[ptr..][0] == str[ptr];
  }

  /** The second loop: the write index never passes the read index. */
  method ShiftDown(str: array<byte>, from: nat, ghost s: bytes) returns (p1: nat)
    requires NUL in str[..] && s == CStr(str[..]) && from <= |s|
    modifies str
    ensures p1 == |s| - from && str[..p1] == s[from..] && str[p1] == NUL
  {
    hide CStr;
    ghost var orig := str[..];
    var ptr := from;
    p1 := 0;
    while str[ptr] != NUL
      invariant from <= ptr <= |s| && p1 == ptr - from
      invariant forall k :: ptr <= k < str.Length ==> str[k] == orig[k]
      invariant forall k :: 0 <= k < p1 ==> str[k] == s[from + k]
      decreases |s| - ptr
    {
      str[p1] := str[ptr];
      p1 := p1 + 1;
      ptr := ptr + 1;
    }
    str[p1] := NUL;
  }

  /** The third loop. It stops at the first character at the latest, which is not blank. */
  method CutBack(str: array<byte>, last: nat, ghost mid: bytes)
    requires mid + [NUL] <= str[..] && NUL !in mid && last + 1 == |mid| && !Blank(mid[0])
    modifies str
    ensures NUL in str[..] && CStr(str[..]) == DropBack(mid)
  {
    var p1: int := last;
    assert mid[..last + 1] == mid;
    while 0 < str[p1] <= 32
      invariant 0 <= p1 <= last && DropBack(mid[..p1 + 1]) == DropBack(mid)
      invariant mid[..p1 + 1] + [NUL] <= str[..]
      decreases p1
    {
      assert str[p1] == mid[..p1 + 1][p1];
      assert mid[..p1 + 1][..p1] == mid[..p1];
      assert p1 > 0;
      str[p1] := NUL;
      p1 := p1 - 1;
    }
    assert str[p1] == mid[..p1 + 1][p1];
    assert mid[..p1 + 1] + [NUL] <= str[..];
    CStrAt(mid[..p1 + 1], str[..]);
  }
}
