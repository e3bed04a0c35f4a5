/** The socket primitives: partial-transfer loops and the 8-byte size codec. */
module NetUtils {
  import opened Bytes

  /** What one call to recv or send does. The peer and the kernel decide it, not the server. */
  datatype IoResult = Moved(count: nat) | Retry | Fatal

  const MAX_REQUEST := 0x7FFFFFFF

  class Socket {
    /** Bytes the peer has written that were not received yet. */
    var incoming: bytes
    /** Everything sent to the peer so far. */
    var sent: bytes
    /** The number of recv and send calls made so far. */
    var calls: nat
    var open: bool
    const oracle: nat -> IoResult

    constructor (incoming: bytes, oracle: nat -> IoResult)
      ensures this.incoming == incoming && sent == [] && calls == 0 && open && this.oracle == oracle
    {
      this.incoming, sent, calls, open := incoming, [], 0, true;
      this.oracle := oracle;
    }

    /** No call ever fails or stalls. */
    ghost predicate Reliable() {
      forall i: nat :: oracle(i).Moved? && oracle(i).count > 0
    }

    /** One recv or SSL_read call: an arbitrary non-empty part of the request, or a failure. */
    method Recv(buf: array<byte>, at: nat, request: nat) returns (n: int, fatal: bool)
      requires 0 < request <= MAX_REQUEST && at + request <= buf.Length
      modifies this`incoming, this`calls, buf
      ensures calls == old(calls) + 1
      ensures n <= request && n <= |old(incoming)|
      ensures n > 0 ==> incoming == old(incoming)[n..]
      ensures n <= 0 ==> incoming == old(incoming)
      ensures forall k :: 0 <= k < buf.Length && !(at <= k < at + n) ==> buf[k] == old(buf[k])
      ensures forall k :: at <= k < at + n ==> buf[k] == old(incoming)[k - at]
      ensures open && Reliable() && old(incoming) != [] ==> n > 0
    {
      var result := if open then oracle(calls) else Fatal;
      calls := calls + 1;
      match result
      case Retry => n, fatal := -1, false;
      case Fatal => n, fatal := -1, true;
      case Moved(count) =>
        n := if count < request then count else request;
        n := if n < |incoming| then n else |incoming|;
        fatal := n == 0;
        forall i | 0 <= i < n {
          buf[at + i] := incoming[i];
        }
        incoming := incoming[n..];
    }

    /** One send or SSL_write call. */
    method Send(data: bytes) returns (n: int, fatal: bool)
      requires 0 < |data| <= MAX_REQUEST
      modifies this`sent, this`calls
      ensures calls == old(calls) + 1
      ensures n <= |data|
      ensures n > 0 ==> sent == old(sent) + data[..n]
      ensures n <= 0 ==> sent == old(sent)
      ensures open && Reliable() ==> n > 0
    {
      var result := if open then oracle(calls) else Fatal;
      calls := calls + 1;
      match result
      case Retry => n, fatal := -1, false;
      case Fatal => n, fatal := -1, true;
      case Moved(count) =>
        n := if count < |data| then count else |data|;
        fatal := false;
        sent := sent + data[..n];
    }

    /** read_sock: fills `buf[..size]` with the next `size` bytes, or stops at a failure. */
    method ReadSock(buf: array<byte>, size: nat) returns (ok: bool)
      requires size <= buf.Length
      modifies this`incoming, this`calls, buf
      ensures ok ==> size <= |old(incoming)| && incoming == old(incoming)[size..]
      ensures ok ==> buf[..size] == old(incoming)[..size]
      ensures !ok ==> exists k :: 0 <= k < size && k <= |old(incoming)| && incoming == old(incoming)[k..]
                                  && buf[..k] == old(incoming)[..k]
      ensures buf[size..] == old(buf[size..])
      ensures calls <= old(calls) + 11 * size + 1
      ensures open && Reliable() && size <= |old(incoming)| ==> ok
    {
      var cnt := 0;
      var total := 0;
      while total < size
        invariant 0 <= total <= size && total <= |old(incoming)|
        invariant incoming == old(incoming)[total..]
        invariant forall k :: 0 <= k < total ==> buf[k] == old(incoming)[k]
        invariant forall k :: size <= k < buf.Length ==> buf[k] == old(buf[k])
        invariant 0 <= cnt <= 11 && calls <= old(calls) + 11 * total + cnt
        invariant total == size ==> cnt <= 1
        decreases size - total, 11 - cnt
      {
        var request := size - total;
        if request > MAX_REQUEST { request := MAX_REQUEST; }
        var n, fatal := Recv(buf, total, request);
        if n > 0 {
          total := total + n;
          cnt := 0;
        } else if cnt > 10 || fatal {
          return false;
        }
        cnt := cnt + 1;
      }
      return true;
    }

    /** write_sock: sends the whole of `data` in order, or a proper prefix of it before a failure. */
    method WriteSock(data: bytes) returns (ok: bool)
      modifies this`sent, this`calls
      ensures ok ==> sent == old(sent) + data
      ensures !ok ==> exists k :: 0 <= k < |data| && sent == old(sent) + data[..k]
      ensures calls <= old(calls) + 11 * |data| + 1
      ensures open && Reliable() ==> ok
    {
      var cnt := 0;
      var total := 0;
      while total < |data|
        invariant 0 <= total <= |data|
        invariant sent == old(sent) + data[..total]
        invariant 0 <= cnt <= 11 && calls <= old(calls) + 11 * total + cnt
        invariant total == |data| ==> cnt <= 1
        decreases |data| - total, 11 - cnt
      {
        var request := |data| - total;
        if request > MAX_REQUEST { request := MAX_REQUEST; }
        var n, fatal := Send(data[total..total + request]);
        if n > 0 {
          assert data[..total] + data[total..total + request][..n] == data[..total + n];
          total := total + n;
          cnt := 0;
        } else if cnt > 10 || fatal {
          return false;
        }
        cnt := cnt + 1;
      }
      return true;
    }

    /** A read into a buffer of exactly `size` bytes, as every caller in methods.c does it. */
    method ReadBytes(size: nat) returns (ok: bool, data: bytes)
      modifies this`incoming, this`calls
      ensures ok ==> size <= |old(incoming)| && data == old(incoming)[..size] && incoming == old(incoming)[size..]
      ensures !ok ==> exists k :: 0 <= k < size && k <= |old(incoming)| && incoming == old(incoming)[k..]
      ensures open && Reliable() && size <= |old(incoming)| ==> ok
    {
      var buf := new byte[size];
      ok := ReadSock(buf, size);
      data := buf[..];
    }

    /** send_size: the size as eight bytes, most significant first. */
    method SendSize(size: int) returns (ok: bool)
      requires IsInt64(size)
      modifies this`sent, this`calls
      ensures ok ==> sent == old(sent) + EncodeSize(size)
      ensures !ok ==> exists k :: 0 <= k < 8 && sent == old(sent) + EncodeSize(size)[..k]
      ensures open && Reliable() ==> ok
    {
      var szBuf := new byte[8];
      FillSize(szBuf, size);
      var data := szBuf[..];
      assert data == EncodeSize(size);
      ok := WriteSock(data);
    }

    /** read_size: the inverse of send_size. */
    method ReadSize() returns (ok: bool, size: int)
      modifies this`incoming, this`calls
      ensures ok ==> 8 <= |old(incoming)| && incoming == old(incoming)[8..] && size == DecodeSize(old(incoming)[..8])
      ensures !ok ==> exists k :: 0 <= k < 8 && k <= |old(incoming)| && incoming == old(incoming)[k..]
      ensures open && Reliable() && 8 <= |old(incoming)| ==> ok
    {
      size := 0;
      var szBuf;
      ok, szBuf := ReadBytes(8);
      if ok {
        size := UnpackSize(szBuf);
      }
    }
  }

  /** The loop of send_size, which fills its buffer from the end. */
  method FillSize(szBuf: array<byte>, size: int)
    modifies szBuf
    ensures szBuf[..] == BigEndian(size, szBuf.Length)
  {
    var sz, i := size, szBuf.Length - 1;
    while i >= 0
      invariant -1 <= i < szBuf.Length
      invariant BigEndian(size, szBuf.Length) == BigEndian(sz, i + 1) + szBuf[i + 1..]
    {
      ghost var done := szBuf[i + 1..];
      szBuf[i] := sz % 256;  // two's complement: the low byte of a negative number is the residue
      assert BigEndian(sz, i + 1) == BigEndian(sz / 256, i) + [szBuf[i]];
      assert szBuf[i..] == [szBuf[i]] + done;
      sz := sz / 256;        // the arithmetic shift rounds towards minus infinity
      i := i - 1;
    }
    assert BigEndian(sz, 0) + szBuf[0..] == szBuf[..];
  }

  /** The loop of read_size: shift in one byte after another in a 64-bit accumulator. */
  method UnpackSize(szBuf: bytes) returns (size: int)
    requires |szBuf| == 8
    ensures size == DecodeSize(szBuf)
  {
    size := 0;
    var i := 0;
    while i < 8
      invariant 0 <= i <= 8
      invariant size == WrapInt64(Unsigned(szBuf[..i]))
    {
      assert szBuf[..i + 1][..i] == szBuf[..i];
      UnsignedBound(szBuf[..i]);
      PowerOfBytes(i);
      size := WrapInt64(size * 256 + szBuf[i]);
      i := i + 1;
    }
    assert szBuf[..i] == szBuf;
  }

  // ---------------------------------------------------------------- the size codec

  predicate IsInt64(n: int) { -0x8000_0000_0000_0000 <= n < 0x8000_0000_0000_0000 }

  /** The value an int64_t holds after an operation whose exact result is `n`. */
  function WrapInt64(n: int): (r: int)
    ensures IsInt64(r)
  {
    var u := n % 0x1_0000_0000_0000_0000;
    if u < 0x8000_0000_0000_0000 then u else u - 0x1_0000_0000_0000_0000
  }

  /** The low `k` bytes of the two's complement form of `n`, most significant first. */
  function BigEndian(n: int, k: nat): (r: bytes)
    ensures |r| == k
    decreases k, n
  {
    if k == 0 then [] else BigEndian(n / 256, k - 1) + [n % 256]
  }

  function Unsigned(s: bytes): nat {
    if s == [] then 0 else 256 * Unsigned(s[..|s| - 1]) + s[|s| - 1]
  }

  function EncodeSize(n: int): (r: bytes)
    ensures |r| == 8
  {
    BigEndian(n, 8)
  }

  function DecodeSize(s: bytes): (n: int)
    requires |s| == 8
    ensures IsInt64(n)
  {
    WrapInt64(Unsigned(s))
  }

  /** The most significant byte comes first, and -1 is eight times 255. */
  lemma SizeBytes(n: int)
    ensures EncodeSize(n)[7] == n % 256 && EncodeSize(n)[6] == n / 256 % 256
    ensures 0 <= n < 256 ==> EncodeSize(n) == [0, 0, 0, 0, 0, 0, 0, n]
    ensures 0 <= n < 0x1_0000_0000 ==>
              EncodeSize(n) == [0, 0, 0, 0, n / 0x100_0000, n / 0x1_0000 % 256, n / 256 % 256, n % 256]
    ensures EncodeSize(-1) == [255, 255, 255, 255, 255, 255, 255, 255]
  {
    EightBytes(n);
    EightBytes(-1);
    if 0 <= n < 0x1_0000_0000 { SmallQuotients(n); }
  }

  lemma EightBytes(n: int)
    ensures EncodeSize(n) ==
            [n / 256 / 256 / 256 / 256 / 256 / 256 / 256 % 256, n / 256 / 256 / 256 / 256 / 256 / 256 % 256,
             n / 256 / 256 / 256 / 256 / 256 % 256, n / 256 / 256 / 256 / 256 % 256, n / 256 / 256 / 256 % 256,
             n / 256 / 256 % 256, n / 256 % 256, n % 256]
  {
    var b := n / 256 / 256 / 256 / 256;
    assert BigEndian(b, 4) == [b / 256 / 256 / 256 % 256, b / 256 / 256 % 256, b / 256 % 256, b % 256] by {
      assert BigEndian(b / 256 / 256 / 256, 1) == [b / 256 / 256 / 256 % 256];
      assert BigEndian(b / 256 / 256, 2) == [b / 256 / 256 / 256 % 256, b / 256 / 256 % 256];
    }
    assert BigEndian(n / 256 / 256 / 256, 5) == BigEndian(b, 4) + [n / 256 / 256 / 256 % 256];
    assert BigEndian(n / 256 / 256, 6) == BigEndian(n / 256 / 256 / 256, 5) + [n / 256 / 256 % 256];
    assert BigEndian(n / 256, 7) == BigEndian(n / 256 / 256, 6) + [n / 256 % 256];
    assert EncodeSize(n) == BigEndian(n / 256, 7) + [n % 256];
  }

  lemma SmallQuotients(n: nat)
    requires n < 0x1_0000_0000
    ensures n / 256 / 256 == n / 0x1_0000 && n / 256 / 256 / 256 == n / 0x100_0000
    ensures n / 256 / 256 / 256 < 256 && n / 256 / 256 / 256 / 256 == 0
  {
  }

  function Power256(k: nat): nat {
    if k == 0 then 1 else 256 * Power256(k - 1)
  }

  lemma PowerOfBytes(k: nat)
    requires k <= 8
    ensures k < 8 ==> 256 * Power256(k) <= 0x1_0000_0000_0000_0000 && Power256(k) <= 0x100_0000_0000_0000
    ensures k == 8 ==> Power256(k) == 0x1_0000_0000_0000_0000
  {
    assert Power256(1) == 0x100 && Power256(2) == 0x1_0000 && Power256(3) == 0x100_0000;
    assert Power256(4) == 0x1_0000_0000 && Power256(5) == 0x100_0000_0000;
    assert Power256(6) == 0x1_0000_0000_0000 && Power256(7) == 0x100_0000_0000_0000;
  }

  lemma {:induction false} UnsignedBound(s: bytes)
    ensures Unsigned(s) < Power256(|s|)
  {
    if s != [] {
      UnsignedBound(s[..|s| - 1]);
    }
  }

  /** What is left of `n` after dropping its low `k` bytes. */
  function Shifted(n: int, k: nat): int
    decreases k
  {
    if k == 0 then n else Shifted(n / 256, k - 1)
  }

  lemma {:induction false} BytesAndShift(n: int, k: nat)
    ensures n == Unsigned(BigEndian(n, k)) + Power256(k) * Shifted(n, k)
    decreases k
  {
    if k > 0 {
      BytesAndShift(n / 256, k - 1);
      var low := BigEndian(n / 256, k - 1);
      assert BigEndian(n, k) == low + [n % 256] && (low + [n % 256])[..k - 1] == low;
      OneByteMore(n, Unsigned(low), Power256(k - 1), Shifted(n / 256, k - 1));
    }
  }

  lemma OneByteMore(n: int, low: nat, p: nat, h: int)
    requires n / 256 == low + p * h
    ensures n == 256 * low + n % 256 + 256 * p * h
  {
    Factor(p, h);
  }

  lemma Factor(p: nat, h: int)
    ensures 256 * p * h == 256 * (p * h)
  {
  }

  lemma LastByte(n: int, b: byte, k: nat)
    ensures BigEndian(256 * n + b, k + 1) == BigEndian(n, k) + [b]
  {
    assert (256 * n + b) / 256 == n && (256 * n + b) % 256 == b;
  }

  lemma {:induction false} BigEndianOfUnsigned(s: bytes, j: int)
    ensures BigEndian(Unsigned(s) + Power256(|s|) * j, |s|) == s
  {
    if s != [] {
      var high, k := s[..|s| - 1], |s| - 1;
      BigEndianOfUnsigned(high, j);
      var n := Unsigned(high) + Power256(k) * j;
      Factor(Power256(k), j);
      assert Unsigned(s) + Power256(|s|) * j == 256 * n + s[k];
      LastByte(n, s[k], k);
      assert s == high + [s[k]];
    }
  }

  /** Every int64_t survives send_size followed by read_size, -1 included. */
  lemma SizeRoundTrip(n: int)
    requires IsInt64(n)
    ensures DecodeSize(EncodeSize(n)) == n
  {
    BytesAndShift(n, 8);
    UnsignedBound(EncodeSize(n));
    PowerOfBytes(8);
    WrapOfResidue(n, Unsigned(EncodeSize(n)), Shifted(n, 8));
  }

  lemma WrapOfResidue(n: int, u: nat, h: int)
    requires IsInt64(n) && u < 0x1_0000_0000_0000_0000 && n == u + 0x1_0000_0000_0000_0000 * h
    ensures WrapInt64(u) == n
  {
  }

  /** Adding a multiple of 2^(8k) does not change the low `k` bytes. */
  lemma BigEndianOf(s: bytes, n: int, j: int)
    requires n == Unsigned(s) + Power256(|s|) * j
    ensures BigEndian(n, |s|) == s
  {
    BigEndianOfUnsigned(s, j);
  }

  lemma DecodedForm(s: bytes)
    requires |s| == 8
    ensures DecodeSize(s) == Unsigned(s) || DecodeSize(s) == Unsigned(s) - Power256(|s|)
  {
    UnsignedBound(s);
    PowerOfBytes(|s|);
  }

  /** Every 8-byte buffer is the encoding of exactly the value it decodes to. */
  lemma SizeBytesRoundTrip(s: bytes)
    requires |s| == 8
    ensures EncodeSize(DecodeSize(s)) == s
  {
    DecodedForm(s);
    BigEndianOf(s, DecodeSize(s), if DecodeSize(s) == Unsigned(s) then 0 else -1);
  }
}
