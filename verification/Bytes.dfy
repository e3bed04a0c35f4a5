/** Bytes, C strings and the few byte constants the other modules share. */
module Bytes {

  type byte = b: int | 0 <= b < 256

  type bytes = seq<byte>

  const NUL: byte := 0
  const LF: byte := 10
  const CR: byte := 13
  const DOT: byte := 46
  const SLASH: byte := 47

  datatype Option<+T> = None | Some(value: T)

  /** The C string held at the start of a buffer: everything before the first NUL. */
  function CStr(s: bytes): (r: bytes)
    ensures r <= s && NUL !in r
    ensures NUL in s ==> |r| < |s| && s[|r|] == NUL
    ensures NUL !in s ==> r == s
  {
    if s == [] || s[0] == NUL then [] else [s[0]] + CStr(s[1..])
  }

  /** A NUL-free string followed by a NUL is the C string of any buffer that starts with both. */
  lemma {:induction false} CStrOfPrefix(s: bytes, buf: bytes)
    requires NUL !in s && s + [NUL] <= buf
    ensures CStr(buf) == s
  {
    if s != [] {
      assert s[1..] + [NUL] == (s + [NUL])[1..];
      CStrOfPrefix(s[1..], buf[1..]);
    }
  }

  /** The same for a string that is found in the buffer, with the terminator where it ends. */
  lemma CStrAt(s: bytes, buf: bytes)
    requires NUL !in s && |s| < |buf| && buf[..|s|] == s && buf[|s|] == NUL
    ensures CStr(buf) == s && s + [NUL] <= buf && NUL in buf
  {
    hide CStr;
    assert buf[..|s| + 1] == s + [NUL];
    CStrOfPrefix(s, buf);
  }

  /** The pieces between the separators, the empty ones included; there is always at least one. */
  function Split(sep: byte, s: bytes): (r: seq<bytes>)
    ensures |r| >= 1
  {
    if s == [] then [[]]
    else
      var r := Split(sep, s[1..]);
      if s[0] == sep then [[]] + r else [[s[0]] + r[0]] + r[1..]
  }

  lemma {:induction false} SplitClean(sep: byte, s: bytes)
    requires sep !in s
    ensures Split(sep, s) == [s]
  {
    if s != [] {
      SplitClean(sep, s[1..]);
      assert [s[0]] + s[1..] == s;
    }
  }

  lemma {:induction false} SplitConcat(sep: byte, a: bytes, b: bytes)
    ensures Split(sep, a + [sep] + b) == Split(sep, a) + Split(sep, b)
  {
    var s := a + [sep] + b;
    if a == [] {
      assert s[1..] == b;
    } else {
      assert s[1..] == a[1..] + [sep] + b;
      SplitConcat(sep, a[1..], b);
    }
  }

  lemma SplitAt(sep: byte, s: bytes, i: nat)
    requires i < |s| && s[i] == sep
    ensures Split(sep, s) == Split(sep, s[..i]) + Split(sep, s[i + 1..])
  {
    hide Split;
    assert s == s[..i] + [sep] + s[i + 1..];
    SplitConcat(sep, s[..i], s[i + 1..]);
  }

  /** No piece holds the separator, nor a byte that the text does not hold. */
  lemma {:induction false} PiecesAvoid(sep: byte, s: bytes, x: byte)
    requires x == sep || x !in s
    ensures forall i :: 0 <= i < |Split(sep, s)| ==> x !in Split(sep, s)[i]
  {
    if s != [] {
      PiecesAvoid(sep, s[1..], x);
    }
  }

  /** What follows the first NUL does not matter. */
  lemma {:induction false} CStrStops(a: bytes, b: bytes)
    requires b != [] && b[0] == NUL
    ensures CStr(a + b) == CStr(a)
  {
    if a == [] {
      assert a + b == b;
    } else {
      assert (a + b)[1..] == a[1..] + b;
      CStrStops(a[1..], b);
    }
  }

  /** A buffer that holds the string and a terminator. */
  method BufferOf(s: bytes) returns (buf: array<byte>)
    ensures fresh(buf) && buf[..] == s + [NUL]
  {
    buf := new byte[|s| + 1];
    forall i | 0 <= i < |s| { buf[i] := s[i]; }
    buf[|s|] := NUL;
  }

  predicate NoDuplicates<T(==)>(s: seq<T>) {
    forall i, j :: 0 <= i < j < |s| ==> s[i] != s[j]
  }

  lemma NoDuplicatesConcat<T>(a: seq<T>, b: seq<T>)
    requires NoDuplicates(a) && NoDuplicates(b) && forall x :: x in a ==> x !in b
    ensures NoDuplicates(a + b)
  {
    var s := a + b;
    forall i, j | 0 <= i < j < |s| ensures s[i] != s[j] {
      if i < |a| && j >= |a| { assert s[i] in a && s[j] in b; }
    }
  }

  /** Blocks one after another. */
  function Flatten(chunks: seq<bytes>): bytes {
    if chunks == [] then [] else chunks[0] + Flatten(chunks[1..])
  }

  lemma {:induction false} FlattenSnoc(chunks: seq<bytes>, last: bytes)
    ensures Flatten(chunks + [last]) == Flatten(chunks) + last
  {
    if chunks == [] {
      assert [last][1..] == [];
    } else {
      assert (chunks + [last])[1..] == chunks[1..] + [last];
      FlattenSnoc(chunks[1..], last);
    }
  }

  /** A number as printf writes it. */
  function Decimal(n: nat): bytes {
    if n < 10 then [48 + n] else Decimal(n / 10) + [48 + n % 10]
  }

  lemma {:induction false} DecimalIsDigits(n: nat)
    ensures Decimal(n) != [] && forall c :: c in Decimal(n) ==> 48 <= c <= 57
  {
    if n >= 10 { DecimalIsDigits(n / 10); }
  }
}
