/** Well-formed UTF-8, as section 4 of RFC 3629 defines it. */
module Utf8 {
  import opened Bytes

  predicate InRange(s: bytes, k: nat, lo: int, hi: int) {
    k < |s| && lo <= s[k] <= hi
  }

  predicate Tail(s: bytes, k: nat) {
    InRange(s, k, 0x80, 0xBF)
  }

  /** The length of the UTF8-1, UTF8-2, UTF8-3 or UTF8-4 sequence at the start of `s`; 0 if there is none. */
  function CharLength(s: bytes): (n: nat)
    ensures n <= |s|
  {
    if InRange(s, 0, 0x00, 0x7F) then 1
    else if InRange(s, 0, 0xC2, 0xDF) && Tail(s, 1) then 2
    else if InRange(s, 0, 0xE0, 0xE0) && InRange(s, 1, 0xA0, 0xBF) && Tail(s, 2) then 3
    else if InRange(s, 0, 0xE1, 0xEC) && Tail(s, 1) && Tail(s, 2) then 3
    else if InRange(s, 0, 0xED, 0xED) && InRange(s, 1, 0x80, 0x9F) && Tail(s, 2) then 3
    else if InRange(s, 0, 0xEE, 0xEF) && Tail(s, 1) && Tail(s, 2) then 3
    else if InRange(s, 0, 0xF0, 0xF0) && InRange(s, 1, 0x90, 0xBF) && Tail(s, 2) && Tail(s, 3) then 4
    else if InRange(s, 0, 0xF1, 0xF3) && Tail(s, 1) && Tail(s, 2) && Tail(s, 3) then 4
    else if InRange(s, 0, 0xF4, 0xF4) && InRange(s, 1, 0x80, 0x8F) && Tail(s, 2) && Tail(s, 3) then 4
    else 0
  }

  /** UTF8-octets = *( UTF8-char ). */
  predicate WellFormed(s: bytes)
  {
    s == [] || (CharLength(s) > 0 && WellFormed(s[CharLength(s)..]))
  }

  /** The same language as a byte automaton, which is what proofs about edits of `s` need. */
  datatype State = Start | Want1 | Want2 | Want3 | AfterE0 | AfterED | AfterF0 | AfterF4 | Bad

  function Next(q: State, c: byte): State {
    match q
    case Start =>
      if c <= 0x7F then Start else if 0xC2 <= c <= 0xDF then Want1
      else if c == 0xE0 then AfterE0 else if c == 0xED then AfterED else if 0xE1 <= c <= 0xEF then Want2
      else if c == 0xF0 then AfterF0 else if 0xF1 <= c <= 0xF3 then Want3 else if c == 0xF4 then AfterF4 else Bad
    case Want1 => if 0x80 <= c <= 0xBF then Start else Bad
    case Want2 => if 0x80 <= c <= 0xBF then Want1 else Bad
    case Want3 => if 0x80 <= c <= 0xBF then Want2 else Bad
    case AfterE0 => if 0xA0 <= c <= 0xBF then Want1 else Bad
    case AfterED => if 0x80 <= c <= 0x9F then Want1 else Bad
    case AfterF0 => if 0x90 <= c <= 0xBF then Want2 else Bad
    case AfterF4 => if 0x80 <= c <= 0x8F then Want2 else Bad
    case Bad => Bad
  }

  function Run(q: State, s: bytes): State
    decreases s
  {
    if s == [] then q else Run(Next(q, s[0]), s[1..])
  }

  lemma {:induction false} RunConcat(q: State, a: bytes, b: bytes)
    ensures Run(q, a + b) == Run(Run(q, a), b)
    decreases a
  {
    if a == [] {
      assert a + b == b;
    } else {
      assert (a + b)[1..] == a[1..] + b;
      RunConcat(Next(q, a[0]), a[1..], b);
    }
  }

  lemma {:induction false} BadStaysBad(s: bytes)
    ensures Run(Bad, s) == Bad
  {
    if s != [] { BadStaysBad(s[1..]); }
  }

  /** One character takes the automaton from Start back to Start; anything else never comes back. */
  lemma RunOneChar(s: bytes)
    requires s != []
    ensures CharLength(s) > 0 ==> Run(Start, s) == Run(Start, s[CharLength(s)..])
    ensures CharLength(s) == 0 ==> Run(Start, s) != Start
  {
    hide Run;
    assert s[0..] == s;
    RunFrom(Start, s, 0);
    RunFrom(Next(Start, s[0]), s, 1);
    if |s| > 1 {
      var q2 := Next(Next(Start, s[0]), s[1]);
      RunFrom(q2, s, 2);
      if |s| > 2 {
        var q3 := Next(q2, s[2]);
        RunFrom(q3, s, 3);
        if |s| > 3 {
          RunFrom(Next(q3, s[3]), s, 4);
        }
      }
    }
  }

  lemma RunFrom(q: State, s: bytes, k: nat)
    requires k <= |s|
    ensures Run(q, s[k..]) == if k == |s| then q else Run(Next(q, s[k]), s[k + 1..])
    ensures q == Bad ==> Run(q, s[k..]) == Bad
  {
    if k < |s| {
      assert s[k..][1..] == s[k + 1..];
    }
    BadStaysBad(s[k..]);
  }

  /** The automaton accepts exactly the strings of the grammar. */
  lemma {:induction false} AutomatonIsGrammar(s: bytes)
    ensures WellFormed(s) <==> Run(Start, s) == Start
  {
    if s != [] {
      RunOneChar(s);
      if CharLength(s) > 0 {
        AutomatonIsGrammar(s[CharLength(s)..]);
      }
    }
  }

  /** Cutting a well-formed string just before an ASCII byte leaves a well-formed string. */
  lemma PrefixBeforeAscii(s: bytes, k: nat)
    requires k < |s| && s[k] <= 0x7F && WellFormed(s)
    ensures WellFormed(s[..k])
  {
    AutomatonIsGrammar(s);
    AutomatonIsGrammar(s[..k]);
    assert s == s[..k] + ([s[k]] + s[k + 1..]);
    RunConcat(Start, s[..k], [s[k]] + s[k + 1..]);
    BadStaysBad(s[k + 1..]);
  }

  lemma WellFormedConcat(a: bytes, b: bytes)
    requires WellFormed(a) && WellFormed(b)
    ensures WellFormed(a + b)
  {
    AutomatonIsGrammar(a);
    AutomatonIsGrammar(b);
    AutomatonIsGrammar(a + b);
    RunConcat(Start, a, b);
  }
}
