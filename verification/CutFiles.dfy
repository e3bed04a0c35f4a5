/** The clipboard list of cut files as set_clipboard_cut_files writes it: newline-separated URLs in one buffer. */
module CutFiles {
  import opened Bytes
  import opened Url

  const MAX_URL_LEN := 4096

  /** "cut" and "copy" */
  const CUT: bytes := [99, 117, 116]
  const COPY: bytes := [99, 111, 112, 121]

  // ---------------------------------------------------------------- the writer

  /** A URL as the writer copies it: strnlen stops at 4096 bytes. */
  function Clipped(url: bytes): bytes {
    if |url| <= MAX_URL_LEN then url else url[..MAX_URL_LEN]
  }

  function Entry(path: bytes): bytes { Clipped(Encode(path)) }

  function Lines(paths: seq<bytes>): bytes {
    if paths == [] then [] else Lines(paths[..|paths| - 1]) + [LF] + Entry(paths[|paths| - 1])
  }

  function CutText(paths: seq<bytes>): bytes { CUT + Lines(paths) }

  /** The length of the buffer the writer allocates, from the whole URLs. */
  function Allocated(paths: seq<bytes>): nat {
    if paths == [] then 4 else Allocated(paths[..|paths| - 1]) + |Encode(paths[|paths| - 1])| + 1
  }

  lemma {:induction false} AllocationIsEnough(paths: seq<bytes>)
    ensures |CutText(paths)| + 1 <= Allocated(paths)
    ensures |CutText(paths)| + 1 == Allocated(paths) <==> forall p :: p in paths ==> |Encode(p)| <= MAX_URL_LEN
  {
    if paths != [] {
      var init, last := paths[..|paths| - 1], paths[|paths| - 1];
      AllocationIsEnough(init);
      assert paths == init + [last];
    }
  }

  lemma {:induction false} PrefixAllocation(paths: seq<bytes>, i: nat)
    requires i <= |paths|
    ensures Allocated(paths[..i]) <= Allocated(paths)
    decreases |paths| - i
  {
    if i == |paths| {
      assert paths[..i] == paths;
    } else {
      assert paths[..i + 1][..i] == paths[..i];
      PrefixAllocation(paths, i + 1);
    }
  }

  /** The paths for whose URLs malloc grants memory; the others are skipped. */
  function Granted(paths: seq<bytes>, memory: nat -> bool): seq<bytes> {
    if paths == [] then []
    else
      var init := Granted(paths[..|paths| - 1], memory);
      if memory(|paths| - 1) then init + [paths[|paths| - 1]] else init
  }

  /** The positions below `n` for which there is memory, in their order. */
  ghost predicate AreGranted(n: nat, memory: nat -> bool, at: seq<nat>) {
    && (forall i: nat :: i in at <==> i < n && memory(i))
    && forall j, k :: 0 <= j < k < |at| ==> at[j] < at[k]
  }

  lemma OneMoreGranted(n: nat, memory: nat -> bool, at: seq<nat>)
    requires AreGranted(n, memory, at)
    ensures AreGranted(n + 1, memory, if memory(n) then at + [n] else at)
  {
    if memory(n) {
      var more := at + [n];
      assert forall k :: 0 <= k < |at| ==> at[k] in at;
      assert forall i: nat :: i in more <==> i in at || i == n;
    }
  }

  /** The paths are skipped for which there is no memory, and the others keep their order. */
  lemma {:induction false} GrantedAre(paths: seq<bytes>, memory: nat -> bool) returns (at: seq<nat>)
    ensures AreGranted(|paths|, memory, at) && |Granted(paths, memory)| == |at|
    ensures forall k :: 0 <= k < |at| ==> at[k] < |paths| && Granted(paths, memory)[k] == paths[at[k]]
  {
    hide AreGranted;
    if paths == [] {
      NoneGranted(memory);
      return [];
    }
    var n := |paths| - 1;
    var before := GrantedAre(paths[..n], memory);
    OneMoreGranted(n, memory, before);
    at := if memory(n) then before + [n] else before;
  }

  lemma NoneGranted(memory: nat -> bool)
    ensures AreGranted(0, memory, [])
  {
  }

  lemma {:induction false} AllGranted(paths: seq<bytes>, memory: nat -> bool)
    requires forall i: nat :: i < |paths| ==> memory(i)
    ensures Granted(paths, memory) == paths
  {
    if paths != [] {
      AllGranted(paths[..|paths| - 1], memory);
      assert paths == paths[..|paths| - 1] + [paths[|paths| - 1]];
    }
  }

  /** The whole list fits in 32 bits, and there is memory for it. */
  predicate CutFits(paths: seq<bytes>, memory: nat -> bool) {
    Allocated(Granted(paths, memory)) < 0xFFFF_FFFF && memory(|paths|)
  }

  /**
    * set_clipboard_cut_files up to handing the whole buffer to the X selection; `memory` are the answers of malloc,
    * the last one for the buffer itself.
    */
  method SetClipboardCutFiles(paths: seq<bytes>, memory: nat -> bool) returns (ok: bool, buf: array<byte>)
    ensures ok <==> CutFits(paths, memory)
    ensures fresh(buf)
    ensures ok ==> buf.Length == Allocated(Granted(paths, memory)) && CutText(Granted(paths, memory)) + [NUL] <= buf[..]
    ensures ok ==> [99, 117, 116] <= buf[..] && buf.Length < 0xFFFF_FFFF
    ensures ok ==> (buf[..] == CutText(Granted(paths, memory)) + [NUL]
                    <==> forall p :: p in Granted(paths, memory) ==> |Encode(p)| <= MAX_URL_LEN)
  {
    hide Granted, Allocated, CutText, Encode;
    ghost var listed := Granted(paths, memory);
    var urls, totLen := CollectUrls(paths, memory);
    if totLen >= 0xFFFF_FFFF || !memory(|paths|) {
      buf := new byte[0];
      return false, buf;
    }
    AllocationIsEnough(listed);
    AllocationIsPositive(listed);
    buf := new byte[totLen];
    buf[0], buf[1], buf[2], buf[3] := CUT[0], CUT[1], CUT[2], NUL;
    assert buf[..3] == CUT;
    var p := WriteLines(buf, urls, listed);
    buf[p] := NUL;
    assert buf[..p + 1] == CutText(listed) + [NUL];
    CutComesFirst(listed);
    ok := true;
  }

  lemma CutComesFirst(paths: seq<bytes>)
    ensures [99, 117, 116] <= CutText(paths)
  {
  }

  lemma AllocationIsPositive(paths: seq<bytes>)
    ensures Allocated(paths) >= 4
  {
    AllocationIsEnough(paths);
  }

  /** The writing loop. */
  method WriteLines(buf: array<byte>, urls: seq<bytes>, ghost paths: seq<bytes>) returns (p: nat)
    requires |urls| == |paths| && forall i :: 0 <= i < |paths| ==> urls[i] == Encode(paths[i])
    requires buf.Length == Allocated(paths) >= 4 && buf[..3] == CUT
    modifies buf
    ensures p == |CutText(paths)| < buf.Length && buf[..p] == CutText(paths)
  {
    p := 3;
    AllocationIsEnough(paths);
    for i := 0 to |urls|
      invariant p == |CutText(paths[..i])| < buf.Length
      invariant buf[..p] == CutText(paths[..i])
    {
      LineStep(paths, i);
      p := PutLine(buf, p, urls[i]);
    }
    assert paths[..|urls|] == paths;
  }

  lemma LineStep(paths: seq<bytes>, i: nat)
    requires i < |paths|
    ensures CutText(paths[..i + 1]) == CutText(paths[..i]) + ([LF] + Entry(paths[i]))
    ensures |CutText(paths[..i + 1])| < Allocated(paths)
  {
    hide Entry, Encode;
    assert paths[..i + 1][..i] == paths[..i];
    AllocationIsEnough(paths[..i + 1]);
    PrefixAllocation(paths, i + 1);
  }

  /** One turn of the writing loop: a newline and at most 4096 bytes of the URL. */
  method PutLine(buf: array<byte>, p: nat, url: bytes) returns (next: nat)
    requires p + 1 + |Clipped(url)| < buf.Length
    modifies buf
    ensures next == p + 1 + |Clipped(url)|
    ensures buf[..next] == old(buf[..p]) + ([LF] + Clipped(url))
  {
    buf[p] := LF;
    var len := if |url| <= MAX_URL_LEN then |url| else MAX_URL_LEN;
    forall k | 0 <= k < len { buf[p + 1 + k] := url[k]; }
    buf[p + 1 + len] := if len < |url| then url[len] else NUL;  // strncpy copies len + 1 bytes
    next := p + 1 + len;
  }

  /** The first loop: encode every path for which there is memory and add up the lengths. */
  method CollectUrls(paths: seq<bytes>, memory: nat -> bool) returns (urls: seq<bytes>, totLen: nat)
    ensures |urls| == |Granted(paths, memory)|
    ensures forall i :: 0 <= i < |urls| ==> urls[i] == Encode(Granted(paths, memory)[i])
    ensures totLen == Allocated(Granted(paths, memory))
  {
    hide Encode;
    urls, totLen := [], 4;
    for i := 0 to |paths|
      invariant |urls| == |Granted(paths[..i], memory)|
      invariant forall j :: 0 <= j < |urls| ==> urls[j] == Encode(Granted(paths[..i], memory)[j])
      invariant totLen == Allocated(Granted(paths[..i], memory))
    {
      GrantedStep(paths, memory, i);
      var len, url := EncodeIfGranted(paths[i], memory(i));
      if len == 0 { continue; }
      totLen := totLen + len + 1;
      urls := urls + [url];
    }
    assert paths[..|paths|] == paths;
  }

  /** url_encode returns 0 if malloc fails. */
  method EncodeIfGranted(path: bytes, granted: bool) returns (len: nat, url: bytes)
    ensures len == 0 <==> !granted
    ensures granted ==> url == Encode(path) && len == |url|
  {
    if !granted { return 0, []; }
    var buf;
    buf, len := UrlEncode(path);
    url := buf[..len];
    assert |Encode(path)| >= 7;
  }

  lemma GrantedStep(paths: seq<bytes>, memory: nat -> bool, i: nat)
    requires i < |paths|
    ensures var before := Granted(paths[..i], memory);
            Granted(paths[..i + 1], memory) == if memory(i) then before + [paths[i]] else before
    ensures var before := Granted(paths[..i], memory);
            Allocated(before + [paths[i]]) == Allocated(before) + |Encode(paths[i])| + 1
  {
    hide Encode;
    assert paths[..i + 1][..i] == paths[..i];
    var more := Granted(paths[..i], memory) + [paths[i]];
    assert more[..|more| - 1] == Granted(paths[..i], memory);
  }
}
