/**
 Finding a frame in a byte stream. The anchor slides a 4-byte window over its input; the
 host counts matched bytes and restarts at 0 or 1. Both stop at the first occurrence of
 their magic, because the four magic bytes are pairwise distinct, and what follows
 decodes to what was sent.
 */
module Framing {
  import opened Nor
  import opened SfController
  import opened Checksums

  const REQ_MAGIC: bv32 := 0x3141_4655
  const RESP_MAGIC: bv32 := 0x3152_4655
  const REQ_BYTES: seq<Byte> := [0x55, 0x46, 0x41, 0x31]
  const RESP_BYTES: seq<Byte> := [0x55, 0x46, 0x52, 0x31]

  // ---- words on the wire ----

  /** `uart_recv_u32`: four bytes or-ed together, low byte first. */
  function Join(a: Byte, b: Byte, c: Byte, d: Byte): bv32 {
    (a as bv32) | ((b as bv32) << 8) | ((c as bv32) << 16) | ((d as bv32) << 24)
  }

  /** `uart_send_u32`, `struct.pack("<I")` */
  function Bytes(v: bv32): (s: seq<Byte>)
    ensures |s| == 4
  {
    [Lane(v, 0), Lane(v, 1), Lane(v, 2), Lane(v, 3)]
  }

  function Word(s: seq<Byte>, k: nat): bv32
    requires k + 4 <= |s|
  {
    Join(s[k], s[k + 1], s[k + 2], s[k + 3])
  }

  lemma JoinLanes(v: bv32)
    ensures Join(Lane(v, 0), Lane(v, 1), Lane(v, 2), Lane(v, 3)) == v
  {
  }

  lemma WordOfBytes(s: seq<Byte>, k: nat, v: bv32)
    requires k + 4 <= |s| && s[k..k + 4] == Bytes(v)
    ensures Word(s, k) == v
  {
    JoinLanes(v);
    var t := s[k..k + 4];
    assert s[k] == t[0] && s[k + 1] == t[1] && s[k + 2] == t[2] && s[k + 3] == t[3];
  }

  // ---- occurrences of a magic ----

  predicate MagicAt(s: seq<Byte>, k: nat, magic: seq<Byte>) {
    k + |magic| <= |s| && s[k..k + |magic|] == magic
  }

  /** The first occurrence ends at `end`. */
  ghost predicate FirstEndsAt(s: seq<Byte>, end: nat, magic: seq<Byte>) {
    && |magic| <= end <= |s| && MagicAt(s, end - |magic|, magic)
    && forall k: nat :: k < end - |magic| ==> !MagicAt(s, k, magic)
  }

  predicate Distinct(magic: seq<Byte>) {
    forall i, j :: 0 <= i < j < |magic| ==> magic[i] != magic[j]
  }

  /** A magic of distinct bytes cannot straddle the start of another copy of itself. */
  lemma NoStraddle(prefix: seq<Byte>, magic: seq<Byte>, tail: seq<Byte>)
    requires |magic| == 4 && Distinct(magic) && forall k: nat :: !MagicAt(prefix, k, magic)
    ensures FirstEndsAt(prefix + magic + tail, |prefix| + 4, magic)
  {
    var s := prefix + magic + tail;
    assert s[|prefix|..|prefix| + 4] == magic;
    forall k: nat | k < |prefix| ensures !MagicAt(s, k, magic) {
      if k + 4 <= |prefix| {
        assert prefix[k..k + 4] == s[k..k + 4] && !MagicAt(prefix, k, magic);
      } else {
        var u, i := s[k..k + 4], |prefix| - k;
        assert u[i] == s[|prefix|] == magic[0];
        assert magic[0] != magic[i];
      }
    }
  }

  /** No occurrence ends at or before `end`. */
  ghost predicate NoneYet(s: seq<Byte>, end: nat, magic: seq<Byte>) {
    forall k: nat :: k + |magic| <= end ==> !MagicAt(s, k, magic)
  }

  /** Reading one more byte can complete one occurrence only, the one ending there. */
  lemma NoneStep(s: seq<Byte>, end: nat, magic: seq<Byte>)
    requires 0 < end <= |s| && |magic| == 4 && NoneYet(s, end - 1, magic)
    ensures end >= 4 ==> (MagicAt(s[..end], end - 4, magic) <==> MagicAt(s, end - 4, magic))
    ensures end >= 4 && MagicAt(s, end - 4, magic) ==> FirstEndsAt(s, end, magic)
    ensures end < 4 || !MagicAt(s, end - 4, magic) ==> NoneYet(s, end, magic)
  {
    if end >= 4 {
      assert s[..end][end - 4..end] == s[end - 4..end];
    }
  }

  // ---- the anchor's window ----

  function Slide(window: bv32, b: Byte): bv32 {
    (window >> 8) | ((b as bv32) << 24)
  }

  lemma SlideTo0(w: bv32, b: Byte)
    ensures Lane(Slide(w, b), 0) == Lane(w, 1)
  {
  }

  lemma SlideTo1(w: bv32, b: Byte)
    ensures Lane(Slide(w, b), 1) == Lane(w, 2)
  {
  }

  lemma SlideTo2(w: bv32, b: Byte)
    ensures Lane(Slide(w, b), 2) == Lane(w, 3)
  {
  }

  lemma SlideTo3(w: bv32, b: Byte)
    ensures Lane(Slide(w, b), 3) == b
  {
  }

  lemma MagicLanes(w: bv32)
    ensures w == REQ_MAGIC <==> Lane(w, 0) == 0x55 && Lane(w, 1) == 0x46 && Lane(w, 2) == 0x41 && Lane(w, 3) == 0x31
  {
    JoinLanes(w);
  }

  /** Lane j of the window is the byte 4 - j places back, or 0 before the start. */
  ghost predicate WindowOf(w: bv32, s: seq<Byte>) {
    && Lane(w, 3) == (if |s| >= 1 then s[|s| - 1] else 0)
    && Lane(w, 2) == (if |s| >= 2 then s[|s| - 2] else 0)
    && Lane(w, 1) == (if |s| >= 3 then s[|s| - 3] else 0)
    && Lane(w, 0) == (if |s| >= 4 then s[|s| - 4] else 0)
  }

  lemma WindowIsMagic(w: bv32, s: seq<Byte>)
    requires WindowOf(w, s)
    ensures w == REQ_MAGIC <==> |s| >= 4 && MagicAt(s, |s| - 4, REQ_BYTES)
  {
    MagicLanes(w);
    if |s| >= 4 {
      var t := s[|s| - 4..|s|];
      assert t == [s[|s| - 4], s[|s| - 3], s[|s| - 2], s[|s| - 1]];
      if t == REQ_BYTES {
        assert t[0] == 0x55 && t[1] == 0x46 && t[2] == 0x41 && t[3] == 0x31;
      }
    }
  }

  lemma WindowStep(w: bv32, stream: seq<Byte>, end: nat)
    requires end < |stream| && WindowOf(w, stream[..end])
    ensures WindowOf(Slide(w, stream[end]), stream[..end + 1])
  {
    SlideTo0(w, stream[end]);
    SlideTo1(w, stream[end]);
    SlideTo2(w, stream[end]);
    SlideTo3(w, stream[end]);
  }

  /** One more byte: the window moves on, and is the magic exactly when the first occurrence ends here. */
  lemma SlideStep(w: bv32, stream: seq<Byte>, end: nat)
    requires end < |stream| && WindowOf(w, stream[..end]) && NoneYet(stream, end, REQ_BYTES)
    ensures WindowOf(Slide(w, stream[end]), stream[..end + 1])
    ensures if Slide(w, stream[end]) == REQ_MAGIC then FirstEndsAt(stream, end + 1, REQ_BYTES)
            else NoneYet(stream, end + 1, REQ_BYTES)
  {
    WindowStep(w, stream, end);
    WindowIsMagic(Slide(w, stream[end]), stream[..end + 1]);
    NoneStep(stream, end + 1, REQ_BYTES);
  }

  /** The scan at the head of `uart_recv_request`; `found` is false when the input runs out first. */
  method ScanWindow(stream: seq<Byte>) returns (found: bool, end: nat)
    ensures found ==> FirstEndsAt(stream, end, REQ_BYTES)
    ensures !found ==> forall k: nat :: !MagicAt(stream, k, REQ_BYTES)
  {
    var window: bv32 := 0;
    end := 0;
    WindowStart();
    while end < |stream|
      invariant 0 <= end <= |stream| && WindowOf(window, stream[..end])
      invariant NoneYet(stream, end, REQ_BYTES)
    {
      SlideStep(window, stream, end);
      window := Slide(window, stream[end]);
      end := end + 1;
      if window == REQ_MAGIC { return true, end; }
    }
    found := false;
  }

  lemma WindowStart()
    ensures WindowOf(0, [])
  {
  }

  // ---- the host's matcher ----

  /** The last m bytes of s are the first m of the magic. */
  ghost predicate Suffix(s: seq<Byte>, m: nat, magic: seq<Byte>) {
    m <= |s| && m <= |magic| && s[|s| - m..] == magic[..m]
  }

  /** `matched` is the longest such m below the full length. */
  ghost predicate Longest(s: seq<Byte>, matched: nat, magic: seq<Byte>) {
    && matched < |magic| && Suffix(s, matched, magic)
    && forall m :: matched < m < |magic| ==> !Suffix(s, m, magic)
  }

  lemma SuffixStep(s: seq<Byte>, b: Byte, m: nat, magic: seq<Byte>)
    requires 0 < m <= |magic|
    ensures Suffix(s + [b], m, magic) <==> Suffix(s, m - 1, magic) && magic[m - 1] == b
  {
    var t := s + [b];
    if Suffix(s, m - 1, magic) && magic[m - 1] == b {
      assert t[|t| - m..] == s[|s| - (m - 1)..] + [b];
      assert magic[..m] == magic[..m - 1] + [b];
    }
    if Suffix(t, m, magic) {
      var u := t[|t| - m..];
      assert u == magic[..m] && u[m - 1] == b;
      assert s[|s| - (m - 1)..] == u[..m - 1];
      assert magic[..m - 1] == magic[..m][..m - 1];
    }
  }

  /** Two different prefixes of a magic of distinct bytes end in different bytes. */
  lemma SuffixesDiffer(s: seq<Byte>, m: nat, n: nat, magic: seq<Byte>)
    requires Distinct(magic) && 0 < m < n
    ensures !Suffix(s, m, magic) || !Suffix(s, n, magic)
  {
    if n <= |s| && n <= |magic| {
      var u, v := s[|s| - m..], s[|s| - n..];
      assert u[m - 1] == v[n - 1] == s[|s| - 1];
      assert magic[..m][m - 1] == magic[m - 1] != magic[n - 1] == magic[..n][n - 1];
    }
  }

  /** The matcher's update is right. */
  lemma MatchStep(s: seq<Byte>, matched: nat, b: Byte, magic: seq<Byte>)
    requires Distinct(magic) && |magic| == 4 && Longest(s, matched, magic)
    ensures b == magic[matched] && matched + 1 < 4 ==> Longest(s + [b], matched + 1, magic)
    ensures b == magic[matched] && matched + 1 == 4 ==> Suffix(s + [b], 4, magic)
    ensures b != magic[matched] ==> Longest(s + [b], if b == magic[0] then 1 else 0, magic)
    ensures b != magic[matched] || matched + 1 < 4 ==> !Suffix(s + [b], 4, magic)
  {
    var t := s + [b];
    forall m | 0 < m <= 4 ensures Suffix(t, m, magic) <==> (m == 1 || m == matched + 1) && magic[m - 1] == b {
      NextSuffix(s, matched, b, magic, m);
    }
    assert Suffix(t, 0, magic);
  }

  /** Which prefixes of the magic end the longer sequence. */
  lemma NextSuffix(s: seq<Byte>, matched: nat, b: Byte, magic: seq<Byte>, m: nat)
    requires Distinct(magic) && |magic| == 4 && Longest(s, matched, magic) && 0 < m <= 4
    ensures Suffix(s + [b], m, magic) <==> (m == 1 || m == matched + 1) && magic[m - 1] == b
  {
    SuffixStep(s, b, m, magic);
    OnlySuffix(s, matched, magic, m - 1);
  }

  lemma OnlySuffix(s: seq<Byte>, matched: nat, magic: seq<Byte>, m: nat)
    requires Distinct(magic) && |magic| == 4 && Longest(s, matched, magic) && m < 4
    ensures Suffix(s, m, magic) <==> m == 0 || m == matched
  {
    if 0 < m < matched {
      SuffixesDiffer(s, m, matched, magic);
    }
  }

  lemma ScanStep(stream: seq<Byte>, end: nat, matched: nat, magic: seq<Byte>)
    requires end < |stream| && |magic| == 4 && Distinct(magic)
    requires Longest(stream[..end], matched, magic) && NoneYet(stream, end, magic)
    ensures var b := stream[end];
            var next := if b == magic[matched] then matched + 1 else if b == magic[0] then 1 else 0;
            if next == 4 then FirstEndsAt(stream, end + 1, magic)
            else (NoneYet(stream, end + 1, magic) && Longest(stream[..end + 1], next, magic))
  {
    var b, t := stream[end], stream[..end + 1];
    MatchStep(stream[..end], matched, b, magic);
    assert t == stream[..end] + [b];
    NoneStep(stream, end + 1, magic);
    assert magic[..4] == magic;
    assert Suffix(t, 4, magic) <==> end >= 3 && MagicAt(t, end - 3, magic);
  }

  /** The scan of `serial_read_uart_anchor_response`. */
  method ScanMatches(stream: seq<Byte>, magic: seq<Byte>) returns (found: bool, end: nat)
    requires |magic| == 4 && Distinct(magic)
    ensures found ==> FirstEndsAt(stream, end, magic)
    ensures !found ==> forall k: nat :: !MagicAt(stream, k, magic)
  {
    var matched := 0;
    end := 0;
    assert stream[..0] == [];
    while end < |stream|
      invariant 0 <= end <= |stream| && 0 <= matched < 4
      invariant Longest(stream[..end], matched, magic)
      invariant NoneYet(stream, end, magic)
    {
      var b := stream[end];
      ScanStep(stream, end, matched, magic);
      end := end + 1;
      if b == magic[matched] {
        matched := matched + 1;
        if matched == 4 { return true, end; }
      } else {
        matched := if b == magic[0] then 1 else 0;
      }
    }
    found := false;
  }

  // ---- whole frames ----

  /** The words of a request header, or of a reply, one after the other. */
  function Encoded(words: seq<bv32>): (s: seq<Byte>)
    ensures |s| == 4 * |words|
  {
    if words == [] then [] else Encoded(words[..|words| - 1]) + Bytes(words[|words| - 1])
  }

  lemma {:induction false} EncodedWord(words: seq<bv32>, i: nat)
    requires i < |words|
    ensures Word(Encoded(words), 4 * i) == words[i]
  {
    var n := |words| - 1;
    var s, head := Encoded(words), Encoded(words[..n]);
    if i == n {
      assert s[4 * i..4 * i + 4] == Bytes(words[n]);
      WordOfBytes(s, 4 * i, words[n]);
    } else {
      EncodedWord(words[..n], i);
      assert s[4 * i] == head[4 * i] && s[4 * i + 1] == head[4 * i + 1];
      assert s[4 * i + 2] == head[4 * i + 2] && s[4 * i + 3] == head[4 * i + 3];
    }
  }

  /** A received header; `headerOk` is the anchor's checksum test. */
  datatype Header = Header(command: bv32, address: bv32, length: bv32, received: bv32) {
    predicate HeaderOk() {
      received == HeaderChecksum(command, address, length)
    }
  }

  /** What the host writes before the payload. */
  function RequestWords(command: bv32, address: bv32, length: bv32): seq<bv32> {
    [REQ_MAGIC, REQ_GUARD, command, address, length, HeaderChecksum(command, address, length)]
  }

  /** The bytes of a request header in order: magic, guard, command, address, length, checksum, low bytes first. */
  lemma RequestLayout(command: bv32, address: bv32, length: bv32)
    ensures var s := Encoded(RequestWords(command, address, length));
            && s[0..4] == REQ_BYTES && s[4..8] == [0x46, 0x52, 0x53, 0x48]
            && s[8..12] == LowFirst(command) && s[12..16] == LowFirst(address) && s[16..20] == LowFirst(length)
            && s[20..24] == LowFirst(HeaderChecksum(command, address, length))
  {
    var words := RequestWords(command, address, length);
    MagicBytes();
    GuardBytes();
    EncodedSlice(words, 0, 0);
    EncodedSlice(words, 1, 4);
    EncodedSlice(words, 2, 8);
    EncodedSlice(words, 3, 12);
    EncodedSlice(words, 4, 16);
    EncodedSlice(words, 5, 20);
    BytesLowFirst(command);
    BytesLowFirst(address);
    BytesLowFirst(length);
    BytesLowFirst(HeaderChecksum(command, address, length));
  }

  lemma {:induction false} EncodedSlice(words: seq<bv32>, i: nat, at: nat)
    requires i < |words| && at == 4 * i
    ensures Encoded(words)[at..at + 4] == Bytes(words[i])
    decreases |words|
  {
    var n := |words| - 1;
    if i < n {
      EncodedSlice(words[..n], i, at);
      assert Encoded(words)[at..at + 4] == Encoded(words[..n])[at..at + 4];
    }
  }

  function LowFirst(v: bv32): (s: seq<Byte>)
    ensures |s| == 4
  {
    [(v & 0xFF) as Byte, ((v >> 8) & 0xFF) as Byte, ((v >> 16) & 0xFF) as Byte, (v >> 24) as Byte]
  }

  lemma BytesLowFirst(v: bv32)
    ensures Bytes(v) == LowFirst(v)
  {
  }

  lemma GuardBytes()
    ensures Bytes(REQ_GUARD) == [0x46, 0x52, 0x53, 0x48]
  {
    var b := Bytes(REQ_GUARD);
    assert b[0] == 0x46 && b[1] == 0x52 && b[2] == 0x53 && b[3] == 0x48;
  }

  const NO_REQUEST: Header := Header(0xFFFF_FFFF, 0, 0, 0)

  /** `uart_recv_request`: scan for the magic, check the guard, read four words. */
  method ReceiveRequest(stream: seq<Byte>) returns (complete: bool, h: Header, end: nat)
    ensures complete ==>
              && end <= |stream|
              && exists at: nat ::
                   4 <= at && at + 4 <= end && FirstEndsAt(stream, at, REQ_BYTES) && DecodesAt(stream, at, h, end)
    ensures forall at: nat :: FirstEndsAt(stream, at, REQ_BYTES) && at + 20 <= |stream| ==>
              complete && DecodesAt(stream, at, h, end)
  {
    var found, at := ScanWindow(stream);
    h, end := NO_REQUEST, 0;
    if !found || at + 4 > |stream| {
      OnlyFirst(stream, at, REQ_BYTES);
      return false, h, end;
    }
    OnlyFirst(stream, at, REQ_BYTES);
    var guard := Word(stream, at);
    if guard != REQ_GUARD { return true, h, at + 4; }
    if at + 20 > |stream| { return false, h, end; }
    h := Header(Word(stream, at + 4), Word(stream, at + 8), Word(stream, at + 12), Word(stream, at + 16));
    return true, h, at + 20;
  }

  /** The fields found after a magic that ends at `at`. */
  ghost predicate DecodesAt(stream: seq<Byte>, at: nat, h: Header, end: nat) {
    && at + 4 <= |stream|
    && if Word(stream, at) != REQ_GUARD then h == NO_REQUEST && end == at + 4
       else
         && end == at + 20 <= |stream|
         && h == Header(Word(stream, at + 4), Word(stream, at + 8), Word(stream, at + 12), Word(stream, at + 16))
  }

  lemma OnlyFirst(stream: seq<Byte>, at: nat, magic: seq<Byte>)
    ensures forall other: nat :: FirstEndsAt(stream, at, magic) && FirstEndsAt(stream, other, magic) ==> other == at
  {
    forall other: nat | FirstEndsAt(stream, at, magic) && FirstEndsAt(stream, other, magic) ensures other == at {
      assert MagicAt(stream, at - |magic|, magic) && MagicAt(stream, other - |magic|, magic);
    }
  }

  /**
   Resynchronisation: after any junk that does not itself contain the magic, the anchor reads
   exactly the header the host wrote, and its checksum test passes.
   */
  lemma RequestSurvivesJunk(junk: seq<Byte>, command: bv32, address: bv32, length: bv32, tail: seq<Byte>, h: Header,
                            end: nat)
    requires forall k: nat :: !MagicAt(junk, k, REQ_BYTES)
    requires DecodesAt(junk + Encoded(RequestWords(command, address, length)) + tail, |junk| + 4, h, end)
    ensures FirstEndsAt(junk + Encoded(RequestWords(command, address, length)) + tail, |junk| + 4, REQ_BYTES)
    ensures h == Header(command, address, length, HeaderChecksum(command, address, length)) && h.HeaderOk()
    ensures end == |junk| + 24
  {
    var words := RequestWords(command, address, length);
    var s, e := junk + Encoded(words) + tail, Encoded(words);
    EncodedStart(words);
    MagicBytes();
    assert s == junk + REQ_BYTES + (e[4..] + tail);
    NoStraddle(junk, REQ_BYTES, e[4..] + tail);
    Field(junk, words, tail, s, 1, |junk| + 4);
    Field(junk, words, tail, s, 2, |junk| + 8);
    Field(junk, words, tail, s, 3, |junk| + 12);
    Field(junk, words, tail, s, 4, |junk| + 16);
    Field(junk, words, tail, s, 5, |junk| + 20);
  }

  /** The same for a reply on its way to the host. */
  lemma ReplySurvivesJunk(junk: seq<Byte>, status: bv32, result: bv32, counter: bv32, tail: seq<Byte>, s: seq<Byte>)
    requires forall k: nat :: !MagicAt(junk, k, RESP_BYTES)
    requires s == junk + Encoded([RESP_MAGIC, status, result, counter]) + tail
    ensures FirstEndsAt(s, |junk| + 4, RESP_BYTES) && |junk| + 16 <= |s|
    ensures Word(s, |junk| + 4) == status && Word(s, |junk| + 8) == result && Word(s, |junk| + 12) == counter
  {
    var words := [RESP_MAGIC, status, result, counter];
    var e := Encoded(words);
    EncodedStart(words);
    MagicBytes();
    assert s == junk + RESP_BYTES + (e[4..] + tail);
    NoStraddle(junk, RESP_BYTES, e[4..] + tail);
    Field(junk, words, tail, s, 1, |junk| + 4);
    Field(junk, words, tail, s, 2, |junk| + 8);
    Field(junk, words, tail, s, 3, |junk| + 12);
  }

  lemma Field(junk: seq<Byte>, words: seq<bv32>, tail: seq<Byte>, s: seq<Byte>, i: nat, at: nat)
    requires s == junk + Encoded(words) + tail && i < |words| && at == |junk| + 4 * i
    ensures Word(s, at) == words[i]
  {
    EncodedWord(words, i);
    ShiftWord(junk, Encoded(words), tail, 4 * i);
  }

  lemma ShiftWord(a: seq<Byte>, b: seq<Byte>, c: seq<Byte>, k: nat)
    requires k + 4 <= |b|
    ensures Word(a + b + c, |a| + k) == Word(b, k)
  {
  }

  lemma EncodedStart(words: seq<bv32>)
    requires words != []
    ensures Encoded(words)[..4] == Bytes(words[0])
  {
    EncodedPrefix(words, 1);
    assert words[..1] == [words[0]];
    assert Encoded([words[0]]) == Encoded([]) + Bytes(words[0]);
  }

  lemma MagicBytes()
    ensures Bytes(REQ_MAGIC) == REQ_BYTES && Bytes(RESP_MAGIC) == RESP_BYTES
  {
  }

  lemma {:induction false} EncodedPrefix(words: seq<bv32>, n: nat)
    requires n <= |words|
    ensures Encoded(words)[..4 * n] == Encoded(words[..n])
    decreases |words|
  {
    if n == |words| {
      assert words[..n] == words;
    } else {
      var m := |words| - 1;
      EncodedPrefix(words[..m], n);
      assert words[..m][..n] == words[..n];
      assert Encoded(words)[..4 * n] == Encoded(words[..m])[..4 * n];
    }
  }
}
