/**
 The payload checksum, folded once in C over 32-bit words and once in Python over
 unbounded integers with a mask, and the header checksum of the UART request frame.
 */
module Checksums {
  import opened Nor

  const REQ_GUARD: bv32 := 0x4853_5246

  /** A left fold over the payload. */
  function Fold<S>(step: (S, Byte) -> S, init: S, data: seq<Byte>): S {
    if data == [] then init else step(Fold(step, init, data[..|data| - 1]), data[|data| - 1])
  }

  /** One C step: a 5-bit rotation, then the next byte. */
  function Step(sum: bv32, b: Byte): bv32 {
    (sum << 5) ^ (sum >> 27) ^ (b as bv32)
  }

  function Checksum(data: seq<Byte>): bv32 {
    Fold(Step, 0, data)
  }

  /** `checksum_data` over the first `length` bytes of the device's data buffer. */
  method ChecksumData(buf: array<Byte>, length: nat) returns (sum: bv32)
    requires length <= buf.Length
    ensures sum == Checksum(buf[..length])
  {
    sum := 0;
    var i := 0;
    while i < length
      invariant 0 <= i <= length && sum == Checksum(buf[..i])
    {
      assert buf[..i + 1][..i] == buf[..i];
      sum := Step(sum, buf[i]);
      i := i + 1;
    }
  }

  /** One Python step; no intermediate value exceeds 37 bits, so 64 bits stand for any integer. */
  function MaskedStep(checksum: bv64, b: Byte): bv64 {
    ((checksum << 5) ^ (checksum >> 27) ^ (b as bv64)) & 0xFFFF_FFFF
  }

  /** A 32-bit value as a Python integer. */
  function Widen(sum: bv32): bv64 {
    sum as bv64
  }

  function MaskedChecksum(data: seq<Byte>): bv64 {
    Fold(MaskedStep, 0, data)
  }

  lemma MaskedStepIsStep(sum: bv32, b: Byte)
    ensures MaskedStep(Widen(sum), b) == Widen(Step(sum, b))
  {
  }

  /** Two folds whose steps commute with `up` agree under `up`. */
  lemma {:induction false} FoldsAgree<S, T>(step: (S, Byte) -> S, init: S, step': (T, Byte) -> T, up: S -> T,
                                            data: seq<Byte>)
    requires forall s: S, b :: step'(up(s), b) == up(step(s, b))
    ensures Fold(step', up(init), data) == up(Fold(step, init, data))
  {
    if data != [] {
      FoldsAgree(step, init, step', up, data[..|data| - 1]);
    }
  }

  /** The host computes the value the device will compute. */
  lemma MaskedChecksumIsChecksum(data: seq<Byte>)
    ensures MaskedChecksum(data) == Widen(Checksum(data))
  {
    forall s: bv32, b ensures MaskedStep(Widen(s), b) == Widen(Step(s, b)) {
      MaskedStepIsStep(s, b);
    }
    FoldsAgree(Step, 0, MaskedStep, Widen, data);
  }

  /** `jtag_flash_checksum` */
  method HostChecksum(data: seq<Byte>) returns (checksum: bv64)
    ensures checksum == Widen(Checksum(data))
  {
    checksum := 0;
    for i := 0 to |data|
      invariant checksum == MaskedChecksum(data[..i])
    {
      assert data[..i + 1][..i] == data[..i];
      checksum := MaskedStep(checksum, data[i]);
    }
    assert data[..|data|] == data;
    MaskedChecksumIsChecksum(data);
  }

  lemma Narrow(wide: bv64, sum: bv32)
    requires wide == Widen(sum)
    ensures wide <= 0xFFFF_FFFF && wide as bv32 == sum
  {
  }

  /** The 32-bit word the host puts on the wire. */
  method ChecksumWord(data: seq<Byte>) returns (word: bv32)
    ensures word == Checksum(data)
  {
    var checksum := HostChecksum(data);
    Narrow(checksum, Checksum(data));
    word := checksum as bv32;
  }

  lemma StepInjectiveInSum(s: bv32, t: bv32, b: Byte)
    requires Step(s, b) == Step(t, b)
    ensures s == t
  {
  }

  lemma StepInjectiveInByte(s: bv32, b: Byte, c: Byte)
    requires Step(s, b) == Step(s, c)
    ensures b == c
  {
  }

  /** A payload with exactly one wrong byte never passes. */
  lemma {:induction false} OneWrongByteIsDetected(a: seq<Byte>, b: seq<Byte>, k: nat)
    requires |a| == |b| && k < |a| && a[k] != b[k]
    requires forall i :: 0 <= i < |a| && i != k ==> a[i] == b[i]
    ensures Checksum(a) != Checksum(b)
  {
    var n := |a| - 1;
    if k == n {
      assert a[..n] == b[..n];
      if Checksum(a) == Checksum(b) {
        StepInjectiveInByte(Checksum(a[..n]), a[n], b[n]);
      }
    } else {
      OneWrongByteIsDetected(a[..n], b[..n], k);
      if Checksum(a) == Checksum(b) {
        StepInjectiveInSum(Checksum(a[..n]), Checksum(b[..n]), a[n]);
      }
    }
  }

  /** A word turned left by n times five bits. */
  function Turned(w: bv32, n: nat): bv32 {
    if n == 0 then w else Turned(w, n - 1).RotateLeft(5)
  }

  lemma StepTurns(sum: bv32, b: Byte)
    ensures Step(sum, b) == sum.RotateLeft(5) ^ (b as bv32)
  {
  }

  lemma TurnOfXor(x: bv32, y: bv32)
    ensures (x ^ y).RotateLeft(5) == x.RotateLeft(5) ^ y.RotateLeft(5)
  {
  }

  lemma XorRegroups(x: bv32, y: bv32, z: bv32)
    ensures (x ^ y) ^ z == x ^ (y ^ z)
  {
  }

  lemma {:induction false} ChecksumOfConcat(a: seq<Byte>, b: seq<Byte>)
    ensures Checksum(a + b) == Turned(Checksum(a), |b|) ^ Checksum(b)
  {
    if b == [] {
      assert a + b == a;
    } else {
      var n := |b| - 1;
      assert (a + b)[..|a| + n] == a + b[..n];
      ChecksumOfConcat(a, b[..n]);
      StepTurns(Checksum(a + b[..n]), b[n]);
      StepTurns(Checksum(b[..n]), b[n]);
      TurnOfXor(Turned(Checksum(a), n), Checksum(b[..n]));
      XorRegroups(Turned(Checksum(a), n + 1), Checksum(b[..n]).RotateLeft(5), b[n] as bv32);
    }
  }

  lemma OneByte(b: Byte)
    ensures Checksum([b]) == b as bv32
  {
    var one := [b];
    assert one[..0] == [] && Checksum(one[..0]) == 0;
    StepOfZero(b);
  }

  lemma StepOfZero(b: Byte)
    ensures Step(0, b) == b as bv32
  {
  }

  /** Every byte turned left once for each byte after it. */
  function XorOfBytes(data: seq<Byte>): bv32 {
    if data == [] then 0 else Turned(data[0] as bv32, |data| - 1) ^ XorOfBytes(data[1..])
  }

  /** The checksum is the exclusive or of the bytes, each turned left by five bits for every byte after it. */
  lemma {:induction false} ChecksumIsXorOfBytes(data: seq<Byte>)
    ensures Checksum(data) == XorOfBytes(data)
  {
    if data != [] {
      ChecksumOfRest(data);
      ChecksumIsXorOfBytes(data[1..]);
    }
  }

  lemma {:induction false} ChecksumOfRest(data: seq<Byte>)
    requires data != []
    ensures Checksum(data) == Turned(data[0] as bv32, |data| - 1) ^ Checksum(data[1..])
  {
    var first, rest := [data[0]], data[1..];
    OneByte(data[0]);
    ChecksumOfParts(data, first, rest, Checksum(first), Checksum(rest));
  }

  lemma {:induction false} ChecksumOfParts(data: seq<Byte>, a: seq<Byte>, b: seq<Byte>, x: bv32, y: bv32)
    requires data == a + b && x == Checksum(a) && y == Checksum(b)
    ensures Checksum(data) == Turned(x, |b|) ^ y
  {
    ChecksumOfConcat(a, b);
  }

  /** A number in binary, the low 32 bits of it. */
  function Binary(n: nat): bv32 {
    if n == 0 then 0 else (Binary(n / 2) << 1) | (if n % 2 == 1 then 1 else 0)
  }

  /** `checksum_header` and `uart_flash_header_checksum` */
  function HeaderChecksum(command: bv32, address: bv32, length: bv32): bv32 {
    !(REQ_GUARD ^ command ^ address ^ length)
  }

  /** Two headers agree in their checksum exactly when the exclusive or of their words agrees. */
  lemma HeadersAgreeExactlyWhen(command: bv32, address: bv32, length: bv32, c: bv32, a: bv32, l: bv32)
    ensures HeaderChecksum(command, address, length) == HeaderChecksum(c, a, l)
       <==> command ^ address ^ length == c ^ a ^ l
  {
    HeaderUndone(command, address, length, command ^ address ^ length, HeaderChecksum(command, address, length));
    HeaderUndone(c, a, l, c ^ a ^ l, HeaderChecksum(c, a, l));
  }

  /** Each of them from the other. */
  lemma HeaderUndone(command: bv32, address: bv32, length: bv32, x: bv32, sum: bv32)
    requires x == command ^ address ^ length && sum == HeaderChecksum(command, address, length)
    ensures x == Guarded(sum) && sum == Guarded(x)
  {
  }

  function Guarded(x: bv32): bv32 {
    !(REQ_GUARD ^ x)
  }

  lemma CommandOf(command: bv32, address: bv32, length: bv32, sum: bv32)
    requires sum == HeaderChecksum(command, address, length)
    ensures command == Guarded(sum) ^ address ^ length
  {
  }

  lemma AddressOf(command: bv32, address: bv32, length: bv32, sum: bv32)
    requires sum == HeaderChecksum(command, address, length)
    ensures address == Guarded(sum) ^ command ^ length
  {
  }

  lemma LengthOf(command: bv32, address: bv32, length: bv32, sum: bv32)
    requires sum == HeaderChecksum(command, address, length)
    ensures length == Guarded(sum) ^ command ^ address
  {
  }

  /** A header with exactly one wrong word is refused: each word follows from the checksum and the other two. */
  lemma OneWrongWordIsDetected(command: bv32, address: bv32, length: bv32, w: bv32, sum: bv32)
    requires sum == HeaderChecksum(command, address, length)
    ensures HeaderChecksum(w, address, length) == sum ==> w == command
    ensures HeaderChecksum(command, w, length) == sum ==> w == address
    ensures HeaderChecksum(command, address, w) == sum ==> w == length
  {
    if HeaderChecksum(w, address, length) == sum {
      CommandOf(command, address, length, sum);
      CommandOf(w, address, length, sum);
    }
    if HeaderChecksum(command, w, length) == sum {
      AddressOf(command, address, length, sum);
      AddressOf(command, w, length, sum);
    }
    if HeaderChecksum(command, address, w) == sum {
      LengthOf(command, address, length, sum);
      LengthOf(command, address, w, sum);
    }
  }

  /** The constant in it: the checksum of a header of zeros. */
  lemma HeaderOfZeros()
    ensures HeaderChecksum(0, 0, 0) == 0xB7AC_ADB9
  {
  }
}
