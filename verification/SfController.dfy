/**
 The serial-flash controller and the chip behind it. A command either completes, or the
 controller times out; a command that timed out may or may not have reached the chip, and
 nothing tells the two apart. Erase and program commands act only while the chip's
 write-enable latch is set, and clear it.

 The 256-byte data buffer is word addressed, as in the hardware: `Lane(w, j)` is the j-th
 little-endian byte of a word.
 */
module SfController {
  import opened Nor

  const BUF_WORDS: nat := 64

  datatype Command = WriteEnable | ReadStatus | Read | PageProgram | SectorErase | Block64Erase | ReadId

  /** What the bus analyser sees: the opcode and the 32-bit address it was given. */
  datatype Issued = Issued(command: Command, address: nat)

  predicate IsErase(command: Command) {
    command == SectorErase || command == Block64Erase
  }

  function EraseSize(command: Command): (n: nat)
    ensures n == SECTOR_SIZE || n == BLOCK_SIZE
  {
    if command == Block64Erase then BLOCK_SIZE else SECTOR_SIZE
  }

  /** Left and right shift by whole bytes. */
  function Up(w: bv32, j: nat): bv32
    requires j < 4
  {
    if j == 0 then w else if j == 1 then w << 8 else if j == 2 then w << 16 else w << 24
  }

  function Down(w: bv32, j: nat): bv32
    requires j < 4
  {
    if j == 0 then w else if j == 1 then w >> 8 else if j == 2 then w >> 16 else w >> 24
  }

  function Lane(w: bv32, j: nat): Byte
    requires j < 4
  {
    (Down(w, j) & 0xFF) as Byte
  }

  /** One step of the packing loop: clear byte lane j, then or the new byte in. */
  function SetLane(w: bv32, j: nat, b: Byte): bv32
    requires j < 4
  {
    (w & !Up(0xFF, j)) | Up(b as bv32, j)
  }

  lemma SetLaneSame(w: bv32, j: nat, b: Byte)
    requires j < 4
    ensures Lane(SetLane(w, j, b), j) == b
  {
    if j == 0 {
    } else if j == 1 {
    } else if j == 2 {
    } else {
      assert j == 3;
    }
  }

  lemma KeepLanes0(w: bv32, b: Byte)
    ensures Lane(SetLane(w, 0, b), 1) == Lane(w, 1)
    ensures Lane(SetLane(w, 0, b), 2) == Lane(w, 2)
    ensures Lane(SetLane(w, 0, b), 3) == Lane(w, 3)
  {
  }

  lemma KeepLanes1(w: bv32, b: Byte)
    ensures Lane(SetLane(w, 1, b), 0) == Lane(w, 0)
    ensures Lane(SetLane(w, 1, b), 2) == Lane(w, 2)
    ensures Lane(SetLane(w, 1, b), 3) == Lane(w, 3)
  {
  }

  lemma KeepLanes2(w: bv32, b: Byte)
    ensures Lane(SetLane(w, 2, b), 0) == Lane(w, 0)
    ensures Lane(SetLane(w, 2, b), 1) == Lane(w, 1)
    ensures Lane(SetLane(w, 2, b), 3) == Lane(w, 3)
  {
  }

  lemma KeepLanes3(w: bv32, b: Byte)
    ensures Lane(SetLane(w, 3, b), 0) == Lane(w, 0)
    ensures Lane(SetLane(w, 3, b), 1) == Lane(w, 1)
    ensures Lane(SetLane(w, 3, b), 2) == Lane(w, 2)
  {
  }

  lemma SetLaneOther(w: bv32, j: nat, b: Byte, i: nat)
    requires j < 4 && i < 4 && i != j
    ensures Lane(SetLane(w, j, b), i) == Lane(w, i)
  {
    if j == 0 {
      KeepLanes0(w, b);
    } else if j == 1 {
      KeepLanes1(w, b);
    } else if j == 2 {
      KeepLanes2(w, b);
    } else {
      KeepLanes3(w, b);
    }
    if i == 0 {
    } else if i == 1 {
    } else if i == 2 {
    } else {
      assert i == 3;
    }
  }

  lemma SetLaneLanes(w: bv32, j: nat, b: Byte, i: nat)
    requires j < 4 && i < 4
    ensures Lane(SetLane(w, j, b), i) == if i == j then b else Lane(w, i)
  {
    if i == j {
      SetLaneSame(w, j, b);
    } else {
      SetLaneOther(w, j, b, i);
    }
  }

  function BufByte(buf: seq<bv32>, i: nat): Byte
    requires i / 4 < |buf|
  {
    Lane(buf[i / 4], i % 4)
  }

  /** The first n bytes of the buffer, the ones a data phase of length n transfers. */
  function BufBytes(buf: seq<bv32>, n: nat): (data: seq<Byte>)
    requires n <= 4 * |buf|
    ensures |data| == n
  {
    seq(n, (i: nat) requires i < n => BufByte(buf, i))
  }

  function Packed(data: seq<Byte>, i: nat): bv32 {
    SetLane(SetLane(SetLane(SetLane(0, 0, At(data, i)), 1, At(data, i + 1)), 2, At(data, i + 2)), 3, At(data, i + 3))
  }

  function At(data: seq<Byte>, i: nat): Byte {
    if i < |data| then data[i] else BLANK
  }

  /** The buffer after a read of `data`. */
  function Filled(data: seq<Byte>): (buf: seq<bv32>)
    ensures |buf| == BUF_WORDS
  {
    seq(BUF_WORDS, (w: nat) requires w < BUF_WORDS => Packed(data, 4 * w))
  }

  lemma FilledBytes(data: seq<Byte>)
    requires |data| <= 4 * BUF_WORDS
    ensures BufBytes(Filled(data), |data|) == data
  {
    forall i: nat | i < |data| ensures BufByte(Filled(data), i) == data[i] {
      PackedLane(data, i - i % 4, i % 4);
    }
  }

  lemma PackedLane(data: seq<Byte>, i: nat, j: nat)
    requires j < 4
    ensures Lane(Packed(data, i), j) == At(data, i + j)
  {
    var w0 := SetLane(0, 0, At(data, i));
    var w1 := SetLane(w0, 1, At(data, i + 1));
    var w2 := SetLane(w1, 2, At(data, i + 2));
    SetLaneLanes(0, 0, At(data, i), j);
    SetLaneLanes(w0, 1, At(data, i + 1), j);
    SetLaneLanes(w1, 2, At(data, i + 2), j);
    SetLaneLanes(w2, 3, At(data, i + 3), j);
  }
}
