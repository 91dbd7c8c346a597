/**
 The flash routines that `tools/uart_flash_anchor.c` and `tools/jtag_flash_stub.c` share,
 over a controller that may time out on any command.
 */
module FlashOps {
  import opened MachineWord
  import opened Nor
  import opened SfController

  const DATA_MAX: nat := 0x1000

  const ERR_OK: nat := 0
  const ERR_BAD_COMMAND: nat := 1
  const ERR_BAD_LENGTH: nat := 2
  const ERR_CHECKSUM: nat := 3
  const ERR_TIMEOUT: nat := 4
  const ERR_VERIFY: nat := 5

  /** 32-bit wrap-around. */
  function Wrap(x: int): (w: nat)
    ensures w < WORD
  {
    x % WORD
  }

  lemma CellOfWrap(x: int)
    ensures Cell(Wrap(x)) == Cell(x)
  {
    var q := x / WORD;
    assert Wrap(x) == x + (-q * 256) * CAPACITY;
    ModShiftAny(x, -q * 256);
  }

  lemma PageOfWrap(x: int)
    ensures Wrap(x) % PAGE_SIZE == x % PAGE_SIZE
  {
    var q := x / WORD;
    assert Wrap(x) == x + (-q * CAPACITY) * PAGE_SIZE;
    PageShift(x, -q * CAPACITY);
  }

  lemma PageShift(x: int, q: int)
    ensures (x + q * PAGE_SIZE) % PAGE_SIZE == x % PAGE_SIZE
  {
  }

  // ---- the range an erase request really covers ----

  function SectorFloor(x: nat): (y: nat)
    ensures y <= x < y + SECTOR_SIZE && y % SECTOR_SIZE == 0
  {
    x - x % SECTOR_SIZE
  }

  /** `(address + length + 4095) & ~4095` in 32-bit arithmetic. */
  function EraseEnd(address: nat, length: nat): (end: nat)
    ensures end < WORD && end % SECTOR_SIZE == 0
  {
    SectorFloor(Wrap(address + length + SECTOR_SIZE - 1))
  }

  /** Number of cells erased by a request that runs to completion. */
  function EraseSpan(address: nat, length: nat): (n: nat)
    ensures SectorFloor(address) + n >= EraseEnd(address, length) && n % SECTOR_SIZE == 0
  {
    if SectorFloor(address) < EraseEnd(address, length)
    then EraseEnd(address, length) - SectorFloor(address)
    else 0
  }

  /** The span is the sectors meeting the range unless the 32-bit sum wraps; then it is short of the range. */
  lemma EraseSpanCovers(address: nat, length: nat)
    requires address < WORD && 0 < length < WORD
    ensures SectorFloor(address) + EraseSpan(address, length) >= address + length
       <==> address + length + SECTOR_SIZE - 1 < WORD
    ensures address + length + SECTOR_SIZE - 1 < WORD ==>
              SectorFloor(address) + EraseSpan(address, length) < address + length + SECTOR_SIZE
  {
    if address + length + SECTOR_SIZE - 1 >= WORD {
      assert Wrap(address + length + SECTOR_SIZE - 1) <= address + length + SECTOR_SIZE - 1 - WORD;
    }
  }

  /** Erasing one sector after another. */
  function SectorBySector(f: Flash, start: nat, sectors: nat): (g: Flash)
    decreases sectors
  {
    if sectors == 0 then f
    else BlockErased(SectorBySector(f, start, sectors - 1), start + (sectors - 1) * SECTOR_SIZE, SECTOR_SIZE)
  }

  lemma {:induction false} SectorBySectorIsErased(f: Flash, start: nat, sectors: nat)
    requires start % SECTOR_SIZE == 0
    ensures SectorBySector(f, start, sectors) == Erased(f, start, sectors * SECTOR_SIZE)
  {
    if sectors == 0 {
      assert Erased(f, start, 0) == f;
    } else {
      SectorBySectorIsErased(f, start, sectors - 1);
      EraseStep(f, start, (sectors - 1) * SECTOR_SIZE, SECTOR_SIZE);
    }
  }

  // ---- what a program request leaves behind ----

  /** The range could be turned into `data` by clearing bits only. */
  ghost predicate Programmable(f: Flash, address: int, data: seq<Byte>) {
    forall k :: 0 <= k < |data| ==> CellAt(f, address, k) & data[k] == data[k]
  }

  lemma ProgrammedReadsBack(f: Flash, address: int, data: seq<Byte>)
    requires |data| <= CAPACITY
    ensures ReadBack(Programmed(f, address, data), address, |data|) == data <==> Programmable(f, address, data)
  {
    var g := ReadBack(Programmed(f, address, data), address, |data|);
    forall k | 0 <= k < |data| ensures g[k] == CellAt(f, address, k) & data[k] {
      OffsetOfCell(address, k);
    }
    if g == data {
      forall k | 0 <= k < |data| ensures CellAt(f, address, k) & data[k] == data[k] {
        assert g[k] == data[k];
      }
    }
  }

  /** An erased range takes any data. */
  lemma BlankIsProgrammable(f: Flash, address: int, data: seq<Byte>)
    requires forall k :: 0 <= k < |data| ==> CellAt(f, address, k) == BLANK
    ensures Programmable(f, address, data)
  {
  }

  /** The command for the next step: a 64 KiB block where one fits, else a sector. */
  function EraseChoice(pos: nat, end: nat): (command: Command)
    requires pos < end && pos % SECTOR_SIZE == 0 && end % SECTOR_SIZE == 0
    ensures IsErase(command) && Aligned(pos, EraseSize(command))
    ensures pos + EraseSize(command) <= end && (pos + EraseSize(command)) % SECTOR_SIZE == 0
  {
    if pos % BLOCK_SIZE == 0 && end - pos >= BLOCK_SIZE then Block64Erase else SectorErase
  }

  lemma WholeSectors(done: nat, command: Command)
    requires done % SECTOR_SIZE == 0
    ensures (done + EraseSize(command)) % SECTOR_SIZE == 0
  {
  }

  /** Every erase command is aligned to its own size and stays inside [start, end). */
  ghost predicate AlignedInside(issued: seq<Issued>, start: nat, end: nat) {
    forall e :: e in issued ==>
      && Aligned(e.address, EraseSize(e.command))
      && start <= e.address && e.address + EraseSize(e.command) <= end
  }

  /** A 64 KiB block is erased exactly where one is aligned and fits before `end`. */
  ghost predicate BlocksWhereTheyFit(issued: seq<Issued>, end: nat) {
    forall e :: e in issued ==>
      (e.command == Block64Erase <==> e.address % 0x1_0000 == 0 && e.address + 0x1_0000 <= end)
  }

  /** The SPI NOR chip together with the controller registers that drive it. */
  class Chip {
    var mem: Flash
    var writeEnabled: bool
    var buf: seq<bv32>
    /** Commands the controller has given up on so far. */
    var faults: nat
    /** Erase commands put on the bus so far. */
    ghost var erases: seq<Issued>

    ghost predicate Valid()
      reads this
    {
      |buf| == BUF_WORDS
    }

    constructor ()
      ensures Valid()
    {
      buf := seq(BUF_WORDS, (_: nat) => 0);
      writeEnabled, faults, erases := false, 0, [];
    }

    /** The cells after the chip has executed a command. */
    function MemAfter(command: Command, address: nat, n: nat): Flash
      requires |buf| == BUF_WORDS && n <= PAGE_SIZE
      reads this
    {
      if !writeEnabled then mem
      else match command
        case PageProgram => PageProgrammed(mem, address, BufBytes(buf, n))
        case SectorErase => BlockErased(mem, address, SECTOR_SIZE)
        case Block64Erase => BlockErased(mem, address, BLOCK_SIZE)
        case _ => mem
    }

    /** `sf_send_cmd`: on failure the command may or may not have been executed. */
    method SendCmd(command: Command, address: nat, n: nat) returns (ok: bool)
      requires Valid() && n <= PAGE_SIZE
      modifies this
      ensures Valid()
      ensures mem == old(MemAfter(command, address, n)) || (!ok && mem == old(mem))
      ensures ok && command == WriteEnable ==> writeEnabled
      ensures ok && command == Read ==> BufBytes(buf, n) == ReadBack(mem, address, n)
      ensures command != Read && command != ReadStatus && command != ReadId ==> buf == old(buf)
      ensures faults == old(faults) + if ok then 0 else 1
      ensures erases == old(erases) + if IsErase(command) then [Issued(command, address)] else []
    {
      if IsErase(command) {
        erases := erases + [Issued(command, address)];
      }
      ok := *;
      var reached: bool := *;
      if !ok {
        faults := faults + 1;
        if !reached { return; }
      }
      var next := MemAfter(command, address, n);
      match command
      case WriteEnable => writeEnabled := true;
      case PageProgram => mem, writeEnabled := next, false;
      case SectorErase => mem, writeEnabled := next, false;
      case Block64Erase => mem, writeEnabled := next, false;
      case Read =>
        FilledBytes(ReadBack(mem, address, n));
        buf := Filled(ReadBack(mem, address, n));
      case ReadStatus =>
        var w: bv32 := *;
        buf := buf[0 := w];
      case ReadId =>
        var w: bv32 := *;
        buf := buf[0 := w];
    }

    /** `flash_read_id`: three id bytes, or 0 if the controller gave up. */
    method ReadChipId() returns (id: bv32)
      requires Valid()
      modifies this
      ensures Valid() && mem == old(mem)
    {
      var ok := SendCmd(ReadId, 0, 3);
      id := if ok then buf[0] & 0x00FF_FFFF else 0;
    }

    /** `flash_wait_ready`: poll the status register's busy bit. */
    method WaitReady(limit: nat) returns (ok: bool)
      requires Valid()
      modifies this
      ensures Valid() && mem == old(mem)
      ensures ok <==> faults == old(faults)
      ensures faults >= old(faults)
      ensures erases == old(erases)
    {
      var timeout := limit;
      while timeout > 0
        invariant Valid() && mem == old(mem) && faults == old(faults)
        invariant erases == old(erases)
      {
        timeout := timeout - 1;
        ok := SendCmd(ReadStatus, 0, 1);
        if !ok { return; }
        if buf[0] & 1 == 0 { return; }
      }
      faults := faults + 1;
      ok := false;
    }

    /** `flash_erase_cmd` */
    method EraseCmd(command: Command, address: nat, limit: nat) returns (ok: bool)
      requires Valid() && IsErase(command)
      modifies this
      ensures Valid()
      ensures mem == BlockErased(old(mem), address, EraseSize(command)) || (!ok && mem == old(mem))
      ensures ok <==> faults == old(faults)
      ensures faults >= old(faults)
      ensures erases == old(erases) || erases == old(erases) + [Issued(command, address)]
    {
      ok := SendCmd(WriteEnable, 0, 0);
      if !ok { return; }
      ok := SendCmd(command, address, 0);
      if !ok { return; }
      ok := WaitReady(limit);
    }

    /**
     `flash_erase_range`: 64 KiB blocks where they fit, 4 KiB sectors elsewhere.
     On failure some whole number of leading sectors has been erased.
     */
    method EraseRange(address: nat, length: nat) returns (ok: bool, ghost done: nat)
      requires Valid() && address < WORD && length < WORD
      modifies this
      ensures Valid()
      ensures mem == Erased(old(mem), SectorFloor(address), done)
      ensures done <= EraseSpan(address, length) && done % SECTOR_SIZE == 0
      ensures ok ==> done == EraseSpan(address, length)
      ensures ok <==> faults == old(faults)
      ensures faults >= old(faults)
      ensures old(erases) <= erases
      ensures AlignedInside(erases[|old(erases)|..], SectorFloor(address), EraseEnd(address, length))
      ensures BlocksWhereTheyFit(erases[|old(erases)|..], EraseEnd(address, length))
    {
      var start := SectorFloor(address);
      var end := EraseEnd(address, length);
      var pos := start;
      done := 0;
      assert Erased(mem, start, 0) == mem;
      while pos < end
        invariant start <= pos && pos % SECTOR_SIZE == 0
        invariant start <= end ==> pos <= end
        invariant start > end ==> pos == start
        invariant done == pos - start && done % SECTOR_SIZE == 0
        invariant Valid() && mem == Erased(old(mem), start, done) && faults == old(faults)
        invariant old(erases) <= erases && AlignedInside(erases[|old(erases)|..], start, end)
        invariant BlocksWhereTheyFit(erases[|old(erases)|..], end)
        decreases end - pos
      {
        var command := EraseChoice(pos, end);
        ghost var before := mem;
        ghost var issued := erases[|old(erases)|..];
        ok := EraseCmd(command, pos, if command == Block64Erase then 20000000 else 5000000);
        EraseStep(old(mem), start, done, EraseSize(command));
        WholeSectors(done, command);
        assert BlockErased(before, pos, EraseSize(command)) == Erased(old(mem), start, done + EraseSize(command));
        assert erases[|old(erases)|..] == issued || erases[|old(erases)|..] == issued + [Issued(command, pos)];
        if !ok {
          if mem != before { done := done + EraseSize(command); }
          return;
        }
        pos := pos + EraseSize(command);
        done := done + EraseSize(command);
      }
      ok := true;
    }

    /** `copy_to_sf_buf`: pack bytes into words, padding the last word with 0xFF. */
    method CopyToBuf(data: array<Byte>, offset: nat, n: nat)
      requires Valid() && n <= PAGE_SIZE && offset + n <= data.Length
      modifies this`buf
      ensures Valid() && BufBytes(buf, n) == data[offset..offset + n]
    {
      var i := 0;
      while i < n
        invariant i % 4 == 0 && Valid()
        invariant forall k :: 0 <= k < i && k < n ==> BufByte(buf, k) == data[offset + k]
      {
        var word: bv32 := 0xFFFF_FFFF;
        var remain := if n - i > 4 then 4 else n - i;
        var j := 0;
        while j < remain
          invariant 0 <= j <= remain
          invariant forall k :: 0 <= k < j ==> Lane(word, k) == data[offset + i + k]
        {
          ghost var was := word;
          word := SetLane(word, j, data[offset + i + j]);
          forall k | 0 <= k <= j ensures Lane(word, k) == data[offset + i + k] {
            SetLaneLanes(was, j, data[offset + i + j], k);
          }
          j := j + 1;
        }
        ghost var prev := buf;
        buf := buf[i / 4 := word];
        forall k | 0 <= k < i + 4 && k < n ensures BufByte(buf, k) == data[offset + k] {
          if k < i {
            assert k / 4 != i / 4;
            assert BufByte(prev, k) == data[offset + k];
          } else {
            assert k / 4 == i / 4 && k % 4 == k - i;
          }
        }
        i := i + 4;
      }
    }

    /** `flash_read_compare` */
    method ReadCompare(data: array<Byte>, address: nat, offset: nat, length: nat) returns (same: bool)
      requires Valid() && offset + length <= data.Length
      modifies this
      ensures Valid() && mem == old(mem)
      ensures same ==> ReadBack(mem, address, length) == data[offset..offset + length]
      ensures faults == old(faults) ==> (same <==> ReadBack(mem, address, length) == data[offset..offset + length])
      ensures faults >= old(faults)
      ensures same ==> faults == old(faults)
    {
      var base := 0;
      while base < length
        invariant Valid() && mem == old(mem) && faults == old(faults)
        invariant forall k :: 0 <= k < base && k < length ==> CellAt(mem, address, k) == data[offset + k]
      {
        var n := if length - base > PAGE_SIZE then PAGE_SIZE else length - base;
        ReadBackWrap(mem, address + base, n);
        same := SendCmd(Read, Wrap(address + base), n);
        if !same { return; }
        var i := 0;
        while i < n
          invariant 0 <= i <= n
          invariant forall k :: 0 <= k < base + i ==> CellAt(mem, address, k) == data[offset + k]
        {
          var got := BufByte(buf, i);
          assert got == BufBytes(buf, n)[i] == ReadBack(mem, address + base, n)[i];
          assert got == CellAt(mem, address, base + i);
          if got != data[offset + base + i] {
            assert ReadBack(mem, address, length)[base + i] != data[offset..offset + length][base + i];
            same := false;
            return;
          }
          i := i + 1;
        }
        base := base + PAGE_SIZE;
      }
      same := true;
    }

    /** One turn of the programming loop: write enable, fill the buffer, program, wait. */
    method ProgramPage(data: array<Byte>, address: nat, pos: nat, n: nat) returns (ok: bool)
      requires Valid() && n <= PAGE_SIZE && pos + n <= data.Length
      modifies this
      ensures Valid()
      ensures mem == PageProgrammed(old(mem), address, data[pos..pos + n]) || (!ok && mem == old(mem))
      ensures ok <==> faults == old(faults)
      ensures faults >= old(faults)
    {
      ok := SendCmd(WriteEnable, 0, 0);
      if !ok { return; }
      CopyToBuf(data, pos, n);
      ok := SendCmd(PageProgram, address, n);
      if !ok { return; }
      ok := WaitReady(2000000);
    }

    /**
     `flash_program_verify`: split at page boundaries, program, read back.
     `done` bytes of the payload have been applied; all of them unless a command timed out.
     */
    method ProgramVerify(data: array<Byte>, address: nat, length: nat) returns (status: nat, ghost done: nat)
      requires Valid() && data.Length == DATA_MAX
      modifies this
      ensures Valid()
      ensures status in {ERR_OK, ERR_BAD_LENGTH, ERR_TIMEOUT, ERR_VERIFY}
      ensures status == ERR_BAD_LENGTH <==> length == 0 || length > DATA_MAX
      ensures status == ERR_BAD_LENGTH ==> mem == old(mem) && done == 0
      ensures faults >= old(faults)
      ensures status != ERR_BAD_LENGTH ==>
                && done <= length
                && mem == Programmed(old(mem), address, data[..done])
                && (status != ERR_TIMEOUT ==> done == length)
                && (status == ERR_OK ==> ReadBack(mem, address, length) == data[..length])
                && (faults == old(faults) ==>
                      (status == ERR_OK <==> Programmable(old(mem), address, data[..length]))
                      && status != ERR_TIMEOUT)
    {
      done := 0;
      if length == 0 || length > DATA_MAX {
        return ERR_BAD_LENGTH, 0;
      }
      assert Programmed(mem, address, data[..0]) == mem;
      var pos := 0;
      while pos < length
        invariant 0 <= pos <= length && done == pos
        invariant Valid() && mem == Programmed(old(mem), address, data[..pos]) && faults == old(faults)
      {
        var n := PageChunk(address, pos, length);
        ghost var before := mem;
        ProgramTurn(old(mem), address, data[..], pos, n);
        assert data[..][..pos] == data[..pos] && data[..][..pos + n] == data[..pos + n];
        assert data[..][pos..pos + n] == data[pos..pos + n];
        var ok := ProgramPage(data, Wrap(address + pos), pos, n);
        if !ok { return ERR_TIMEOUT, if mem == before then pos else pos + n; }
        pos := pos + n;
        done := pos;
      }
      var same := ReadCompare(data, address, 0, length);
      ProgrammedReadsBack(old(mem), address, data[..length]);
      return if same then ERR_OK else ERR_VERIFY, length;
    }
  }

  lemma ReadBackWrap(f: Flash, x: nat, n: nat)
    ensures ReadBack(f, Wrap(x), n) == ReadBack(f, x, n)
  {
    var r, s := ReadBack(f, Wrap(x), n), ReadBack(f, x, n);
    forall i | 0 <= i < n ensures r[i] == s[i] {
      assert x == x / WORD * WORD + Wrap(x);
      assert Wrap(x) + i == x + i + (-(x / WORD) * 256) * CAPACITY;
      ModShiftAny(x + i, -(x / WORD) * 256);
    }
  }

  /** How much of the payload the next page command takes: never past the end of the page. */
  function PageChunk(address: nat, pos: nat, length: nat): (n: nat)
    requires pos < length
    ensures 0 < n <= length - pos && n <= PAGE_SIZE - (address + pos) % PAGE_SIZE
  {
    PageOfWrap(address + pos);
    var room := PAGE_SIZE - Wrap(address + pos) % PAGE_SIZE;
    if room > length - pos then length - pos else room
  }

  lemma ProgramTurn(f: Flash, address: nat, data: seq<Byte>, pos: nat, n: nat)
    requires pos + n <= |data| <= CAPACITY && n <= PAGE_SIZE - (address + pos) % PAGE_SIZE
    ensures PageProgrammed(Programmed(f, address, data[..pos]), Wrap(address + pos), data[pos..pos + n])
         == Programmed(f, address, data[..pos + n])
  {
    CellOfWrap(address + pos);
    ProgramStep(f, address, data, pos, n);
  }
}
