/**
 What one request does to the flash: the body of the anchor's request loop, and the
 relation between flash before, request, flash after and reported status that the
 protocol proofs use instead of it.
 */
module Service {
  import opened MachineWord
  import opened Nor
  import opened SfController
  import opened FlashOps
  import opened Checksums

  const CMD_PING: nat := 0
  const CMD_READ_ID: nat := 1
  const CMD_ERASE: nat := 2
  const CMD_WRITE_VERIFY: nat := 3
  const CMD_REBOOT: nat := 4

  /**
   A request as it arrives; the link delivers whole frames. `headerOk` says that the header
   checksum received is the one recomputed from command, address and length.
   */
  datatype Frame = Frame(command: nat, address: nat, length: nat,
                         headerOk: bool, payloadChecksum: bv32, payload: seq<Byte>)

  ghost predicate WellFormed(q: Frame) {
    && q.command < WORD && q.address < WORD && q.length < WORD
    && (q.command == CMD_WRITE_VERIFY ==> |q.payload| == q.length)
  }

  /** The only thing a UART reply says about which request it answers. */
  function Counter(q: Frame): nat {
    Wrap(q.address + q.length)
  }

  ghost predicate Erases(f: Flash, address: nat, length: nat, g: Flash, status: nat, done: nat) {
    && done <= EraseSpan(address, length)
    && g == Erased(f, SectorFloor(address), done)
    && (status == ERR_OK || status == ERR_TIMEOUT)
    && (status == ERR_OK ==> done == EraseSpan(address, length))
  }

  ghost predicate Writes(f: Flash, address: nat, payload: seq<Byte>, g: Flash, status: nat, done: nat) {
    && done <= |payload|
    && g == Programmed(f, address, payload[..done])
    && (status == ERR_OK || status == ERR_TIMEOUT || status == ERR_VERIFY)
    && (status != ERR_TIMEOUT ==> done == |payload|)
    && (status == ERR_OK ==> ReadBack(g, address, |payload|) == payload)
  }

  ghost predicate ServesErase(f: Flash, address: nat, length: nat, g: Flash, status: nat) {
    if length == 0 then status == ERR_BAD_LENGTH && g == f
    else exists done: nat :: Erases(f, address, length, g, status, done)
  }

  ghost predicate ServesWrite(f: Flash, address: nat, payload: seq<Byte>, sum: bv32, g: Flash, status: nat) {
    if |payload| == 0 || |payload| > DATA_MAX then status == ERR_BAD_LENGTH && g == f
    else if Checksum(payload) != sum then status == ERR_CHECKSUM && g == f
    else exists done: nat :: Writes(f, address, payload, g, status, done)
  }

  /** Serving `q` on flash `f` may leave flash `g` and report `status`. */
  ghost predicate Serves(f: Flash, q: Frame, g: Flash, status: nat)
    requires WellFormed(q)
  {
    if !q.headerOk then status == ERR_CHECKSUM && g == f
    else if q.command == CMD_ERASE then ServesErase(f, q.address, q.length, g, status)
    else if q.command == CMD_WRITE_VERIFY then ServesWrite(f, q.address, q.payload, q.payloadChecksum, g, status)
    else if q.command == CMD_PING || q.command == CMD_READ_ID || q.command == CMD_REBOOT then status == ERR_OK && g == f
    else status == ERR_BAD_COMMAND && g == f
  }

  /** The RAM-resident anchor: the chip and its 4 KiB data buffer. */
  class Anchor {
    const chip: Chip
    const data: array<Byte>

    ghost predicate Valid()
      reads this, chip
    {
      chip.Valid() && data.Length == DATA_MAX
    }

    constructor ()
      ensures Valid() && fresh(chip) && fresh(data)
    {
      chip := new Chip();
      data := new Byte[DATA_MAX];
    }

    /** `uart_recv_payload` */
    method ReceivePayload(payload: seq<Byte>)
      requires Valid() && |payload| <= DATA_MAX
      modifies data
      ensures data[..|payload|] == payload
    {
      var i := 0;
      while i < |payload|
        invariant 0 <= i <= |payload| && data[..i] == payload[..i]
      {
        data[i] := payload[i];
        i := i + 1;
      }
    }

    method ServeErase(address: nat, length: nat) returns (status: nat)
      requires Valid() && address < WORD && length < WORD
      modifies chip
      ensures Valid() && ServesErase(old(chip.mem), address, length, chip.mem, status)
    {
      if length == 0 { return ERR_BAD_LENGTH; }
      var ok, done := chip.EraseRange(address, length);
      status := if ok then ERR_OK else ERR_TIMEOUT;
      assert Erases(old(chip.mem), address, length, chip.mem, status, done);
    }

    method ServeWrite(address: nat, payload: seq<Byte>, payloadChecksum: bv32) returns (status: nat)
      requires Valid()
      modifies chip, data
      ensures Valid() && ServesWrite(old(chip.mem), address, payload, payloadChecksum, chip.mem, status)
    {
      if |payload| == 0 || |payload| > DATA_MAX { return ERR_BAD_LENGTH; }
      ReceivePayload(payload);
      var sum := ChecksumData(data, |payload|);
      if sum != payloadChecksum { return ERR_CHECKSUM; }
      ghost var done;
      status, done := chip.ProgramVerify(data, address, |payload|);
      assert data[..done] == data[..|payload|][..done];
      assert Writes(old(chip.mem), address, payload, chip.mem, status, done);
    }

    /** One pass of the request loop, from a received frame to the reply. */
    method Serve(q: Frame) returns (status: nat, result: bv32, counter: nat)
      requires Valid() && WellFormed(q)
      modifies chip, data
      ensures Valid()
      ensures Serves(old(chip.mem), q, chip.mem, status)
      ensures counter == Counter(q)
      ensures q.command == CMD_PING && status == ERR_OK ==> result == 1
    {
      status, result, counter := ERR_OK, 0, Wrap(q.address + q.length);
      if !q.headerOk {
        status := ERR_CHECKSUM;
      } else if q.command == CMD_PING {
        result := 1;
      } else if q.command == CMD_READ_ID {
        result := chip.ReadChipId();
      } else if q.command == CMD_ERASE {
        status := ServeErase(q.address, q.length);
      } else if q.command == CMD_WRITE_VERIFY {
        status := ServeWrite(q.address, q.payload, q.payloadChecksum);
      } else if q.command == CMD_REBOOT {
      } else {
        status := ERR_BAD_COMMAND;
      }
    }
  }

  /** The status of a request that fails before it touches the flash, 0 for one that does not. */
  function RefusedWith(q: Frame): nat {
    if !q.headerOk then 3
    else if q.command > 4 then 1
    else if q.command == 2 && q.length == 0 then 2
    else if q.command == 3 && (|q.payload| == 0 || |q.payload| > 4096) then 2
    else if q.command == 3 && Checksum(q.payload) != q.payloadChecksum then 3
    else 0
  }

  /** The 4 KiB sectors that meet [lo, hi) hold 0xFF, and nothing else has changed. */
  ghost predicate SectorsErased(f: Flash, g: Flash, lo: nat, hi: nat) {
    forall c: nat :: c < CAPACITY ==>
      g[c] == if lo < (c / 4096 + 1) * 4096 && c / 4096 * 4096 < hi then 0xFF else f[c]
  }

  /** What a served request has done: refused without effect, or carried out if its status is 0. */
  lemma ServedExactly(f: Flash, q: Frame, g: Flash, status: nat)
    requires WellFormed(q) && Serves(f, q, g, status)
    ensures RefusedWith(q) != 0 ==> status == RefusedWith(q) && g == f
    ensures RefusedWith(q) == 0 ==> status == 0 || status == 4 || (status == 5 && q.command == 3)
    ensures RefusedWith(q) == 0 && (q.command == 0 || q.command == 1 || q.command == 4) ==> status == 0 && g == f
    ensures status == 0 && q.command == 3 ==> ReadBack(g, q.address, q.length) == q.payload
    ensures status == 0 && q.command == 2 && q.address + q.length <= CAPACITY ==>
              SectorsErased(f, g, q.address, q.address + q.length)
  {
    if status == 0 && q.command == 2 && q.address + q.length <= CAPACITY {
      EraseSpanCovers(q.address, q.length);
      SpanIsSectors(f, q.address, q.length, g);
    }
  }

  lemma SpanIsSectors(f: Flash, address: nat, length: nat, g: Flash)
    requires 0 < length && address + length <= CAPACITY
    requires g == Erased(f, SectorFloor(address), EraseSpan(address, length))
    ensures SectorsErased(f, g, address, address + length)
  {
    var base, n := SectorFloor(address), EraseSpan(address, length);
    EraseSpanCovers(address, length);
    assert CAPACITY % SECTOR_SIZE == 0;
    forall c: nat | c < CAPACITY
      ensures Within(c, base, n) <==> address < (c / 4096 + 1) * 4096 && c / 4096 * 4096 < address + length
    {
      WithinIsInterval(c, base, n);
    }
  }

  // ---- what the protocol proofs need of a served request ----

  /** The cells a request may change. */
  ghost predicate Touches(q: Frame, c: nat) {
    || (q.command == CMD_ERASE && Within(c, SectorFloor(q.address), EraseSpan(q.address, q.length)))
    || (q.command == CMD_WRITE_VERIFY && Within(c, q.address, |q.payload|))
  }

  /** The effect a write is meant to have, and nothing for any other request. */
  ghost predicate Holds(f: Flash, q: Frame) {
    q.command == CMD_WRITE_VERIFY ==> ReadBack(f, q.address, |q.payload|) == q.payload
  }

  lemma ServesOnlyTouched(f: Flash, q: Frame, g: Flash, status: nat, c: nat)
    requires WellFormed(q) && Serves(f, q, g, status) && c < CAPACITY && !Touches(q, c)
    ensures g[c] == f[c]
  {
  }

  lemma ServedWriteHolds(f: Flash, q: Frame, g: Flash)
    requires WellFormed(q) && Serves(f, q, g, ERR_OK)
    ensures Holds(g, q)
  {
  }

  /** Programming bytes that are already there changes nothing, however far it gets. */
  lemma ProgrammingAgain(f: Flash, address: int, payload: seq<Byte>, done: nat)
    requires ReadBack(f, address, |payload|) == payload && done <= |payload|
    ensures Programmed(f, address, payload[..done]) == f
  {
    var g := Programmed(f, address, payload[..done]);
    forall c | 0 <= c < CAPACITY ensures g[c] == f[c] {
      if Within(c, address, done) {
        CellOfOffset(c, address);
        var k := Offset(c, address);
        assert ReadBack(f, address, |payload|)[k] == CellAt(f, address, k) == f[c];
      }
    }
  }

  /** A repeated write is harmless, whatever it reports. */
  lemma ServingAgain(f: Flash, q: Frame, g: Flash, status: nat)
    requires WellFormed(q) && q.command == CMD_WRITE_VERIFY && Holds(f, q) && Serves(f, q, g, status)
    ensures g == f
  {
    if done: nat :| Writes(f, q.address, q.payload, g, status, done) {
      ProgrammingAgain(f, q.address, q.payload, done);
    }
  }

  /** No two requests interfere when one's cells stay clear of the other's range. */
  lemma HoldsOutside(f: Flash, g: Flash, q: Frame)
    requires Holds(f, q)
    requires q.command == CMD_WRITE_VERIFY ==>
               forall c: nat :: c < CAPACITY && Within(c, q.address, |q.payload|) ==> g[c] == f[c]
    requires |q.payload| <= CAPACITY
    ensures Holds(g, q)
  {
    if q.command == CMD_WRITE_VERIFY {
      var r, s := ReadBack(g, q.address, |q.payload|), ReadBack(f, q.address, |q.payload|);
      forall k | 0 <= k < |q.payload| ensures r[k] == s[k] {
        OffsetOfCell(q.address, k);
        assert Within(Cell(q.address + k), q.address, |q.payload|);
      }
    }
  }
}
