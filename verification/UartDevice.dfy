/**
 The emulated UART: transmit path from guest and DMA stores through the FIFO to the
 character backend, receive path the other way, clock and reset gating, interrupts.
 Every entry point keeps `Valid`.
 */
module UartDevice {
  import opened MachineWord
  import opened DeviceFifo

  const FIFO_DEPTH: nat := 32

  type Char = bv8

  /** A transfer length: the upper half of a configuration register. */
  type Length = n: nat | n < 0x1_0000

  /** The upper half of a configuration word. */
  function LengthField(v: bv32): Length {
    (v >> 16) as nat
  }

  lemma LengthFieldOf(n: bv32, rest: bv32)
    requires n < 0x1_0000 && rest < 0x1_0000
    ensures LengthField((n << 16) | rest) == n as nat
  {
  }

  /** UTX_CONFIG: enable, free-running mode, transfer length. */
  datatype TxConfig = TxConfig(en: bool, freerun: bool, length: Length)

  function DecodeTx(v: bv32): TxConfig {
    TxConfig(On(v, 0x1), On(v, 0x4), LengthField(v))
  }

  /** A transfer of the configured length has gone out. */
  predicate Complete(c: TxConfig, total: nat) {
    !c.freerun && c.length != 0 && total >= c.length
  }

  /** One more character counted, in 32 bits. */
  function Counted(total: nat): nat {
    (total + 1) % WORD
  }

  lemma OneCounted(total: nat, n: nat)
    ensures Counted((total + n) % WORD) == (total + n + 1) % WORD
  {
  }

  lemma PrefixGrows(before: seq<Char>, had: seq<Char>, buf: seq<Char>, n: nat)
    requires n < |buf| && had == before + buf[..n]
    ensures had + [buf[n]] == before + buf[..n + 1]
  {
  }

  /** A flush of n characters completes the transfer. */
  predicate Ends(c: TxConfig, total: nat, n: nat)
    decreases n
  {
    n > 0 && (Complete(c, Counted(total)) || Ends(c, Counted(total), n - 1))
  }

  /** How many of n characters a flush leaves queued: all after the one that completes the transfer. */
  function Left(c: TxConfig, total: nat, n: nat): (left: nat)
    ensures left <= n && (n > 0 ==> left < n)
    ensures !Ends(c, total, n) ==> left == 0
    decreases n
  {
    if n == 0 then 0 else if Complete(c, Counted(total)) then n - 1 else Left(c, Counted(total), n - 1)
  }

  /**
   Away from the wrap of the 32-bit total: a transfer ends with the flush that reaches the set length,
   and exactly the missing characters go out, or a single one if the total was already there.
   */
  lemma {:induction false} TransferLength(c: TxConfig, total: nat, n: nat)
    requires 0 < n && total + n < WORD
    ensures Ends(c, total, n) <==> !c.freerun && c.length != 0 && total + n >= c.length
    ensures Ends(c, total, n) ==> n - Left(c, total, n) == if total < c.length then c.length - total else 1
    decreases n
  {
    assert Counted(total) == total + 1;
    if n > 1 && !Complete(c, total + 1) {
      TransferLength(c, total + 1, n - 1);
    }
  }

  datatype RxConfig = RxConfig(en: bool, length: nat)

  function DecodeRx(v: bv32): RxConfig {
    RxConfig(On(v, 0x1), LengthField(v))
  }

  /** The interrupt bits the device can raise. */
  datatype Ints = Ints(utxEnd: bool, urxEnd: bool, utxReady: bool, urxReady: bool, utxError: bool, urxError: bool)

  function Without(a: Ints, b: Ints): Ints {
    Ints(a.utxEnd && !b.utxEnd, a.urxEnd && !b.urxEnd, a.utxReady && !b.utxReady, a.urxReady && !b.urxReady,
         a.utxError && !b.utxError, a.urxError && !b.urxError)
  }

  function DecodeInts(v: bv32): Ints {
    Ints(On(v, 0x1), On(v, 0x2), On(v, 0x4), On(v, 0x8), On(v, 0x40), On(v, 0x80))
  }

  const NO_INTS: Ints := Ints(false, false, false, false, false, false)
  const ALL_INTS: Ints := Ints(true, true, true, true, true, true)

  /** The six interrupts of a register word. */
  predicate IntBits(i: Ints, v: bv32) {
    && (i.utxEnd <==> v & 0x1 != 0) && (i.urxEnd <==> v & 0x2 != 0)
    && (i.utxReady <==> v & 0x4 != 0) && (i.urxReady <==> v & 0x8 != 0)
    && (i.utxError <==> v & 0x40 != 0) && (i.urxError <==> v & 0x80 != 0)
  }

  lemma DecodeIntsBits(v: bv32)
    ensures IntBits(DecodeInts(v), v)
  {
  }

  lemma WithoutNone(was: Ints)
    ensures Without(was, NO_INTS) == was
  {
  }

  lemma WithoutBits(was: Ints, v: bv32)
    ensures IntsCleared(Without(was, DecodeInts(v)), was, v)
  {
  }

  /** The same without those whose bits are set. */
  predicate IntsCleared(i: Ints, was: Ints, v: bv32) {
    && (i.utxEnd <==> was.utxEnd && v & 0x1 == 0) && (i.urxEnd <==> was.urxEnd && v & 0x2 == 0)
    && (i.utxReady <==> was.utxReady && v & 0x4 == 0) && (i.urxReady <==> was.urxReady && v & 0x8 == 0)
    && (i.utxError <==> was.utxError && v & 0x40 == 0) && (i.urxError <==> was.urxError && v & 0x80 == 0)
  }

  datatype FifoControl = FifoControl(dmaTx: bool, dmaRx: bool,
                                     txOverflow: bool, txUnderflow: bool, rxOverflow: bool, rxUnderflow: bool)

  /** What a store to FIFO_CONFIG_0 asks for. */
  datatype FifoWrite = FifoWrite(dmaTx: bool, dmaRx: bool, clearTx: bool, clearRx: bool)

  function DecodeFifoWrite(v: bv32): FifoWrite {
    FifoWrite(On(v, 0x1), On(v, 0x2), On(v, 0x4), On(v, 0x8))
  }

  datatype Thresholds = Thresholds(tx: nat, rx: nat)

  function TxThreshold(v: bv32): nat {
    ((v >> 16) & 0x1F) as nat
  }

  function RxThreshold(v: bv32): nat {
    ((v >> 24) & 0x1F) as nat
  }

  /** The two 5-bit fields, whatever the rest of the word holds. */
  lemma ThresholdsOf(tx: bv32, rx: bv32, rest: bv32)
    requires tx < 32 && rx < 32 && rest & 0x1F1F_0000 == 0
    ensures TxThreshold((rx << 24) | (tx << 16) | rest) == tx as nat
    ensures RxThreshold((rx << 24) | (tx << 16) | rest) == rx as nat
  {
  }

  function DecodeThresholds(v: bv32): Thresholds {
    Thresholds(TxThreshold(v), RxThreshold(v))
  }

  /** Some latched or dynamic interrupt is enabled and not masked; n characters free to send, m received. */
  predicate Pending(sts: Ints, on: Ints, fifo: FifoControl, th: Thresholds, n: int, m: nat) {
    || (sts.utxEnd && on.utxEnd)
    || (sts.urxEnd && on.urxEnd)
    || ((sts.utxReady || n > th.tx) && on.utxReady)
    || ((sts.urxReady || (m >= th.rx && m > 0)) && on.urxReady)
    || ((sts.utxError || fifo.txOverflow || fifo.txUnderflow) && on.utxError)
    || ((sts.urxError || fifo.rxOverflow || fifo.rxUnderflow) && on.urxError)
  }

  class Uart {
    const tx: Fifo<Char>
    const rx: Fifo<Char>
    var utx: TxConfig
    var urx: RxConfig
    var sts: Ints
    var enable: Ints
    var mask: Ints
    var fifo: FifoControl
    var thresholds: Thresholds
    var gateEnabled: bool
    var moduleClockEnabled: bool
    var clockEnabled: bool
    var resetAsserted: bool
    var txTotal: nat
    var rxTotal: nat
    var irq: bool
    /** Everything handed to the character backend. */
    var emitted: seq<Char>
    /** Characters accepted, less those thrown away by a FIFO clear or a reset. */
    ghost var accepted: seq<Char>

    predicate Active()
      reads this
    {
      clockEnabled && !resetAsserted
    }

    ghost predicate Shape()
      reads this, tx, rx
    {
      && tx.Valid() && rx.Valid() && tx.depth == rx.depth == FIFO_DEPTH
      && tx != rx && tx.slots != rx.slots
      && clockEnabled == (gateEnabled && moduleClockEnabled)
      && (resetAsserted ==> !utx.en) && rxTotal < WORD && txTotal < WORD
    }

    /** In order, nothing lost, nothing doubled. */
    ghost predicate Conserved()
      requires Shape()
      reads this, tx, rx, tx.slots
    {
      accepted == emitted + tx.Contents()
    }

    ghost predicate Valid()
      reads this, tx, rx, tx.slots
    {
      Shape() && Conserved() && (Active() && utx.en ==> tx.count == 0)
    }

    predicate LevelNow()
      requires tx.count <= FIFO_DEPTH
      reads this, tx, rx
    {
      Active() && Pending(sts, Without(enable, mask), fifo, thresholds, FIFO_DEPTH - tx.count, rx.count)
    }

    method UpdateIrq()
      requires Shape()
      modifies this`irq
      ensures irq == LevelNow()
    {
      irq := LevelNow();
    }

    /** The level in terms of the registers: clocked, and some interrupt latched or due, enabled and not masked. */
    lemma LevelOfRegisters()
      requires Shape()
      ensures LevelNow() <==>
                && clockEnabled && !resetAsserted
                && (|| (sts.utxEnd && enable.utxEnd && !mask.utxEnd)
                    || (sts.urxEnd && enable.urxEnd && !mask.urxEnd)
                    || ((sts.utxReady || 32 - tx.count > thresholds.tx) && enable.utxReady && !mask.utxReady)
                    || ((sts.urxReady || (rx.count > 0 && rx.count >= thresholds.rx))
                        && enable.urxReady && !mask.urxReady)
                    || ((sts.utxError || fifo.txOverflow || fifo.txUnderflow) && enable.utxError && !mask.utxError)
                    || ((sts.urxError || fifo.rxOverflow || fifo.rxUnderflow) && enable.urxError && !mask.urxError))
    {
    }

    constructor ()
      ensures Valid() && irq == LevelNow() && emitted == [] && !utx.en && Active() && tx.count == 0 && rx.count == 0
      ensures txTotal == 0
      ensures gateEnabled && moduleClockEnabled && sts == NO_INTS && !resetAsserted
      ensures fresh(tx) && fresh(rx) && fresh(tx.slots) && fresh(rx.slots)
    {
      tx := new Fifo<Char>(FIFO_DEPTH);
      rx := new Fifo<Char>(FIFO_DEPTH);
      utx, urx := TxConfig(false, false, 0), RxConfig(false, 0);
      sts, enable, mask := NO_INTS, ALL_INTS, ALL_INTS;
      fifo, thresholds := FifoControl(false, false, false, false, false, false), Thresholds(0, 0);
      gateEnabled, moduleClockEnabled, clockEnabled, resetAsserted := true, true, true, false;
      txTotal, rxTotal := 0, 0;
      emitted, accepted := [], [];
      irq := false;
    }

    /** The oldest queued character goes to the backend. */
    method EmitOne()
      requires Shape() && Conserved() && tx.count > 0
      modifies this`txTotal, this`emitted, tx
      ensures Shape() && Conserved() && tx.count == old(tx.count) - 1
      ensures old(emitted) <= emitted && |emitted| == |old(emitted)| + 1 && txTotal == Counted(old(txTotal))
    {
      ghost var queued, already := tx.Contents(), emitted;
      var ch := tx.Pop();
      emitted := emitted + [ch];
      txTotal := Counted(txTotal);
      assert already + queued == emitted + tx.Contents();
    }

    /**
     `bl808_uart_flush_tx`: drain the FIFO into the backend. It stops early only when a
     transfer of the configured length is complete, and then the transmitter is off.
     */
    method FlushTx()
      requires Shape() && Conserved()
      modifies this`utx, this`sts, this`txTotal, this`emitted, tx
      ensures Valid() && old(emitted) <= emitted && |emitted| + tx.count == |old(emitted)| + old(tx.count)
      ensures Active() && old(utx).en ==>
                (var ends := Ends(old(utx), old(txTotal), old(tx.count));
                 && tx.count == Left(old(utx), old(txTotal), old(tx.count))
                 && utx == (if ends then old(utx).(en := false) else old(utx))
                 && sts == (if ends then old(sts).(utxEnd := true) else old(sts))
                 && txTotal == if ends then 0 else (old(txTotal) + old(tx.count)) % 0x1_0000_0000)
      ensures !(Active() && old(utx).en) || old(tx.count) == 0 ==>
                emitted == old(emitted) && utx == old(utx) && sts == old(sts) && tx.count == old(tx.count)
                  && txTotal == old(txTotal)
    {
      if !Active() || !utx.en { return; }
      while tx.count > 0
        invariant Shape() && Conserved() && utx == old(utx) && sts == old(sts)
        invariant old(emitted) <= emitted && |emitted| + tx.count == |old(emitted)| + old(tx.count)
        invariant tx.count <= old(tx.count) && txTotal == (old(txTotal) + (old(tx.count) - tx.count)) % WORD
        invariant Left(utx, txTotal, tx.count) == Left(utx, old(txTotal), old(tx.count))
        invariant Ends(utx, txTotal, tx.count) == Ends(utx, old(txTotal), old(tx.count))
        decreases tx.count
      {
        OneCounted(old(txTotal), old(tx.count) - tx.count);
        EmitOne();
        if Complete(utx, txTotal) {
          sts := sts.(utxEnd := true);
          utx := utx.(en := false);
          txTotal := 0;
          return;
        }
      }
    }

    /** Queue one character and let it out. */
    method Transmit(value: Char)
      requires Valid() && utx.en && tx.count < FIFO_DEPTH
      modifies this`utx, this`sts, this`txTotal, this`emitted, this`accepted, tx, tx.slots
      ensures Valid() && accepted == old(accepted) + [value] && old(emitted) <= emitted
      ensures !Active() ==> emitted == old(emitted) && txTotal == old(txTotal) && utx == old(utx) && sts == old(sts)
      ensures Active() ==> WentOut(old(utx), old(sts), old(txTotal))
    {
      tx.Push(value);
      accepted := accepted + [value];
      FlushTx();
    }

    /** One character has gone out: it is counted, or completes a transfer of the set length. */
    predicate WentOut(was: TxConfig, latched: Ints, total: nat)
      reads this
    {
      var n := (total + 1) % 0x1_0000_0000;
      if !was.freerun && was.length != 0 && n >= was.length
      then utx == was.(en := false) && sts == latched.(utxEnd := true) && txTotal == 0
      else utx == was && sts == latched && txTotal == n
    }

    /** `bl808_uart_dma_write` */
    method DmaWrite(value: Char, width: nat)
      requires Valid()
      modifies this`utx, this`sts, this`txTotal, this`emitted, this`accepted, this`fifo, this`irq, tx, tx.slots
      ensures Valid()
      ensures width == 1 ==> irq == LevelNow()
      ensures width == 1 && old(tx.count) < FIFO_DEPTH && old(utx).en ==> accepted == old(accepted) + [value]
      ensures width != 1 || old(tx.count) == FIFO_DEPTH || !old(utx).en ==>
                accepted == old(accepted) && emitted == old(emitted)
      ensures width == 1 && old(tx.count) < FIFO_DEPTH && old(utx).en && Active() ==>
                WentOut(old(utx), old(sts), old(txTotal))
      ensures !(width == 1 && old(tx.count) < FIFO_DEPTH && old(utx).en && Active()) ==>
                utx == old(utx) && sts == old(sts) && txTotal == old(txTotal)
      ensures fifo == if width != 1 then old(fifo)
                      else if old(tx.count) == FIFO_DEPTH then old(fifo).(txOverflow := true)
                      else if !old(utx).en then old(fifo).(txUnderflow := true) else old(fifo)
    {
      if width != 1 { return; }
      if tx.count >= FIFO_DEPTH {
        fifo := fifo.(txOverflow := true);
      } else if !utx.en {
        fifo := fifo.(txUnderflow := true);
      } else {
        Transmit(value);
      }
      UpdateIrq();
    }

    /** A guest store to FIFO_WDATA. */
    method WriteData(value: Char)
      requires Valid()
      modifies this`utx, this`sts, this`txTotal, this`emitted, this`accepted, this`fifo, this`irq, tx, tx.slots
      ensures Valid() && irq == LevelNow() && old(emitted) <= emitted
      ensures !Active() ==> emitted == old(emitted) && txTotal == old(txTotal)
      ensures old(tx.count) < FIFO_DEPTH && old(utx).en ==> accepted == old(accepted) + [value]
      ensures old(tx.count) == FIFO_DEPTH || !old(utx).en ==> accepted == old(accepted) && emitted == old(emitted)
      ensures old(tx.count) < FIFO_DEPTH && old(utx).en && Active() ==> WentOut(old(utx), old(sts), old(txTotal))
      ensures !(old(tx.count) < FIFO_DEPTH && old(utx).en && Active()) ==>
                utx == old(utx) && sts == old(sts) && txTotal == old(txTotal)
      ensures fifo == if !old(utx).en then old(fifo).(txUnderflow := true)
                      else if old(tx.count) == FIFO_DEPTH then old(fifo).(txOverflow := true) else old(fifo)
    {
      if utx.en {
        if tx.count >= FIFO_DEPTH {
          fifo := fifo.(txOverflow := true);
        } else {
          Transmit(value);
        }
      } else {
        fifo := fifo.(txUnderflow := true);
      }
      UpdateIrq();
    }

    /**
     A store to UTX_CONFIG leaves the line wrong: low, although the flush it starts makes an enabled
     interrupt pending. All of it can be read before the store.
     */
    predicate GoesStale(next: TxConfig)
      requires tx.count <= FIFO_DEPTH
      reads this, tx, rx
    {
      !irq && !utx.en && next.en && Active() && tx.count > 0
      && Pending(sts.(utxEnd := sts.utxEnd || Ends(next, txTotal, tx.count)), Without(enable, mask), fifo, thresholds,
                 FIFO_DEPTH - Left(next, txTotal, tx.count), rx.count)
    }

    /**
     A guest store to UTX_CONFIG: turning the transmitter on drains the FIFO. The interrupt line is not recomputed.
     */
    method WriteTxConfig(next: TxConfig)
      requires Valid() && !resetAsserted
      modifies this`utx, this`sts, this`txTotal, this`emitted, tx
      ensures Valid() && accepted == old(accepted) && old(emitted) <= emitted && irq == old(irq)
      ensures !(next.en && Active()) || old(tx.count) == 0 ==>
                emitted == old(emitted) && utx == next && txTotal == old(txTotal)
      ensures !old(utx).en && next.en && Active() ==>
                && tx.count == Left(next, old(txTotal), old(tx.count))
                && utx == (if Ends(next, old(txTotal), old(tx.count)) then next.(en := false) else next)
                && sts == (if Ends(next, old(txTotal), old(tx.count)) then old(sts).(utxEnd := true) else old(sts))
      ensures old(irq == LevelNow()) ==> (irq != LevelNow() <==> old(GoesStale(next)))
    {
      var was := utx.en;
      utx := next;
      if !was && utx.en { FlushTx(); }
    }

    method SetClockEnabled(enabled: bool)
      requires Valid()
      modifies this`gateEnabled, this`clockEnabled, this`utx, this`sts, this`txTotal, this`emitted, this`irq, tx
      ensures Valid() && irq == LevelNow() && gateEnabled == enabled && accepted == old(accepted)
      ensures !old(utx).en || !enabled ==>
                utx == old(utx) && sts == old(sts) && emitted == old(emitted) && tx.count == old(tx.count)
                  && txTotal == old(txTotal)
    {
      gateEnabled := enabled;
      clockEnabled := gateEnabled && moduleClockEnabled;
      if Active() { FlushTx(); }
      UpdateIrq();
    }

    method SetModuleClockEnabled(enabled: bool)
      requires Valid()
      modifies this`moduleClockEnabled, this`clockEnabled, this`utx, this`sts, this`txTotal, this`emitted, this`irq, tx
      ensures Valid() && irq == LevelNow() && moduleClockEnabled == enabled && accepted == old(accepted)
    {
      moduleClockEnabled := enabled;
      clockEnabled := gateEnabled && moduleClockEnabled;
      if Active() { FlushTx(); }
      UpdateIrq();
    }

    method ClearFifos()
      requires tx.Valid() && rx.Valid() && tx != rx
      modifies tx, rx
      ensures tx.Valid() && rx.Valid() && tx.count == 0 && rx.count == 0 && tx.Contents() == []
    {
      tx.Clear();
      rx.Clear();
    }

    method ResetRegisters()
      modifies this`utx, this`urx, this`sts, this`enable, this`mask, this`fifo, this`thresholds, this`txTotal,
               this`rxTotal
      modifies this`clockEnabled
      ensures AtReset()
      ensures clockEnabled == (gateEnabled && moduleClockEnabled) && rxTotal == 0
    {
      utx, urx := TxConfig(false, false, 0), RxConfig(false, 0);
      sts, mask, enable := NO_INTS, ALL_INTS, ALL_INTS;
      fifo, thresholds := FifoControl(false, false, false, false, false, false), Thresholds(0, 0);
      txTotal, rxTotal := 0, 0;
      clockEnabled := gateEnabled && moduleClockEnabled;
    }

    /** Both directions off, every interrupt enabled and masked, nothing latched or counted. */
    predicate AtReset()
      reads this
    {
      && !utx.en && !utx.freerun && utx.length == 0 && !urx.en && urx.length == 0 && txTotal == 0 && rxTotal == 0
      && IntBits(sts, 0) && IntBits(enable, 0xFFF) && IntBits(mask, 0xFFF)
      && !fifo.dmaTx && !fifo.dmaRx && thresholds.tx == 0 && thresholds.rx == 0
      && !fifo.txOverflow && !fifo.txUnderflow && !fifo.rxOverflow && !fifo.rxUnderflow
    }

    /** `bl808_uart_reset`: queued characters are dropped. */
    method Reset()
      requires tx.Valid() && rx.Valid() && tx.depth == rx.depth == FIFO_DEPTH && tx != rx && tx.slots != rx.slots
      modifies this`utx, this`urx, this`sts, this`enable, this`mask, this`fifo, this`thresholds, this`txTotal,
               this`rxTotal
      modifies this`clockEnabled, this`irq, this`accepted, tx, rx
      ensures Valid() && irq == LevelNow() && tx.count == 0 && rx.count == 0 && accepted == emitted && AtReset()
    {
      ResetRegisters();
      ClearFifos();
      accepted := emitted;
      UpdateIrq();
    }

    method SetResetAsserted(asserted: bool)
      requires Valid()
      modifies this, tx, rx
      ensures Valid() && irq == LevelNow() && resetAsserted == asserted && emitted == old(emitted)
      ensures asserted ==> tx.count == 0 && rx.count == 0 && accepted == emitted && AtReset()
      ensures !asserted ==> accepted == old(accepted) && utx == old(utx) && urx == old(urx) && sts == old(sts)
    {
      resetAsserted := asserted;
      if asserted { Reset(); }
      UpdateIrq();
    }

    method ClearTx()
      requires Shape()
      modifies this`fifo, this`accepted, tx
      ensures Shape() && Conserved() && tx.count == 0 && accepted == emitted
      ensures fifo == old(fifo).(txOverflow := false, txUnderflow := false)
    {
      tx.Clear();
      accepted := emitted;
      fifo := fifo.(txOverflow := false, txUnderflow := false);
    }

    method ClearRx()
      requires Shape()
      modifies this`fifo, rx
      ensures Shape() && rx.count == 0 && rx.Contents() == []
      ensures fifo == old(fifo).(rxOverflow := false, rxUnderflow := false)
    {
      rx.Clear();
      fifo := fifo.(rxOverflow := false, rxUnderflow := false);
    }

    /** A guest store to FIFO_CONFIG_0: DMA enables are taken over, clear bits drop what is queued. */
    method WriteFifoConfig(next: FifoWrite)
      requires Valid()
      modifies this`fifo, this`irq, this`accepted, tx, rx
      ensures Valid() && irq == LevelNow() && emitted == old(emitted)
      ensures next.clearTx ==> tx.count == 0 && accepted == emitted
      ensures !next.clearTx ==> accepted == old(accepted)
      ensures rx.Contents() == if next.clearRx then [] else old(rx.Contents())
      ensures fifo == FifoControl(next.dmaTx, next.dmaRx,
                                  old(fifo).txOverflow && !next.clearTx, old(fifo).txUnderflow && !next.clearTx,
                                  old(fifo).rxOverflow && !next.clearRx, old(fifo).rxUnderflow && !next.clearRx)
    {
      fifo := fifo.(dmaTx := next.dmaTx, dmaRx := next.dmaRx);
      if next.clearTx { ClearTx(); }
      if next.clearRx { ClearRx(); }
      UpdateIrq();
    }

    /** Stores to the interrupt mask, clear and enable registers. */
    method WriteInts(newMask: Ints, clear: Ints, newEnable: Ints)
      requires Valid()
      modifies this`mask, this`sts, this`enable, this`irq
      ensures Valid() && irq == LevelNow() && mask == newMask && enable == newEnable && sts == Without(old(sts), clear)
    {
      mask, sts, enable := newMask, Without(sts, clear), newEnable;
      UpdateIrq();
    }

    /** Stores to the receive configuration, the interrupt registers and the thresholds. */
    method WriteRegister(offset: nat, value: bv32)
      requires Valid()
      modifies this`urx, this`mask, this`sts, this`enable, this`thresholds, this`irq
      ensures Valid() && (old(irq == LevelNow()) ==> irq == LevelNow())
      ensures offset == 0x04 ==> (urx.en <==> value & 0x1 != 0) && urx.length == LengthField(value)
      ensures offset != 0x04 ==> urx == old(urx)
      ensures if offset == 0x24 then IntBits(mask, value) else mask == old(mask)
      ensures if offset == 0x28 then IntsCleared(sts, old(sts), value) else sts == old(sts)
      ensures if offset == 0x2C then IntBits(enable, value) else enable == old(enable)
      ensures offset == 0x84 ==> thresholds.tx == TxThreshold(value) && thresholds.rx == RxThreshold(value)
      ensures offset != 0x84 ==> thresholds == old(thresholds)
    {
      WithoutNone(sts);
      if offset == 0x04 {
        urx := DecodeRx(value);
      } else if offset == 0x24 {
        DecodeIntsBits(value);
        WriteInts(DecodeInts(value), NO_INTS, enable);
      } else if offset == 0x28 {
        WithoutBits(sts, value);
        WriteInts(mask, DecodeInts(value), enable);
      } else if offset == 0x2C {
        DecodeIntsBits(value);
        WriteInts(mask, NO_INTS, DecodeInts(value));
      } else if offset == 0x84 {
        thresholds := DecodeThresholds(value);
        UpdateIrq();
      }
    }

    /** The transmitter's configuration is that of the word. */
    predicate UtxBits(value: bv32)
      reads this
    {
      (utx.en <==> value & 0x1 != 0) && (utx.freerun <==> value & 0x4 != 0) && utx.length == LengthField(value)
    }

    method WriteUtx(value: bv32)
      requires Valid() && !resetAsserted
      modifies this`utx, this`sts, this`txTotal, this`emitted, tx
      ensures Valid() && accepted == old(accepted) && old(emitted) <= emitted && irq == old(irq)
      ensures old(value & 0x1 == 0 || !Active() || tx.count == 0) ==> UtxBits(value)
      ensures old(irq == LevelNow()) ==> (irq != LevelNow() <==> old(GoesStale(DecodeTx(value))))
    {
      WriteTxConfig(DecodeTx(value));
    }

    method WriteFifoWord(value: bv32)
      requires Valid()
      modifies this`fifo, this`irq, this`accepted, tx, rx
      ensures Valid() && irq == LevelNow() && emitted == old(emitted)
      ensures FifoWord(value, old(fifo), old(accepted), old(rx.Contents()))
    {
      WriteFifoConfig(DecodeFifoWrite(value));
    }

    /** `bl808_uart_write` */
    method Write(offset: nat, value: bv32)
      requires Valid()
      modifies this, tx, rx, tx.slots
      ensures Valid() && old(emitted) <= emitted && Active() == old(Active())
      ensures old(resetAsserted) ==> unchanged(this) && unchanged(tx) && unchanged(rx)
      ensures offset != 0x80 && offset != 0x88 ==> accepted == old(accepted)
      ensures offset == 0x88 && old(tx.count) < FIFO_DEPTH && old(utx).en && !old(resetAsserted) ==>
                accepted == old(accepted) + [(value & 0xFF) as Char]
      ensures old(irq == LevelNow()) ==>
                (irq != LevelNow() <==> old(offset == 0x00 && !resetAsserted && GoesStale(DecodeTx(value))))
      // each register takes its word, and no other store touches it
      ensures old(!resetAsserted && offset == 0x04) ==>
                (urx.en <==> value & 0x1 != 0) && urx.length == LengthField(value)
      ensures offset != 0x04 ==> urx == old(urx)
      ensures if old(!resetAsserted) && offset == 0x24 then IntBits(mask, value) else mask == old(mask)
      ensures if old(!resetAsserted) && offset == 0x2C then IntBits(enable, value) else enable == old(enable)
      ensures old(!resetAsserted) && offset == 0x28 ==> IntsCleared(sts, old(sts), value)
      ensures old(!resetAsserted && offset == 0x84) ==>
                thresholds.tx == TxThreshold(value) && thresholds.rx == RxThreshold(value)
      ensures offset != 0x84 ==> thresholds == old(thresholds)
      // the FIFOs' control word and the data register
      ensures old(!resetAsserted && offset == 0x80) ==> FifoWord(value, old(fifo), old(accepted), old(rx.Contents()))
      ensures old(!resetAsserted && offset == 0x88) ==>
                fifo == if !old(utx).en then old(fifo).(txUnderflow := true)
                        else if old(tx.count) == 32 then old(fifo).(txOverflow := true) else old(fifo)
      ensures offset != 0x80 ==> rx.Contents() == old(rx.Contents())
      ensures offset != 0x80 && offset != 0x88 ==> fifo == old(fifo)
      // the transmitter's configuration, as long as nothing is queued
      ensures old(!resetAsserted && offset == 0x00 && (value & 0x1 == 0 || !Active() || tx.count == 0)) ==>
                UtxBits(value)
      ensures offset != 0x00 && offset != 0x88 ==> utx == old(utx) && txTotal == old(txTotal) && emitted == old(emitted)
      ensures offset != 0x00 && offset != 0x28 && offset != 0x88 ==> sts == old(sts)
    {
      if resetAsserted { return; }
      if offset == 0x00 {
        WriteUtx(value);
      } else if offset == 0x80 {
        WriteFifoWord(value);
      } else if offset == 0x88 {
        WriteData((value & 0xFF) as Char);
      } else {
        WriteRegister(offset, value);
      }
    }

    /** A store to FIFO_CONFIG_0 by its bits: DMA enables, then clears of the two FIFOs and their error flags. */
    ghost predicate FifoWord(value: bv32, was: FifoControl, accepted: seq<Char>, received: seq<Char>)
      requires Shape()
      reads this, tx, rx, rx.slots
    {
      && fifo == FifoControl(value & 0x1 != 0, value & 0x2 != 0,
                             was.txOverflow && value & 0x4 == 0, was.txUnderflow && value & 0x4 == 0,
                             was.rxOverflow && value & 0x8 == 0, was.rxUnderflow && value & 0x8 == 0)
      && (if value & 0x4 != 0 then tx.count == 0 && this.accepted == emitted else this.accepted == accepted)
      && rx.Contents() == if value & 0x8 != 0 then [] else received
    }

    /** `bl808_uart_receive`: characters from the backend, as many as fit. */
    method Receive(buf: seq<Char>)
      requires Valid()
      modifies this`fifo, this`sts, this`rxTotal, this`irq, rx, rx.slots
      ensures Valid() && accepted == old(accepted) && emitted == old(emitted)
      ensures !(Active() && urx.en) ==> unchanged(this) && rx.Contents() == old(rx.Contents())
      ensures Active() && urx.en ==>
                var n := if |buf| < FIFO_DEPTH - old(rx.count) then |buf| else FIFO_DEPTH - old(rx.count);
                rx.Contents() == old(rx.Contents()) + buf[..n] && irq == LevelNow()
                && fifo == (if |buf| > n then old(fifo).(rxOverflow := true) else old(fifo))
                && Ended(old(sts), (old(rxTotal) + n) % 0x1_0000_0000)
    {
      if !Active() || !urx.en { return; }
      var n := Fill(buf);
      if n < |buf| { fifo := fifo.(rxOverflow := true); }
      MaybeEnd();
      UpdateIrq();
    }

    /** `bl808_uart_maybe_set_rx_end` */
    method MaybeEnd()
      modifies this`sts, this`rxTotal
      ensures Ended(old(sts), old(rxTotal))
    {
      if urx.length != 0 && rxTotal >= urx.length {
        sts := sts.(urxEnd := true);
        rxTotal := 0;
      }
    }

    /**
     With `total` characters counted: the end of a transfer of the set length is latched and the count starts anew.
     */
    ghost predicate Ended(was: Ints, total: nat)
      reads this
    {
      if urx.length != 0 && total >= urx.length then sts == was.(urxEnd := true) && rxTotal == 0
      else sts == was && rxTotal == total
    }

    /** The loop of `bl808_uart_receive`: store until the buffer ends or the FIFO is full. */
    method Fill(buf: seq<Char>) returns (n: nat)
      requires rx.Valid() && rx.depth == FIFO_DEPTH && rxTotal < WORD
      modifies this`rxTotal, rx, rx.slots
      ensures rx.Valid() && n == if |buf| < FIFO_DEPTH - old(rx.count) then |buf| else FIFO_DEPTH - old(rx.count)
      ensures rx.Contents() == old(rx.Contents()) + buf[..n] && rxTotal == (old(rxTotal) + n) % WORD
    {
      n := 0;
      while n < |buf| && rx.count < FIFO_DEPTH
        invariant 0 <= n <= |buf| && rx.Valid() && rx.count == old(rx.count) + n
        invariant rx.Contents() == old(rx.Contents()) + buf[..n] && rxTotal == (old(rxTotal) + n) % WORD
      {
        ghost var had := rx.Contents();
        rx.Push(buf[n]);
        PrefixGrows(old(rx.Contents()), had, buf, n);
        OneCounted(old(rxTotal), n);
        rxTotal := Counted(rxTotal);
        n := n + 1;
      }
    }

    /** A read of the receive data register, by the guest or by DMA. */
    method ReadData() returns (ch: Char)
      requires Valid()
      modifies this`fifo, this`irq, rx
      ensures Valid() && irq == LevelNow()
      ensures old(rx.count) > 0 ==> old(rx.Contents()) == [ch] + rx.Contents()
      ensures old(rx.count) == 0 ==> ch == 0xFF && fifo == old(fifo).(rxUnderflow := true)
    {
      if rx.count > 0 {
        ch := rx.Pop();
      } else {
        fifo := fifo.(rxUnderflow := true);
        ch := 0xFF;
      }
      UpdateIrq();
    }

    method Handle(e: Event)
      requires Valid()
      modifies this, tx, rx, tx.slots, rx.slots
      ensures Valid()
    {
      match e
      case Store(offset, value) => Write(offset, value);
      case LoadData => var _ := ReadData();
      case Dma(ch, width) => DmaWrite(ch, width);
      case Incoming(buf) => Receive(buf);
      case Clock(enabled) => SetClockEnabled(enabled);
      case ModuleClock(enabled) => SetModuleClockEnabled(enabled);
      case ResetLine(asserted) => SetResetAsserted(asserted);
    }
  }

  /** Whatever happens to the device. */
  datatype Event =
    | Store(offset: nat, value: bv32)
    | LoadData
    | Dma(ch: Char, width: nat)
    | Incoming(buf: seq<Char>)
    | Clock(enabled: bool)
    | ModuleClock(enabled: bool)
    | ResetLine(asserted: bool)

  /**
   After any history: accepted characters are the emitted ones and then the queued ones, and a running transmitter has
   none queued.
   */
  method AnyHistory(events: seq<Event>) returns (u: Uart)
    ensures u.Valid() && u.accepted == u.emitted + u.tx.Contents()
    ensures u.Active() && u.utx.en ==> u.tx.count == 0
  {
    u := new Uart();
    for n := 0 to |events|
      invariant u.Valid() && fresh(u) && fresh(u.tx) && fresh(u.rx) && fresh(u.tx.slots) && fresh(u.rx.slots)
    {
      u.Handle(events[n]);
    }
  }

  /** The transmitter on and the clock off. */
  method StoppedOn() returns (u: Uart)
    ensures fresh(u) && fresh(u.tx) && fresh(u.rx) && fresh(u.tx.slots) && u.Valid()
    ensures u.tx.count == 0 && u.txTotal == 0 && u.utx.en && !u.Active() && !u.resetAsserted && u.moduleClockEnabled
  {
    u := new Uart();
    u.WriteTxConfig(TxConfig(true, true, 0));
    u.SetClockEnabled(false);
  }

  /** A character left in the FIFO: stored while the clock was off, then the transmitter turned off. */
  method QueueWhileStopped(ch: Char) returns (u: Uart)
    ensures fresh(u) && fresh(u.tx) && fresh(u.rx) && fresh(u.tx.slots) && u.Valid()
    ensures u.tx.count == 1 && u.txTotal == 0 && !u.utx.en && !u.resetAsserted && u.moduleClockEnabled
  {
    u := StoppedOn();
    u.WriteData(ch);
    u.WriteTxConfig(TxConfig(false, true, 0));
  }

  /**
   The interrupt line can be stale: a one-character transfer started by UTX_CONFIG leaves a
   pending unmasked end-of-transfer interrupt on a low line.
   */
  method StaleInterrupt(ch: Char) returns (u: Uart)
    ensures u.Valid() && u.LevelNow() && !u.irq
  {
    u := QueueWhileStopped(ch);
    u.WriteInts(NO_INTS, ALL_INTS, Ints(true, false, false, false, false, false));
    u.SetClockEnabled(true);
    assert Ends(TxConfig(true, false, 1), 0, 1);
    u.WriteTxConfig(TxConfig(true, false, 1));
  }
}
