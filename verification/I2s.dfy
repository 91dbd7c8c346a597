/**
 The emulated I2S controller: transmit FIFO, a bottom half that stands for the serializer,
 clock and reset gating, and a level interrupt. Every entry point keeps `Valid`, so what
 `Valid` says holds after any sequence of guest accesses, DMA, clock, reset and main-loop
 events.
 */
module I2s {
  import opened DeviceFifo

  const FIFO_DEPTH: nat := 16

  const CFG_TX_EN: bv32 := 0x4

  /** The control bits of INT_STS. */
  datatype IntControl = IntControl(txEn: bool, rxEn: bool, errEn: bool, txMask: bool, rxMask: bool, errMask: bool)

  function DecodeInt(v: bv32): IntControl {
    IntControl(On(v, 0x100_0000), On(v, 0x200_0000), On(v, 0x400_0000), On(v, 0x100), On(v, 0x200), On(v, 0x400))
  }

  /** Enables and masks of an interrupt word. */
  predicate IntBits(i: IntControl, v: bv32) {
    && (i.txEn <==> v & 0x100_0000 != 0) && (i.rxEn <==> v & 0x200_0000 != 0) && (i.errEn <==> v & 0x400_0000 != 0)
    && (i.txMask <==> v & 0x100 != 0) && (i.rxMask <==> v & 0x200 != 0) && (i.errMask <==> v & 0x400 != 0)
  }

  lemma DecodeIntBits(v: bv32)
    ensures IntBits(DecodeInt(v), v)
  {
  }

  const INT_RESET: IntControl := IntControl(true, true, true, true, true, true)

  /** FIFO_CONFIG0: DMA enables written by the guest, error flags kept by the device. */
  datatype FifoControl = FifoControl(dmaTx: bool, dmaRx: bool,
                                     txOverflow: bool, txUnderflow: bool, rxOverflow: bool, rxUnderflow: bool)
  {
    predicate Error() {
      txOverflow || txUnderflow || rxOverflow || rxUnderflow
    }
  }

  const FIFO_RESET: FifoControl := FifoControl(false, false, false, false, false, false)

  /** FIFO_CONFIG1: the two 4-bit thresholds. */
  datatype Thresholds = Thresholds(tx: nat, rx: nat)

  function TxThreshold(v: bv32): nat {
    ((v >> 16) & 0xF) as nat
  }

  function RxThreshold(v: bv32): nat {
    ((v >> 24) & 0xF) as nat
  }

  /** The two 4-bit fields, whatever the rest of the word holds. */
  lemma ThresholdsOf(tx: bv32, rx: bv32, rest: bv32)
    requires tx < 16 && rx < 16 && rest & 0x0F0F_0000 == 0
    ensures TxThreshold((rx << 24) | (tx << 16) | rest) == tx as nat
    ensures RxThreshold((rx << 24) | (tx << 16) | rest) == rx as nat
  {
  }

  function DecodeThresholds(v: bv32): Thresholds {
    Thresholds(TxThreshold(v), RxThreshold(v))
  }

  /** The interrupt level as a function of clock state, registers and FIFO counts. */
  predicate Level(active: bool, ints: IntControl, fifo: FifoControl, th: Thresholds, txCount: nat, rxCount: nat) {
    active &&
    (|| (FIFO_DEPTH - txCount > th.tx && ints.txEn && !ints.txMask)
     || (rxCount > th.rx && ints.rxEn && !ints.rxMask)
     || (fifo.Error() && ints.errEn && !ints.errMask))
  }

  class Controller {
    const tx: Fifo<bv32>
    const rx: Fifo<bv32>
    var config: bv32
    var ints: IntControl
    var bclkConfig: bv32
    var fifo: FifoControl
    var thresholds: Thresholds
    var ioConfig: bv32
    var gateEnabled: bool
    var moduleClockEnabled: bool
    var clockEnabled: bool
    var resetAsserted: bool
    var txScheduled: bool
    /** The main loop has the bottom half queued. */
    var bhPending: bool
    var irq: bool
    /** Samples taken in and samples serialized since the FIFO was last cleared. */
    ghost var accepted: seq<bv32>
    ghost var sent: seq<bv32>

    predicate Active()
      reads this
    {
      gateEnabled && moduleClockEnabled && clockEnabled && !resetAsserted
    }

    ghost predicate Shape()
      reads this, tx, rx
    {
      && tx.Valid() && rx.Valid() && tx.depth == rx.depth == FIFO_DEPTH
      && tx != rx && tx.slots != rx.slots
    }

    predicate LevelNow()
      requires tx.count <= FIFO_DEPTH
      reads this, tx, rx
    {
      Level(Active(), ints, fifo, thresholds, tx.count, rx.count)
    }

    /** The level in terms of the registers: clocked, and some interrupt due, enabled and not masked. */
    lemma LevelOfRegisters()
      requires tx.count <= FIFO_DEPTH
      ensures LevelNow() <==>
                && gateEnabled && moduleClockEnabled && clockEnabled && !resetAsserted
                && (|| (16 - tx.count > thresholds.tx && ints.txEn && !ints.txMask)
                    || (rx.count > thresholds.rx && ints.rxEn && !ints.rxMask)
                    || ((fifo.txOverflow || fifo.txUnderflow || fifo.rxOverflow || fifo.rxUnderflow)
                        && ints.errEn && !ints.errMask))
    {
    }

    /** Samples are neither lost nor invented. */
    ghost predicate Conserved()
      requires Shape()
      reads this, tx, rx, tx.slots
    {
      accepted == sent + tx.Contents()
    }

    /**
     The flag agrees with the main loop, and queued samples with the transmitter running have a wake-up on the way.
     */
    ghost predicate Awake()
      reads this, tx
    {
      bhPending == txScheduled && (tx.count != 0 && Active() && On(config, CFG_TX_EN) ==> bhPending)
    }

    ghost predicate Valid()
      reads this, tx, rx, tx.slots
    {
      Shape() && Conserved() && Awake() && irq == LevelNow()
    }

    /** Device creation followed by the machine's reset. */
    constructor ()
      ensures Valid() && rx.Contents() == [] && fresh(tx) && fresh(rx) && fresh(tx.slots) && fresh(rx.slots)
    {
      tx := new Fifo<bv32>(FIFO_DEPTH);
      rx := new Fifo<bv32>(FIFO_DEPTH);
      gateEnabled, moduleClockEnabled, clockEnabled, resetAsserted := true, true, true, false;
      config, bclkConfig, ioConfig := 0, 0x0001_0001, 0;
      ints, fifo, thresholds := INT_RESET, FIFO_RESET, Thresholds(0, 0);
      txScheduled, bhPending := false, false;
      accepted, sent := [], [];
      new;
      irq := LevelNow();
    }

    method UpdateIrq()
      requires Shape()
      modifies this`irq
      ensures irq == LevelNow()
    {
      irq := LevelNow();
    }

    method ScheduleTx()
      requires Shape() && bhPending == txScheduled
      modifies this`txScheduled, this`bhPending
      ensures Awake() && (old(bhPending) ==> bhPending)
      ensures bhPending ==> old(bhPending) || (tx.count != 0 && Active() && On(config, CFG_TX_EN))
    {
      if !txScheduled && tx.count != 0 && Active() && On(config, CFG_TX_EN) {
        txScheduled, bhPending := true, true;
      }
    }

    /** The bottom half: the serializer takes everything that is queued. */
    method TxBottomHalf()
      requires Valid() && bhPending
      modifies this, tx
      ensures Valid() && !bhPending && accepted == old(accepted)
      ensures Active() && On(config, CFG_TX_EN) ==> tx.Contents() == [] && sent == old(accepted)
      ensures !(Active() && On(config, CFG_TX_EN)) ==> tx.Contents() == old(tx.Contents()) && sent == old(sent)
      ensures config == old(config) && Active() == old(Active())
    {
      bhPending, txScheduled := false, false;
      if !Active() || !On(config, CFG_TX_EN) { return; }
      sent := sent + tx.Contents();
      tx.Clear();
      UpdateIrq();
    }

    method PushTx(value: bv32)
      requires Valid()
      modifies this`fifo, this`irq, this`txScheduled, this`bhPending, this`accepted, tx, tx.slots
      ensures Valid() && sent == old(sent)
      ensures old(tx.count) < FIFO_DEPTH ==>
                accepted == old(accepted) + [value] && fifo == old(fifo)
      ensures old(tx.count) == FIFO_DEPTH ==>
                accepted == old(accepted) && fifo == old(fifo).(txOverflow := true)
    {
      if tx.count >= FIFO_DEPTH {
        fifo := fifo.(txOverflow := true);
        UpdateIrq();
        return;
      }
      tx.Push(value);
      accepted := accepted + [value];
      ScheduleTx();
      UpdateIrq();
    }

    /** Reads take the oldest received sample; an empty FIFO answers 0 and records an underflow. */
    method PopRx() returns (value: bv32)
      requires Valid()
      modifies this`fifo, this`irq, rx
      ensures Valid()
      ensures old(rx.count) == 0 ==> value == 0 && fifo == old(fifo).(rxUnderflow := true) && rx.Contents() == []
      ensures old(rx.count) > 0 ==> old(rx.Contents()) == [value] + rx.Contents() && fifo == old(fifo)
    {
      if rx.count == 0 {
        fifo := fifo.(rxUnderflow := true);
        UpdateIrq();
        return 0;
      }
      value := rx.Pop();
      UpdateIrq();
    }

    method CancelBottomHalf()
      modifies this`txScheduled, this`bhPending
      ensures !txScheduled && !bhPending
    {
      bhPending, txScheduled := false, false;
    }

    method SetClockEnabled(enabled: bool)
      requires Valid()
      modifies this`clockEnabled, this`txScheduled, this`bhPending, this`irq
      ensures Valid() && clockEnabled == enabled
    {
      clockEnabled := enabled;
      if !enabled { CancelBottomHalf(); } else { ScheduleTx(); }
      UpdateIrq();
    }

    method SetModuleClockEnabled(enabled: bool)
      requires Valid()
      modifies this`moduleClockEnabled, this`txScheduled, this`bhPending, this`irq
      ensures Valid() && moduleClockEnabled == enabled
    {
      moduleClockEnabled := enabled;
      if !enabled { CancelBottomHalf(); } else { ScheduleTx(); }
      UpdateIrq();
    }

    method ClearFifos()
      requires Shape()
      modifies tx, rx
      ensures Shape() && tx.count == 0 && rx.count == 0 && tx.Contents() == []
    {
      tx.Clear();
      rx.Clear();
    }

    /** `bl808_i2s_reset` */
    method Reset()
      requires Shape()
      modifies this`config, this`bclkConfig, this`ioConfig, this`ints, this`fifo, this`thresholds
      modifies this`accepted, this`sent, this`txScheduled, this`bhPending, this`irq, tx, rx
      ensures Valid() && tx.count == 0 && rx.count == 0 && accepted == [] && !bhPending && AtReset()
    {
      ClearFifos();
      config, bclkConfig, ioConfig := 0, 0x0001_0001, 0;
      ints, fifo, thresholds := INT_RESET, FIFO_RESET, Thresholds(0, 0);
      accepted, sent := [], [];
      txScheduled, bhPending := false, false;
      irq := LevelNow();
    }

    /** Transmitter off, every interrupt enabled and masked, no error recorded. */
    predicate AtReset()
      reads this
    {
      && config == 0 && bclkConfig == 0x0001_0001 && ioConfig == 0 && thresholds.tx == 0 && thresholds.rx == 0
      && IntBits(ints, 0x700_0700) && !fifo.dmaTx && !fifo.dmaRx
      && !fifo.txOverflow && !fifo.txUnderflow && !fifo.rxOverflow && !fifo.rxUnderflow
    }

    method SetResetAsserted(asserted: bool)
      requires Valid()
      modifies this, tx, rx
      ensures Valid() && resetAsserted == asserted
      ensures asserted ==> tx.count == 0 && rx.count == 0 && accepted == [] && AtReset()
      ensures !asserted ==> accepted == old(accepted) && sent == old(sent)
    {
      resetAsserted := asserted;
      if asserted { Reset(); } else { ScheduleTx(); }
      UpdateIrq();
    }

    predicate DmaCanWrite(width: nat)
      requires tx.count <= FIFO_DEPTH
      reads this, tx
    {
      width <= 4 && Active() && On(config, CFG_TX_EN) && fifo.dmaTx && FIFO_DEPTH - tx.count > thresholds.tx
    }

    /** The request line in terms of the registers. */
    lemma RequestOfRegisters(width: nat)
      requires tx.count <= FIFO_DEPTH
      ensures DmaCanWrite(width) <==>
                && width <= 4 && gateEnabled && moduleClockEnabled && clockEnabled && !resetAsserted
                && config & 0x4 != 0 && fifo.dmaTx && 16 - tx.count > thresholds.tx
    {
    }

    /** A DMA transfer made when the request line is up always finds room, and wakes the serializer. */
    method DmaWrite(value: bv32, width: nat)
      requires Valid()
      modifies this`fifo, this`irq, this`txScheduled, this`bhPending, this`accepted, tx, tx.slots
      ensures Valid() && sent == old(sent)
      ensures old(DmaCanWrite(width)) ==> accepted == old(accepted) + [value] && bhPending
    {
      PushTx(value);
    }

    method DmaRead(width: nat) returns (value: bv32)
      requires Valid()
      modifies this`fifo, this`irq, rx
      ensures Valid() && (old(rx.count) == 0 ==> value == 0)
      ensures old(rx.count) > 0 ==> old(rx.Contents()) == [value] + rx.Contents()
    {
      value := PopRx();
    }

    /** A store to FIFO_CONFIG0: clear bits act at once, error flags survive, DMA enables are taken over. */
    method WriteFifoConfig(next: bv32)
      requires Valid()
      modifies this`fifo, this`accepted, this`sent, this`irq, tx, rx
      ensures Valid()
      ensures On(next, 0x4) ==> tx.Contents() == [] && accepted == []
      ensures !On(next, 0x4) ==> accepted == old(accepted) && sent == old(sent)
      ensures rx.Contents() == if On(next, 0x8) then [] else old(rx.Contents())
      ensures fifo == FifoControl(On(next, 0x1), On(next, 0x2),
                                  old(fifo).txOverflow && !On(next, 0x4), old(fifo).txUnderflow && !On(next, 0x4),
                                  old(fifo).rxOverflow && !On(next, 0x8), old(fifo).rxUnderflow && !On(next, 0x8))
    {
      if On(next, 0x4) {
        tx.Clear();
        accepted, sent := [], [];
        fifo := fifo.(txOverflow := false, txUnderflow := false);
      }
      if On(next, 0x8) {
        rx.Clear();
        fifo := fifo.(rxOverflow := false, rxUnderflow := false);
      }
      fifo := fifo.(dmaTx := On(next, 0x1), dmaRx := On(next, 0x2));
      UpdateIrq();
    }

    /** A store to FIFO_CONFIG0 by its bits: DMA enables, then clears of the two FIFOs and their error flags. */
    ghost predicate FifoWord(value: bv32, was: FifoControl, accepted: seq<bv32>, received: seq<bv32>)
      requires Shape()
      reads this, tx, tx.slots, rx, rx.slots
    {
      && fifo == FifoControl(value & 0x1 != 0, value & 0x2 != 0,
                             was.txOverflow && value & 0x4 == 0, was.txUnderflow && value & 0x4 == 0,
                             was.rxOverflow && value & 0x8 == 0, was.rxUnderflow && value & 0x8 == 0)
      && (if value & 0x4 != 0 then tx.Contents() == [] && this.accepted == [] else this.accepted == accepted)
      && rx.Contents() == if value & 0x8 != 0 then [] else received
    }

    method WriteFifoWord(next: bv32)
      requires Valid()
      modifies this`fifo, this`accepted, this`sent, this`irq, tx, rx
      ensures Valid() && (next & 0x4 == 0 ==> sent == old(sent))
      ensures FifoWord(next, old(fifo), old(accepted), old(rx.Contents()))
    {
      WriteFifoConfig(next);
    }

    /** Stores to the configuration, interrupt, clock, threshold and pin registers. */
    method WriteRegister(offset: nat, next: bv32)
      requires Valid()
      modifies this`config, this`ints, this`bclkConfig, this`thresholds, this`ioConfig, this`irq
      modifies this`txScheduled, this`bhPending
      ensures Valid()
      ensures config == if offset == 0x00 then next & 0x001F_FFFF else old(config)
      ensures if offset == 0x04 then IntBits(ints, next) else ints == old(ints)
      ensures bclkConfig == if offset == 0x10 then next & 0x0FFF_0FFF else old(bclkConfig)
      ensures offset == 0x84 ==> thresholds.tx == TxThreshold(next) && thresholds.rx == RxThreshold(next)
      ensures offset != 0x84 ==> thresholds == old(thresholds)
      ensures ioConfig == if offset == 0xFC then next & 0xFF else old(ioConfig)
    {
      if offset == 0x00 {
        config := next & 0x001F_FFFF;
        ScheduleTx();
        UpdateIrq();
      } else if offset == 0x04 {
        DecodeIntBits(next);
        ints := DecodeInt(next);
        UpdateIrq();
      } else if offset == 0x10 {
        bclkConfig := next & 0x0FFF_0FFF;
        UpdateIrq();
      } else if offset == 0x84 {
        thresholds := DecodeThresholds(next);
        UpdateIrq();
      } else if offset == 0xFC {
        ioConfig := next & 0xFF;
        UpdateIrq();
      }
    }

    /** `bl808_i2s_write`: each register takes its word, and no other store touches it. */
    method Write(offset: nat, next: bv32)
      requires Valid()
      modifies this, tx, rx, tx.slots
      ensures Valid()
      ensures old(resetAsserted) ==> unchanged(this) && unchanged(tx) && unchanged(rx)
      ensures old(resetAsserted) || (offset != 0x80 && offset != 0x88) ==>
                accepted == old(accepted) && sent == old(sent)
      ensures config == if old(!resetAsserted) && offset == 0x00 then next & 0x001F_FFFF else old(config)
      ensures if old(!resetAsserted) && offset == 0x04 then IntBits(ints, next) else ints == old(ints)
      ensures bclkConfig == if old(!resetAsserted) && offset == 0x10 then next & 0x0FFF_0FFF else old(bclkConfig)
      ensures old(!resetAsserted) && offset == 0x84 ==>
                thresholds.tx == TxThreshold(next) && thresholds.rx == RxThreshold(next)
      ensures offset != 0x84 ==> thresholds == old(thresholds)
      ensures ioConfig == if old(!resetAsserted) && offset == 0xFC then next & 0xFF else old(ioConfig)
      ensures old(!resetAsserted) && offset == 0x80 ==> FifoWord(next, old(fifo), old(accepted), old(rx.Contents()))
      ensures old(!resetAsserted && offset == 0x88 && tx.count < FIFO_DEPTH) ==>
                accepted == old(accepted) + [next] && sent == old(sent) && fifo == old(fifo)
      ensures old(!resetAsserted && offset == 0x88 && tx.count == FIFO_DEPTH) ==>
                accepted == old(accepted) && sent == old(sent) && fifo == old(fifo).(txOverflow := true)
      ensures offset != 0x80 ==> rx.Contents() == old(rx.Contents())
      ensures offset != 0x80 && offset != 0x88 ==> fifo == old(fifo)
      ensures Active() == old(Active())
    {
      if resetAsserted { return; }
      if offset == 0x80 {
        WriteFifoWord(next);
      } else if offset == 0x88 {
        PushTx(next);
      } else {
        WriteRegister(offset, next);
      }
    }

    method Handle(e: Event)
      requires Valid()
      modifies this, tx, rx, tx.slots
      ensures Valid()
    {
      match e
      case Store(offset, value) => Write(offset, value);
      case LoadData => var _ := PopRx();
      case Dma(value, width) => DmaWrite(value, width);
      case DmaFetch(width) => var _ := DmaRead(width);
      case Clock(enabled) => SetClockEnabled(enabled);
      case ModuleClock(enabled) => SetModuleClockEnabled(enabled);
      case ResetLine(asserted) => SetResetAsserted(asserted);
      case MainLoop => if bhPending { TxBottomHalf(); }
    }
  }

  /** Whatever happens to the device. */
  datatype Event =
    | Store(offset: nat, value: bv32)
    | LoadData
    | Dma(value: bv32, width: nat)
    | DmaFetch(width: nat)
    | Clock(enabled: bool)
    | ModuleClock(enabled: bool)
    | ResetLine(asserted: bool)
    | MainLoop

  /** After any history: no lost wake-up, no stale interrupt, no lost sample. */
  method AnyHistory(events: seq<Event>) returns (c: Controller)
    ensures c.Valid()
    ensures c.tx.count != 0 && c.Active() && On(c.config, CFG_TX_EN) ==> c.bhPending
    ensures c.irq == c.LevelNow()
  {
    c := new Controller();
    for n := 0 to |events|
      invariant c.Valid() && fresh(c) && fresh(c.tx) && fresh(c.rx) && fresh(c.tx.slots)
    {
      c.Handle(events[n]);
    }
  }
}
