/**
 The emulated audio controller: as the I2S controller, with a transmitter that needs four
 enables at once and status words recomputed at every interrupt update.
 */
module Audio {
  import opened DeviceFifo

  const FIFO_DEPTH: nat := 32

  /** AUDAC_CTRL0: the three enables the transmitter looks at. */
  datatype DacControl = DacControl(dac: bool, itf: bool, clk: bool)

  function DecodeDac(v: bv32): DacControl {
    DacControl(On(v, 0x1), On(v, 0x2), On(v, 0x800_0000))
  }

  /** A FIFO control word: interrupt enables, DMA request enable, channel enables, trigger threshold. */
  datatype FifoControl = FifoControl(ovrInt: bool, udrInt: bool, availInt: bool, drq: bool, channels: bool,
                                     threshold: nat)

  function Threshold(v: bv32): nat {
    ((v >> 16) & 0x3F) as nat
  }

  /** The 6-bit field, whatever the rest of the word holds. */
  lemma ThresholdOf(n: bv32, rest: bv32)
    requires n < 64 && rest & 0x3F_0000 == 0
    ensures Threshold((n << 16) | rest) == n as nat
  {
  }

  function DecodeFifo(v: bv32, channelMask: bv32): FifoControl {
    FifoControl(On(v, 0x2), On(v, 0x4), On(v, 0x8), On(v, 0x10), On(v, channelMask), Threshold(v))
  }

  /** A control word by its bits; `channels` are the channel enables, any of which will do. */
  predicate FifoBits(c: FifoControl, v: bv32, channels: bv32) {
    && (c.ovrInt <==> v & 0x2 != 0) && (c.udrInt <==> v & 0x4 != 0) && (c.availInt <==> v & 0x8 != 0)
    && (c.drq <==> v & 0x10 != 0) && (c.channels <==> v & channels != 0) && c.threshold == Threshold(v)
  }

  lemma DecodeFifoBits(v: bv32, channels: bv32)
    ensures FifoBits(DecodeFifo(v, channels), v, channels)
  {
  }

  /** The three enables of AUDAC_CTRL0 by their bits. */
  predicate DacBits(d: DacControl, v: bv32) {
    (d.dac <==> v & 0x1 != 0) && (d.itf <==> v & 0x2 != 0) && (d.clk <==> v & 0x800_0000 != 0)
  }

  lemma DecodeDacBits(v: bv32)
    ensures DacBits(DecodeDac(v), v)
  {
  }

  const TX_CHANNELS: bv32 := 0x300
  const RX_CHANNELS: bv32 := 0x700
  const OFF: FifoControl := FifoControl(false, false, false, false, false, 0)

  /** A FIFO status word: sticky overrun and underrun, and the recomputed count and availability. */
  datatype FifoStatus = FifoStatus(ovr: bool, udr: bool, avail: bool, count: nat)

  const CLEAN: FifoStatus := FifoStatus(false, false, false, 0)

  /**
   `bl808_audio_update_tx_sts` and `bl808_audio_update_rx_sts`: n is free space or fill, at most 32,
   so that the 6-bit count field always holds it.
   */
  function Updated(sts: FifoStatus, ctrl: FifoControl, n: nat): FifoStatus {
    FifoStatus(sts.ovr, sts.udr, n > ctrl.threshold, n)
  }

  /** Registers that only hold a value. */
  predicate Plain(offset: nat) {
    || offset == 0x08 || offset == 0x0C || offset == 0x10 || offset == 0x14 || offset == 0x60 || offset == 0x64
    || offset == 0x800 || offset == 0x808 || offset == 0x80C || offset == 0x810 || offset == 0x81C || offset == 0x838
  }

  const UNKNOWN: nat := 0xFFF

  /** The main-window register behind an offset of the second, ADC-only window. */
  function AuadcAlias(offset: nat): nat {
    if offset == 0x00 || offset == 0x04 || offset == 0x08 || offset == 0x0C || offset == 0x10 || offset == 0x1C
      || offset == 0x38
    then 0x800 + offset
    else if offset == 0x60 || offset == 0x64 || offset == 0x68 || offset == 0x80 then offset
    else UNKNOWN
  }

  /** One FIFO asks for an interrupt, from its control word, sticky flags and fill alone. */
  predicate Wants(ctrl: FifoControl, sts: FifoStatus, n: nat) {
    (ctrl.availInt && n > ctrl.threshold) || (ctrl.udrInt && sts.udr) || (ctrl.ovrInt && sts.ovr)
  }

  /** The same question asked of a status word. */
  predicate Asks(ctrl: FifoControl, sts: FifoStatus) {
    (ctrl.availInt && sts.avail) || (ctrl.udrInt && sts.udr) || (ctrl.ovrInt && sts.ovr)
  }

  /** Once recomputed, the status word gives the answer of the fill itself. */
  lemma AsksIsWants(ctrl: FifoControl, sts: FifoStatus, n: nat)
    ensures Asks(ctrl, Updated(sts, ctrl, n)) == Wants(ctrl, sts, n) == Wants(ctrl, Updated(sts, ctrl, n), n)
  {
  }

  /** Stores that flush the receive FIFO: a flush bit in its control word, or a soft reset of the ADC. */
  predicate ClearsRx(offset: nat, v: bv32) {
    ((offset == 0x80 || offset == 0x880) && v & 0x1 != 0) || (offset == 0x68 && v & 0x2000_0000 != 0)
  }

  /** What is left of a queue, cleared or not. */
  function Kept(cleared: bool, queue: seq<bv32>): seq<bv32> {
    if cleared then [] else queue
  }

  class Controller {
    const tx: Fifo<bv32>
    const rx: Fifo<bv32>
    var dac: DacControl
    var status: nat
    var txCtrl: FifoControl
    var rxCtrl: FifoControl
    var txSts: FifoStatus
    var rxSts: FifoStatus
    var pdmEnabled: bool
    var auadcReady: bool
    var clockEnabled: bool
    var resetAsserted: bool
    var txScheduled: bool
    var bhPending: bool
    var irq: bool
    ghost var accepted: seq<bv32>
    ghost var sent: seq<bv32>

    predicate Active()
      reads this
    {
      clockEnabled && !resetAsserted
    }

    predicate TxEnabled()
      reads this
    {
      Active() && dac.dac && dac.itf && dac.clk && txCtrl.channels
    }

    ghost predicate Shape()
      reads this, tx, rx
    {
      && tx.Valid() && rx.Valid() && tx.depth == rx.depth == FIFO_DEPTH
      && tx != rx && tx.slots != rx.slots
    }

    /** The level function of the current registers, sticky flags and FIFO counts. */
    predicate LevelNow()
      requires tx.count <= FIFO_DEPTH
      reads this, tx, rx
    {
      Active() && (Wants(txCtrl, txSts, FIFO_DEPTH - tx.count) || Wants(rxCtrl, rxSts, rx.count))
    }

    /** The level in terms of the registers, sticky flags and FIFO counts. */
    lemma LevelOfRegisters()
      requires tx.count <= FIFO_DEPTH
      ensures LevelNow() <==>
                && clockEnabled && !resetAsserted
                && (|| (txCtrl.availInt && 32 - tx.count > txCtrl.threshold)
                    || (txCtrl.udrInt && txSts.udr) || (txCtrl.ovrInt && txSts.ovr)
                    || (rxCtrl.availInt && rx.count > rxCtrl.threshold)
                    || (rxCtrl.udrInt && rxSts.udr) || (rxCtrl.ovrInt && rxSts.ovr))
    {
    }

    /** The transmitter runs with all four enables, clocked and out of reset. */
    lemma TxOfRegisters()
      ensures TxEnabled() <==> clockEnabled && !resetAsserted && dac.dac && dac.itf && dac.clk && txCtrl.channels
    {
    }

    ghost predicate Awake()
      reads this, tx
    {
      bhPending == txScheduled && (tx.count != 0 && TxEnabled() ==> bhPending)
    }

    ghost predicate Valid()
      reads this, tx, rx, tx.slots
    {
      Shape() && accepted == sent + tx.Contents() && Awake() && irq == LevelNow()
    }

    constructor ()
      ensures Valid() && rx.Contents() == [] && fresh(tx) && fresh(rx) && fresh(tx.slots) && fresh(rx.slots)
    {
      tx := new Fifo<bv32>(FIFO_DEPTH);
      rx := new Fifo<bv32>(FIFO_DEPTH);
      dac := DacControl(false, false, false);
      txCtrl, rxCtrl, txSts, rxSts := OFF, OFF, CLEAN, CLEAN;
      status, pdmEnabled, auadcReady := 0, false, false;
      clockEnabled, resetAsserted, txScheduled, bhPending, irq := true, false, false, false, false;
      accepted, sent := [], [];
    }

    /** `bl808_audio_update_irq` */
    method UpdateIrq()
      requires Shape()
      modifies this`irq, this`status, this`txSts, this`rxSts
      ensures irq == LevelNow()
      ensures txSts.ovr == old(txSts).ovr && txSts.udr == old(txSts).udr
      ensures txSts.count == 32 - tx.count && (txSts.avail <==> 32 - tx.count > txCtrl.threshold)
      ensures rxSts.ovr == old(rxSts).ovr && rxSts.udr == old(rxSts).udr
      ensures rxSts.count == rx.count && (rxSts.avail <==> rx.count > rxCtrl.threshold)
      ensures status == if Wants(txCtrl, txSts, FIFO_DEPTH - tx.count) || Wants(rxCtrl, rxSts, rx.count) then 1 else 0
    {
      AsksIsWants(txCtrl, txSts, FIFO_DEPTH - tx.count);
      AsksIsWants(rxCtrl, rxSts, rx.count);
      txSts := Updated(txSts, txCtrl, FIFO_DEPTH - tx.count);
      rxSts := Updated(rxSts, rxCtrl, rx.count);
      var txIrq, rxIrq := Asks(txCtrl, txSts), Asks(rxCtrl, rxSts);
      status := if txIrq || rxIrq then 1 else 0;
      irq := Active() && (txIrq || rxIrq);
    }

    method ScheduleTx()
      requires Shape() && bhPending == txScheduled
      modifies this`txScheduled, this`bhPending
      ensures Awake() && (old(bhPending) ==> bhPending)
      ensures bhPending ==> old(bhPending) || (tx.count != 0 && TxEnabled())
    {
      if !txScheduled && tx.count != 0 && TxEnabled() {
        txScheduled, bhPending := true, true;
      }
    }

    method TxBottomHalf()
      requires Valid() && bhPending
      modifies this, tx
      ensures Valid() && !bhPending && accepted == old(accepted) && TxEnabled() == old(TxEnabled())
      ensures TxEnabled() ==> tx.Contents() == [] && sent == old(accepted)
      ensures !TxEnabled() ==> tx.Contents() == old(tx.Contents()) && sent == old(sent)
    {
      bhPending, txScheduled := false, false;
      if !TxEnabled() { return; }
      sent := sent + tx.Contents();
      tx.Clear();
      UpdateIrq();
    }

    method PushTx(value: bv32)
      requires Valid()
      modifies this`irq, this`status, this`txSts, this`rxSts, this`txScheduled, this`bhPending, this`accepted, tx,
               tx.slots
      ensures Valid() && sent == old(sent)
      ensures old(tx.count) < FIFO_DEPTH ==> accepted == old(accepted) + [value] && txSts.ovr == old(txSts).ovr
      ensures old(tx.count) == FIFO_DEPTH ==> accepted == old(accepted) && txSts.ovr
    {
      if tx.count >= FIFO_DEPTH {
        txSts := txSts.(ovr := true);
        UpdateIrq();
        return;
      }
      tx.Push(value);
      accepted := accepted + [value];
      ScheduleTx();
      UpdateIrq();
    }

    method PopRx() returns (value: bv32)
      requires Valid()
      modifies this`irq, this`status, this`txSts, this`rxSts, rx
      ensures Valid()
      ensures old(rx.count) == 0 ==> value == 0 && rxSts.udr && rx.Contents() == []
      ensures old(rx.count) > 0 ==> old(rx.Contents()) == [value] + rx.Contents() && rxSts.udr == old(rxSts).udr
    {
      if rx.count == 0 {
        rxSts := rxSts.(udr := true);
        UpdateIrq();
        return 0;
      }
      value := rx.Pop();
      UpdateIrq();
    }

    method SetClockEnabled(enabled: bool)
      requires Valid()
      modifies this`clockEnabled, this`txScheduled, this`bhPending, this`irq, this`status, this`txSts, this`rxSts
      ensures Valid() && clockEnabled == enabled
    {
      clockEnabled := enabled;
      if !enabled {
        bhPending, txScheduled := false, false;
      } else {
        ScheduleTx();
      }
      UpdateIrq();
    }

    method ClearFifos()
      requires Shape()
      modifies tx, rx
      ensures Shape() && tx.count == 0 && rx.count == 0 && tx.Contents() == []
    {
      tx.Clear();
      rx.Clear();
    }

    /** `bl808_audio_reset` */
    method Reset()
      requires Shape()
      modifies this`dac, this`txCtrl, this`rxCtrl, this`txSts, this`rxSts, this`status, this`pdmEnabled, this`auadcReady
      modifies this`accepted, this`sent, this`txScheduled, this`bhPending, this`irq, tx, rx
      ensures Valid() && tx.count == 0 && rx.count == 0 && accepted == [] && !bhPending && status == 0 && AtReset()
    {
      ClearFifos();
      dac := DacControl(false, false, false);
      txCtrl, rxCtrl, txSts, rxSts := OFF, OFF, CLEAN, CLEAN;
      pdmEnabled, auadcReady := false, false;
      accepted, sent := [], [];
      txScheduled, bhPending := false, false;
      UpdateIrq();
    }

    /** Transmitter off, no interrupt or request enabled, no sticky flag set. */
    predicate AtReset()
      reads this
    {
      && DacBits(dac, 0) && !txCtrl.channels && !rxCtrl.channels && !txCtrl.drq && !rxCtrl.drq
      && !txCtrl.availInt && !txCtrl.udrInt && !txCtrl.ovrInt && !rxCtrl.availInt && !rxCtrl.udrInt && !rxCtrl.ovrInt
      && txCtrl.threshold == 0 && rxCtrl.threshold == 0
      && !txSts.ovr && !txSts.udr && !rxSts.ovr && !rxSts.udr && !pdmEnabled && !auadcReady
    }

    method SetResetAsserted(asserted: bool)
      requires Valid()
      modifies this, tx, rx
      ensures Valid() && resetAsserted == asserted
      ensures asserted ==> tx.count == 0 && rx.count == 0 && accepted == [] && AtReset()
      ensures !asserted ==> accepted == old(accepted) && sent == old(sent)
    {
      resetAsserted := asserted;
      if asserted { Reset(); } else { ScheduleTx(); }
      UpdateIrq();
    }

    method FlushRx()
      requires Shape()
      modifies this`rxSts, rx
      ensures Shape() && rx.Contents() == [] && rxSts == old(rxSts).(udr := false, ovr := false)
    {
      rx.Clear();
      rxSts := rxSts.(udr := false, ovr := false);
    }

    /**
     A store to AUDAC_TX_FIFO_CTRL: an optional flush, then the new enables, then a wake-up if they start the
     transmitter.
     */
    method WriteTxControl(next: bv32)
      requires Valid()
      modifies this`txCtrl, this`irq, this`status, this`txSts, this`rxSts, this`txScheduled, this`bhPending,
               this`accepted, this`sent, tx
      ensures Valid() && FifoBits(txCtrl, next, 0x300)
      ensures next & 0x1 != 0 ==> tx.Contents() == [] && accepted == [] && !txSts.ovr && !txSts.udr
      ensures next & 0x1 == 0 ==>
                accepted == old(accepted) && sent == old(sent) && txSts.ovr == old(txSts).ovr
                  && txSts.udr == old(txSts).udr
      ensures rxSts.ovr == old(rxSts).ovr && rxSts.udr == old(rxSts).udr
    {
      DecodeFifoBits(next, TX_CHANNELS);
      if On(next, 0x1) {
        tx.Clear();
        accepted, sent := [], [];
        txSts := txSts.(udr := false, ovr := false);
      }
      txCtrl := DecodeFifo(next, TX_CHANNELS);
      ScheduleTx();
      UpdateIrq();
    }

    method WriteRxControl(next: bv32)
      requires Valid()
      modifies this`rxCtrl, this`irq, this`status, this`txSts, this`rxSts, rx
      ensures Valid() && FifoBits(rxCtrl, next, 0x700) && rx.Contents() == Kept(next & 0x1 != 0, old(rx.Contents()))
      ensures next & 0x1 != 0 ==> !rxSts.ovr && !rxSts.udr
      ensures next & 0x1 == 0 ==> rxSts.ovr == old(rxSts).ovr && rxSts.udr == old(rxSts).udr
      ensures txSts.ovr == old(txSts).ovr && txSts.udr == old(txSts).udr
    {
      DecodeFifoBits(next, RX_CHANNELS);
      if On(next, 0x1) { FlushRx(); }
      rxCtrl := DecodeFifo(next, RX_CHANNELS);
      UpdateIrq();
    }

    /** `bl808_audio_write`; stores to plain configuration words only recompute the interrupt. */
    method Write(offset: nat, next: bv32)
      requires Valid()
      modifies this, tx, rx, tx.slots
      ensures Valid()
      ensures old(resetAsserted) ==> unchanged(this) && unchanged(tx) && unchanged(rx)
      ensures old(resetAsserted) || (offset != 0x8C && offset != 0x94) ==>
                accepted == old(accepted) && sent == old(sent)
      ensures if old(!resetAsserted) && offset == 0x00 then DacBits(dac, next) else dac == old(dac)
      ensures pdmEnabled ==
                if old(!resetAsserted) && offset == 0x804 then next & 0x4000_0000 != 0 else old(pdmEnabled)
      ensures if old(!resetAsserted) && offset == 0x8C then FifoBits(txCtrl, next, 0x300) else txCtrl == old(txCtrl)
      ensures if old(!resetAsserted) && (offset == 0x80 || offset == 0x880) then FifoBits(rxCtrl, next, 0x700)
              else rxCtrl == old(rxCtrl)
      ensures old(!resetAsserted) && offset == 0x8C && next & 0x1 != 0 ==>
                tx.Contents() == [] && accepted == [] && !txSts.ovr && !txSts.udr
      ensures offset == 0x8C && next & 0x1 == 0 ==> accepted == old(accepted) && sent == old(sent)
      ensures old(!resetAsserted && offset == 0x94 && tx.count < FIFO_DEPTH) ==>
                accepted == old(accepted) + [next] && sent == old(sent)
      ensures old(!resetAsserted && offset == 0x94 && tx.count == FIFO_DEPTH) ==>
                accepted == old(accepted) && sent == old(sent) && txSts.ovr
      ensures rx.Contents() == Kept(old(!resetAsserted) && ClearsRx(offset, next), old(rx.Contents()))
      ensures Active() == old(Active())
    {
      if resetAsserted { return; }
      if offset == 0x80 || offset == 0x880 {
        WriteRxControl(next);
      } else if offset == 0x8C {
        WriteTxControl(next);
      } else if offset == 0x94 {
        PushTx(next);
      } else {
        WriteRegister(offset, next);
      }
    }

    /** A store to the ADC command register, which can flush the receive FIFO. */
    method WriteAdcControl(next: bv32)
      requires Valid()
      modifies this`auadcReady, this`irq, this`status, this`txSts, this`rxSts, rx
      ensures Valid() && rx.Contents() == Kept(next & 0x2000_0000 != 0, old(rx.Contents()))
      ensures auadcReady == (old(auadcReady) && next & 0x2000_0000 == 0)
      ensures next & 0x2000_0000 != 0 ==> !rxSts.ovr && !rxSts.udr
      ensures next & 0x2000_0000 == 0 ==> rxSts.ovr == old(rxSts).ovr && rxSts.udr == old(rxSts).udr
      ensures txSts.ovr == old(txSts).ovr && txSts.udr == old(txSts).udr
    {
      if On(next, 0x2000_0000) {
        FlushRx();
        auadcReady := false;
      }
      UpdateIrq();
    }

    /** The registers outside the two FIFOs' control and data. */
    method WriteRegister(offset: nat, next: bv32)
      requires Valid()
      modifies this`dac, this`pdmEnabled, this`auadcReady, this`irq, this`status, this`txSts, this`rxSts,
               this`txScheduled, this`bhPending, rx
      ensures Valid() && if offset == 0x00 then DacBits(dac, next) else dac == old(dac)
      ensures pdmEnabled == if offset == 0x804 then next & 0x4000_0000 != 0 else old(pdmEnabled)
      ensures auadcReady == (old(auadcReady) && !(offset == 0x68 && next & 0x2000_0000 != 0))
      ensures rx.Contents() == Kept(offset == 0x68 && next & 0x2000_0000 != 0, old(rx.Contents()))
      ensures offset != 0x68 || next & 0x2000_0000 == 0 ==> rxSts.ovr == old(rxSts).ovr && rxSts.udr == old(rxSts).udr
      ensures txSts.ovr == old(txSts).ovr && txSts.udr == old(txSts).udr
    {
      if offset == 0x00 {
        DecodeDacBits(next);
        dac := DecodeDac(next);
        ScheduleTx();
        UpdateIrq();
      } else if offset == 0x68 {
        WriteAdcControl(next);
      } else if offset == 0x804 {
        pdmEnabled := On(next, 0x4000_0000);
        UpdateIrq();
      } else if Plain(offset) {
        UpdateIrq();
      }
    }

    /** `bl808_audio_auadc_write`: nothing in this window reaches the transmit path. */
    method WriteAuadc(offset: nat, next: bv32)
      requires Valid()
      modifies this, tx, rx, tx.slots
      ensures Valid() && accepted == old(accepted) && sent == old(sent) && dac == old(dac) && txCtrl == old(txCtrl)
      ensures old(!resetAsserted) && offset == 0x80 ==> FifoBits(rxCtrl, next, 0x700)
      ensures pdmEnabled == if old(!resetAsserted) && offset == 0x04 then next & 0x4000_0000 != 0 else old(pdmEnabled)
      ensures rx.Contents()
           == Kept(old(!resetAsserted) && (offset == 0x68 || offset == 0x80) && ClearsRx(offset, next),
                   old(rx.Contents()))
    {
      Write(AuadcAlias(offset), next);
    }

    predicate DmaCanWrite(width: nat)
      requires tx.count <= FIFO_DEPTH
      reads this, tx
    {
      width <= 4 && TxEnabled() && txCtrl.drq && FIFO_DEPTH - tx.count > txCtrl.threshold
    }

    /** The request line in terms of the registers. */
    lemma RequestOfRegisters(width: nat)
      requires tx.count <= FIFO_DEPTH
      ensures DmaCanWrite(width) <==>
                && width <= 4 && clockEnabled && !resetAsserted && dac.dac && dac.itf && dac.clk && txCtrl.channels
                && txCtrl.drq && 32 - tx.count > txCtrl.threshold
    {
    }

    method DmaWrite(value: bv32, width: nat)
      requires Valid()
      modifies this`irq, this`status, this`txSts, this`rxSts, this`txScheduled, this`bhPending, this`accepted, tx,
               tx.slots
      ensures Valid() && sent == old(sent)
      ensures old(DmaCanWrite(width)) ==> accepted == old(accepted) + [value] && bhPending
    {
      PushTx(value);
    }

    method Handle(e: Event)
      requires Valid()
      modifies this, tx, rx, tx.slots
      ensures Valid()
    {
      match e
      case Store(offset, value) => Write(offset, value);
      case AuadcStore(offset, value) => WriteAuadc(offset, value);
      case LoadData => var _ := PopRx();
      case Dma(value, width) => DmaWrite(value, width);
      case Clock(enabled) => SetClockEnabled(enabled);
      case ResetLine(asserted) => SetResetAsserted(asserted);
      case MainLoop => if bhPending { TxBottomHalf(); }
    }
  }

  /** Whatever happens to the device. */
  datatype Event =
    | Store(offset: nat, value: bv32)
    | AuadcStore(offset: nat, value: bv32)
    | LoadData
    | Dma(value: bv32, width: nat)
    | Clock(enabled: bool)
    | ResetLine(asserted: bool)
    | MainLoop

  /** After any history: no lost wake-up, no stale interrupt, no lost sample. */
  method AnyHistory(events: seq<Event>) returns (c: Controller)
    ensures c.Valid()
    ensures c.tx.count != 0 && c.TxEnabled() ==> c.bhPending
    ensures c.irq == c.LevelNow()
  {
    c := new Controller();
    for n := 0 to |events|
      invariant c.Valid() && fresh(c) && fresh(c.tx) && fresh(c.rx) && fresh(c.tx.slots)
    {
      c.Handle(events[n]);
    }
  }
}
