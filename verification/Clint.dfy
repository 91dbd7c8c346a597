/**
 The T-Head core-local interruptor: a 64-bit `mtime` derived from the nanosecond clock,
 one comparator, timer and interrupt line per hart. Every entry point keeps the same
 invariant, so it holds in every interleaving of guest writes, timer callbacks and the
 passing of time.
 */
module Clint {
  const NANOS: nat := 1_000_000_000
  const HALF: nat := 0x1_0000_0000
  const FULL: nat := 0x1_0000_0000_0000_0000
  const NEVER: nat := 0xFFFF_FFFF_FFFF_FFFF

  /** `muldiv64`: 128-bit product, truncating division, low 64 bits. */
  function MulDiv(a: nat, b: nat, c: nat): (r: nat)
    requires c > 0
    ensures r < FULL
  {
    a * b / c % FULL
  }

  /** `thead_clint_read_rtc_raw` at time `now`. */
  function Raw(now: nat, freq: nat): (r: nat)
    ensures r < FULL
  {
    MulDiv(now, freq, NANOS)
  }

  /** `mtime` at time `now`. */
  function Mtime(now: nat, freq: nat, delta: nat): (r: nat)
    ensures r < FULL
  {
    (Raw(now, freq) + delta) % FULL
  }

  /** `timer_mod` takes a signed 64-bit time; a negative one counts as 0. */
  function Expiry(ns: nat): (t: nat) {
    var wrapped := ns % FULL;
    if wrapped < FULL / 2 then wrapped else 0
  }

  /** The time programmed for a comparator `diff` ticks ahead of `mtime`. */
  function Deadline(now: nat, diff: nat, freq: nat): (t: nat)
    requires freq > 0
  {
    Expiry(now + MulDiv(diff, NANOS, freq))
  }

  /** The deadline fits the signed 64-bit clock. */
  predicate NoOverflow(now: nat, diff: nat, freq: nat)
    requires freq > 0
  {
    now + diff * NANOS / freq < FULL / 2
  }

  // ---- the conversion ----

  lemma DivIs(x: int, k: int, m: int)
    requires x == k * NANOS + m && 0 <= m < NANOS
    ensures x / NANOS == k && x % NANOS == m
  {
  }

  /** Ticks elapsed when the programmed deadline arrives: all of them, or one short. */
  lemma TicksAtDeadline(now: nat, diff: nat, freq: nat)
    requires 0 < freq <= NANOS && diff > 0
    ensures var wait := diff * NANOS / freq;
            var late := now * freq % NANOS >= diff * NANOS % freq;
            (now + wait) * freq / NANOS == now * freq / NANOS + diff - (if late then 0 else 1)
  {
    var wait, e1 := diff * NANOS / freq, diff * NANOS % freq;
    var r, e0 := now * freq / NANOS, now * freq % NANOS;
    assert wait * freq + e1 == diff * NANOS;
    Distribute(now, wait, freq);
    if e0 >= e1 {
      DivIs((now + wait) * freq, r + diff, e0 - e1);
    } else {
      DivIs((now + wait) * freq, r + diff - 1, e0 - e1 + NANOS);
    }
  }

  lemma Distribute(a: nat, b: nat, c: nat)
    ensures (a + b) * c == a * c + b * c
  {
  }

  /** When the timebase divides a second, waiting loses nothing. */
  lemma ExactWait(diff: nat, freq: nat)
    requires 0 < freq && NANOS % freq == 0
    ensures diff * NANOS % freq == 0
  {
    var k := NANOS / freq;
    assert NANOS == k * freq;
    assert diff * NANOS == (diff * k) * freq by { Reassociate(diff, k, freq); }
    MultipleMod(diff * k, freq);
  }

  lemma Reassociate(a: nat, b: nat, c: nat)
    ensures a * (b * c) == (a * b) * c
  {
  }

  lemma MultipleMod(a: nat, b: nat)
    requires b > 0
    ensures a * b % b == 0
  {
    var q, r := a * b / b, a * b % b;
    assert a * b == q * b + r;
    assert (a - q) * b == r;
    SmallProduct(a - q, b);
  }

  lemma SmallProduct(d: int, b: nat)
    requires 0 <= d * b < b
    ensures d * b == 0
  {
    if d >= 1 {
      assert d * b == b + (d - 1) * b;
    } else if d < 0 {
      assert d * b <= 0;
    }
  }

  lemma SumMod(raw: nat, more: int, delta: nat)
    requires (raw % FULL + delta) % FULL + more < FULL && (raw % FULL + delta) % FULL + more >= 0 && raw + more >= 0
    ensures ((raw + more) % FULL + delta) % FULL == (raw % FULL + delta) % FULL + more
  {
    var a, b := raw / FULL, (raw + more) / FULL;
    var s := raw % FULL + delta;
    var q := s / FULL;
    assert (raw + more) % FULL + delta == s + more + (a - b) * FULL;
    assert s == q * FULL + s % FULL;
    FullShift(s % FULL + more, q + a - b);
  }

  lemma FullShift(x: nat, q: int)
    requires x < FULL
    ensures (x + q * FULL) % FULL == x
  {
  }

  /**
   What the guest reads as `mtime` at the deadline of a comparator: the comparator itself or
   one less, and which of the two is decided by the two remainders.
   */
  lemma MtimeAtDeadline(now: nat, freq: nat, delta: nat, cmp: nat)
    requires 0 < freq <= NANOS && Mtime(now, freq, delta) < cmp < FULL
    requires NoOverflow(now, cmp - Mtime(now, freq, delta), freq)
    ensures var diff := cmp - Mtime(now, freq, delta);
            var late := now * freq % NANOS >= diff * NANOS % freq;
            Mtime(Deadline(now, diff, freq), freq, delta) == if late then cmp else cmp - 1
    ensures NANOS % freq == 0 ==> Mtime(Deadline(now, cmp - Mtime(now, freq, delta), freq), freq, delta) == cmp
    ensures now <= Deadline(now, cmp - Mtime(now, freq, delta), freq)
  {
    var diff := cmp - Mtime(now, freq, delta);
    var late := now * freq % NANOS >= diff * NANOS % freq;
    TicksAtDeadline(now, diff, freq);
    DeadlineExactlyWhenItFits(now, diff, freq);
    MtimeLater(now, diff * NANOS / freq, freq, delta, diff - (if late then 0 else 1));
    if NANOS % freq == 0 {
      ExactWait(diff, freq);
    }
  }

  /** The programmed deadline is the one wanted if and only if it fits; if it does not, the timer is early. */
  lemma DeadlineExactlyWhenItFits(now: nat, diff: nat, freq: nat)
    requires freq > 0
    ensures Deadline(now, diff, freq) == now + diff * NANOS / freq <==> NoOverflow(now, diff, freq)
    ensures !NoOverflow(now, diff, freq) ==> Deadline(now, diff, freq) < now + diff * NANOS / freq
  {
    var wait := diff * NANOS / freq;
    if NoOverflow(now, diff, freq) {
      assert MulDiv(diff, NANOS, freq) == wait;
    }
  }

  /** Elapsed raw ticks show up one for one in `mtime`, as long as it does not wrap. */
  lemma MtimeLater(now: nat, wait: nat, freq: nat, delta: nat, ticks: int)
    requires (now + wait) * freq / NANOS == now * freq / NANOS + ticks
    requires 0 <= Mtime(now, freq, delta) + ticks < FULL
    ensures Mtime(now + wait, freq, delta) == Mtime(now, freq, delta) + ticks
  {
    SumMod(now * freq / NANOS, ticks, delta);
  }

  // ---- the deadline against mtime ----

  /** Raw ticks from `armed` to `now`. */
  function Elapsed(armed: nat, now: nat, freq: nat): int {
    now * freq / NANOS - armed * freq / NANOS
  }

  /** `mtime` has not wrapped since `armed`. */
  predicate NoWrap(armed: nat, now: nat, freq: nat, delta: nat) {
    armed <= now && Mtime(armed, freq, delta) + Elapsed(armed, now, freq) < FULL
  }

  lemma TicksGrow(a: nat, b: nat, freq: nat)
    requires a <= b
    ensures a * freq / NANOS <= b * freq / NANOS
  {
    Distribute(a, b - a, freq);
  }

  lemma MtimeSince(armed: nat, now: nat, freq: nat, delta: nat)
    requires NoWrap(armed, now, freq, delta)
    ensures Elapsed(armed, now, freq) >= 0
    ensures Mtime(now, freq, delta) == Mtime(armed, freq, delta) + Elapsed(armed, now, freq)
  {
    TicksGrow(armed, now, freq);
    MtimeLater(armed, now - armed, freq, delta, Elapsed(armed, now, freq));
  }

  /**
   A deadline `wait` after `armed` has passed exactly when one more nanosecond would overshoot the ticks asked for.
   */
  lemma PassedExactlyWhen(armed: nat, now: nat, diff: nat, freq: nat)
    requires freq > 0 && armed <= now
    ensures armed + diff * NANOS / freq <= now <==> (now - armed + 1) * freq > diff * NANOS
  {
    var n, x := now - armed, diff * NANOS;
    var q := x / freq;
    assert x == q * freq + x % freq;
    if q <= n {
      assert (n + 1 - q) * freq >= freq by { AtLeastOnce(n + 1 - q, freq); }
      assert (n + 1) * freq == q * freq + (n + 1 - q) * freq;
    } else {
      assert (q - n - 1) * freq >= 0;
      assert q * freq == (n + 1) * freq + (q - n - 1) * freq;
    }
  }

  lemma AtLeastOnce(k: int, freq: nat)
    requires k >= 1
    ensures k * freq >= freq
  {
  }

  // ---- the device ----

  datatype Timer = Off | At(expiry: nat)

  /** A hart's comparator is due: it was reached when last evaluated, or its deadline has passed since. */
  predicate Due(now: nat, armed: nat, freq: nat, delta: nat, cmp: nat)
    requires freq > 0
  {
    var base := Mtime(armed, freq, delta);
    cmp <= base || Deadline(armed, cmp - base, freq) <= now
  }

  /** The deadline that `Due` waits for is the one wanted. */
  predicate Fits(armed: nat, freq: nat, delta: nat, cmp: nat)
    requires freq > 0
  {
    cmp > Mtime(armed, freq, delta) ==> NoOverflow(armed, cmp - Mtime(armed, freq, delta), freq)
  }

  /**
   Due against the rule "mtime has reached mtimecmp", for every timebase up to 1 GHz: due at the earliest
   one tick before, and at the latest when `mtime` has gone past.
   */
  lemma DueWithinOneTick(now: nat, armed: nat, freq: nat, delta: nat, cmp: nat)
    requires 0 < freq <= NANOS && cmp < FULL && NoWrap(armed, now, freq, delta) && Fits(armed, freq, delta, cmp)
    ensures Due(now, armed, freq, delta, cmp) ==> Mtime(now, freq, delta) + 1 >= cmp
    ensures Mtime(now, freq, delta) > cmp ==> Due(now, armed, freq, delta, cmp)
    ensures cmp > Mtime(armed, freq, delta) ==>
              (Due(now, armed, freq, delta, cmp) <==>
               (now - armed + 1) * freq > (cmp - Mtime(armed, freq, delta)) * NANOS)
  {
    var base := Mtime(armed, freq, delta);
    MtimeSince(armed, now, freq, delta);
    if cmp > base {
      var diff := cmp - base;
      var wait := diff * NANOS / freq;
      DeadlineExactlyWhenItFits(armed, diff, freq);
      TicksAtDeadline(armed, diff, freq);
      PassedExactlyWhen(armed, now, diff, freq);
      if armed + wait <= now {
        TicksGrow(armed + wait, now, freq);
      } else {
        TicksGrow(now, armed + wait, freq);
      }
    }
  }

  /**
   When the timebase divides a second, exactly: due once `mtime` has passed the comparator, or stands at it
   and has come as far into its tick as it had when the comparator was evaluated. The line lags by that much.
   */
  lemma DueExactlyWhen(now: nat, armed: nat, freq: nat, delta: nat, cmp: nat)
    requires 0 < freq <= NANOS && NANOS % freq == 0 && cmp < FULL
    requires NoWrap(armed, now, freq, delta) && Fits(armed, freq, delta, cmp) && cmp > Mtime(armed, freq, delta)
    ensures Due(now, armed, freq, delta, cmp) <==>
            Mtime(now, freq, delta) > cmp
            || (Mtime(now, freq, delta) == cmp && now * freq % NANOS >= armed * freq % NANOS)
  {
    var diff := cmp - Mtime(armed, freq, delta);
    var wait := diff * NANOS / freq;
    MtimeSince(armed, now, freq, delta);
    DeadlineExactlyWhenItFits(armed, diff, freq);
    ExactWait(diff, freq);
    assert wait * freq == diff * NANOS;
    WaitedExactlyWhen(armed, now, wait, diff, freq);
  }

  lemma WaitedExactlyWhen(armed: nat, now: nat, wait: nat, diff: nat, freq: nat)
    requires freq > 0 && wait * freq == diff * NANOS && armed <= now
    ensures armed + wait <= now <==>
            Elapsed(armed, now, freq) > diff
            || (Elapsed(armed, now, freq) == diff && now * freq % NANOS >= armed * freq % NANOS)
  {
    var x, y := armed * freq, now * freq;
    ScaleOrder(armed + wait, now, freq);
    Distribute(armed, wait, freq);
    assert armed + wait <= now <==> x + diff * NANOS <= y;
    assert x == x / NANOS * NANOS + x % NANOS && y == y / NANOS * NANOS + y % NANOS;
  }

  lemma ScaleOrder(a: nat, b: nat, freq: nat)
    requires freq > 0
    ensures a <= b <==> a * freq <= b * freq
  {
    if a <= b {
      Distribute(a, b - a, freq);
    } else {
      Distribute(b, a - b, freq);
      AtLeastOnce(a - b, freq);
    }
  }

  /** A comparator that was reached when evaluated stays reached. */
  lemma ReachedStays(now: nat, armed: nat, freq: nat, delta: nat, cmp: nat)
    requires freq > 0 && NoWrap(armed, now, freq, delta) && cmp <= Mtime(armed, freq, delta)
    ensures Due(now, armed, freq, delta, cmp) && cmp <= Mtime(now, freq, delta)
  {
    MtimeSince(armed, now, freq, delta);
  }

  /** Reached when evaluated, or as far into the tick as then. */
  predicate Settled(now: nat, armed: nat, freq: nat, delta: nat, cmp: nat) {
    cmp <= Mtime(armed, freq, delta) || now * freq % NANOS >= armed * freq % NANOS
  }

  /** How a line stands to `mtime` once expired timers have run. */
  predicate FollowsMtime(now: nat, armed: nat, freq: nat, delta: nat, cmp: nat, line: bool) {
    var m := Mtime(now, freq, delta);
    && (line ==> m + 1 >= cmp)
    && (m > cmp ==> line)
    && (freq > 0 && NANOS % freq == 0 ==>
          (line <==> (m > cmp || (m == cmp && Settled(now, armed, freq, delta, cmp)))))
  }

  lemma DueFollowsMtime(now: nat, armed: nat, freq: nat, delta: nat, cmp: nat)
    requires 0 < freq <= NANOS && cmp < FULL && NoWrap(armed, now, freq, delta) && Fits(armed, freq, delta, cmp)
    ensures FollowsMtime(now, armed, freq, delta, cmp, Due(now, armed, freq, delta, cmp))
  {
    DueWithinOneTick(now, armed, freq, delta, cmp);
    if cmp <= Mtime(armed, freq, delta) {
      ReachedStays(now, armed, freq, delta, cmp);
    } else if NANOS % freq == 0 {
      DueExactlyWhen(now, armed, freq, delta, cmp);
    }
  }

  /** The line is low for half a tick after `mtime` has reached the comparator. */
  lemma LineLags()
    ensures var freq, cmp, armed, now := 1_000_000, 1, 500, 1000;
            Mtime(now, freq, 0) == cmp && !Due(now, armed, freq, 0, cmp) && Due(now + 500, armed, freq, 0, cmp)
  {
  }

  /** And it can be high one tick early: at 32768 Hz, one nanosecond before `mtime` reaches the comparator. */
  lemma LineLeads()
    ensures var freq, cmp, armed, now := 32768, 1, 0, 30517;
            Mtime(now, freq, 0) == 0 && Due(now, armed, freq, 0, cmp) && Mtime(now + 1, freq, 0) == cmp
  {
  }

  /**
   A low line has the one timer that belongs to the current comparator; a high line is due.
   Only a hart whose comparator nobody has evaluated yet has no timer.
   */
  predicate HartGood(now: nat, freq: nat, delta: nat, cmp: nat, line: bool, timer: Timer, armed: nat, touched: bool)
    requires freq > 0
  {
    if !touched then !line && timer == Off && cmp == NEVER
    else if line then Due(now, armed, freq, delta, cmp)
    else Pending(freq, delta, cmp, timer, armed)
  }

  /** The timer carries the deadline of the comparator as it stood when last evaluated. */
  predicate Pending(freq: nat, delta: nat, cmp: nat, timer: Timer, armed: nat)
    requires freq > 0
  {
    var base := Mtime(armed, freq, delta);
    base < cmp && timer == At(Deadline(armed, cmp - base, freq))
  }

  lemma HartLater(now: nat, ns: nat, freq: nat, delta: nat, cmp: nat, line: bool, timer: Timer, armed: nat,
                  touched: bool)
    requires freq > 0 && HartGood(now, freq, delta, cmp, line, timer, armed, touched)
    ensures HartGood(now + ns, freq, delta, cmp, line, timer, armed, touched)
  {
  }

  lemma HartFires(now: nat, freq: nat, delta: nat, cmp: nat, line: bool, timer: Timer, armed: nat, touched: bool)
    requires freq > 0 && HartGood(now, freq, delta, cmp, line, timer, armed, touched)
    requires timer.At? && timer.expiry <= now
    ensures HartGood(now, freq, delta, cmp, true, Off, armed, touched)
    ensures !line ==> touched && Pending(freq, delta, cmp, timer, armed)
  {
  }

  /** With no expired timer left, low means not due. */
  lemma HartSettled(now: nat, freq: nat, delta: nat, cmp: nat, line: bool, timer: Timer, armed: nat)
    requires freq > 0 && HartGood(now, freq, delta, cmp, line, timer, armed, true)
    requires timer.At? ==> timer.expiry > now || line
    ensures line <==> Due(now, armed, freq, delta, cmp)
  {
  }

  lemma HartEvaluated(now: nat, freq: nat, delta: nat, cmp: nat, timer: Timer)
    requires freq > 0
    ensures cmp <= Mtime(now, freq, delta) ==> HartGood(now, freq, delta, cmp, true, timer, now, true)
    ensures cmp > Mtime(now, freq, delta) ==>
              HartGood(now, freq, delta, cmp, false, At(Deadline(now, cmp - Mtime(now, freq, delta), freq)), now, true)
  {
  }

  /** `mtime` at the expiry is the comparator or one less, and the comparator if the timebase divides a second. */
  predicate RisesOnTime(freq: nat, delta: nat, cmp: nat, expiry: nat)
    requires freq > 0
  {
    var m := Mtime(expiry, freq, delta);
    (m == cmp || m + 1 == cmp) && (NANOS % freq == 0 ==> m == cmp)
  }

  /** The address of a register, split as the device does. */
  datatype Register = Msip(hart: nat) | TimecmpLow(hart: nat) | TimecmpHigh(hart: nat) | MtimeLow | MtimeHigh | Invalid

  function Decode(harts: nat, addr: nat, size: nat): (r: Register)
    ensures (r.Msip? || r.TimecmpLow? || r.TimecmpHigh?) ==> r.hart < harts
  {
    if addr % 4 != 0 || size != 4 then Invalid
    else if addr < harts * 4 then Msip(addr / 4)
    else if 0x4000 <= addr < 0x4000 + harts * 8 then
      if addr % 8 == 0 then TimecmpLow((addr - 0x4000) / 8) else TimecmpHigh((addr - 0x4000) / 8)
    else if addr == 0xBFF8 then MtimeLow
    else if addr == 0xBFFC then MtimeHigh
    else Invalid
  }

  // ---- the register map, by address ----

  /** No register is accessed: wrong size or alignment, or an address outside the three groups. */
  predicate Unmapped(harts: nat, addr: nat, size: nat) {
    || size != 4 || addr % 4 != 0
    || (addr >= 4 * harts && !(0x4000 <= addr < 0x4000 + 8 * harts) && addr != 0xBFF8 && addr != 0xBFFC)
  }

  /** The low half of hart h's comparator, the high half being 4 bytes on; the software interrupts take precedence. */
  predicate AtTimecmp(harts: nat, addr: nat, h: nat) {
    h < harts && addr == 0x4000 + 8 * h && 4 * harts <= addr
  }

  /** The low half of `mtime`, unless there are so many harts that their registers reach that far. */
  predicate AtMtime(harts: nat, addr: nat) {
    addr == 0xBFF8 && 0x4000 + 8 * harts <= addr
  }

  /** `value` is the high or low 32 bits of x. */
  predicate IsHalf(value: nat, x: nat, high: bool) {
    value == if high then x / 0x1_0000_0000 else x % 0x1_0000_0000
  }

  /** x is `was` with its high or low 32 bits replaced by the low 32 bits of `value`. */
  predicate Halved(x: nat, was: nat, value: nat, high: bool) {
    if high then x / 0x1_0000_0000 == value % 0x1_0000_0000 && x % 0x1_0000_0000 == was % 0x1_0000_0000
    else x % 0x1_0000_0000 == value % 0x1_0000_0000 && x / 0x1_0000_0000 == was / 0x1_0000_0000
  }

  lemma DecodesMsip(harts: nat, addr: nat)
    ensures forall h: nat :: h < harts && addr == 4 * h ==> Decode(harts, addr, 4) == Msip(h)
  {
  }

  lemma DecodesTimecmp(harts: nat, addr: nat, h: nat)
    requires AtTimecmp(harts, addr, h)
    ensures Decode(harts, addr, 4) == TimecmpLow(h) && Decode(harts, addr + 4, 4) == TimecmpHigh(h)
  {
    Eighths(addr - 0x4000, h);
  }

  lemma Eighths(a: nat, h: nat)
    requires a == 8 * h
    ensures a / 8 == h && (a + 4) / 8 == h && (0x4000 + a) % 8 == 0 && (0x4000 + a + 4) % 8 == 4
    ensures (0x4000 + a) % 4 == 0 && (0x4000 + a + 4) % 4 == 0
  {
  }

  lemma HighHalf(x: nat)
    requires x < FULL
    ensures x / HALF % HALF == x / 0x1_0000_0000
  {
  }

  lemma DecodesMtime(harts: nat, addr: nat)
    requires AtMtime(harts, addr)
    ensures Decode(harts, addr, 4) == MtimeLow && Decode(harts, addr + 4, 4) == MtimeHigh
  {
  }

  lemma DecodesNothing(harts: nat, addr: nat, size: nat)
    ensures Unmapped(harts, addr, size) <==> Decode(harts, addr, size) == Invalid
  {
  }

  lemma DecodesByAddress(harts: nat, addr: nat, size: nat)
    ensures size == 4 ==> forall h: nat :: h < harts && addr == 4 * h ==> Decode(harts, addr, size) == Msip(h)
    ensures size == 4 ==> forall h: nat :: AtTimecmp(harts, addr, h) ==> Decode(harts, addr, size) == TimecmpLow(h)
    ensures size == 4 && addr >= 4 ==>
              forall h: nat :: AtTimecmp(harts, addr - 4, h) ==> Decode(harts, addr, size) == TimecmpHigh(h)
    ensures size == 4 && AtMtime(harts, addr) ==> Decode(harts, addr, size) == MtimeLow
    ensures size == 4 && addr >= 4 && AtMtime(harts, addr - 4) ==> Decode(harts, addr, size) == MtimeHigh
    ensures Unmapped(harts, addr, size) <==> Decode(harts, addr, size) == Invalid
  {
    DecodesMsip(harts, addr);
    forall h: nat | AtTimecmp(harts, addr, h) ensures Decode(harts, addr, 4) == TimecmpLow(h) {
      DecodesTimecmp(harts, addr, h);
    }
    if addr >= 4 {
      forall h: nat | AtTimecmp(harts, addr - 4, h) ensures Decode(harts, addr, 4) == TimecmpHigh(h) {
        DecodesTimecmp(harts, addr - 4, h);
      }
      if AtMtime(harts, addr - 4) { DecodesMtime(harts, addr - 4); }
    }
    if AtMtime(harts, addr) { DecodesMtime(harts, addr); }
    DecodesNothing(harts, addr, size);
  }

  function WithLow(x: nat, low: nat): (y: nat)
    ensures y % HALF == low % HALF && y / HALF == x / HALF
  {
    x - x % HALF + low % HALF
  }

  function WithHigh(x: nat, high: nat): (y: nat)
    ensures y % HALF == x % HALF && y / HALF == high % HALF && y < FULL
  {
    high % HALF * HALF + x % HALF
  }

  /** Setting the offset so that `mtime` becomes `target`. */
  lemma SetMtime(now: nat, freq: nat, target: nat, delta: nat)
    requires target < FULL && delta == (target - Raw(now, freq)) % FULL
    ensures Mtime(now, freq, delta) == target
  {
    var raw := Raw(now, freq);
    var q := (target - raw) / FULL;
    assert raw + delta == target + (-q) * FULL;
    FullShift(target, -q);
  }

  class Device {
    const harts: nat
    const freq: nat
    /** The virtual clock, in nanoseconds. */
    var now: nat
    var delta: nat
    var cmp: seq<nat>
    var msip: seq<bool>
    var soft: seq<bool>
    var line: seq<bool>
    var timer: seq<Timer>
    /** When each comparator was last evaluated, if ever. */
    ghost var armed: seq<nat>
    ghost var touched: seq<bool>

    ghost predicate Shape()
      reads this
    {
      && freq > 0 && delta < FULL
      && |cmp| == |msip| == |soft| == |line| == |timer| == |armed| == |touched| == harts
      && forall h :: 0 <= h < harts ==> cmp[h] < FULL && armed[h] <= now && soft[h] == msip[h]
    }

    ghost predicate HartOk(h: nat)
      requires Shape() && h < harts
      reads this
    {
      HartGood(now, freq, delta, cmp[h], line[h], timer[h], armed[h], touched[h])
    }

    ghost predicate Valid()
      reads this
    {
      Shape() && forall h :: 0 <= h < harts ==> HartOk(h)
    }

    constructor (harts: nat, freq: nat, now: nat)
      requires freq > 0
      ensures Valid() && this.harts == harts && this.freq == freq && this.now == now
      ensures delta == 0 && forall h :: 0 <= h < harts ==> cmp[h] == 0xFFFF_FFFF_FFFF_FFFF && !line[h] && !soft[h]
    {
      this.harts, this.freq, this.now, delta := harts, freq, now, 0;
      cmp := seq(harts, (_: nat) => NEVER);
      msip, soft := seq(harts, (_: nat) => false), seq(harts, (_: nat) => false);
      line, timer := seq(harts, (_: nat) => false), seq(harts, (_: nat) => Off);
      armed, touched := seq(harts, (_: nat) => 0), seq(harts, (_: nat) => false);
    }

    /** `thead_clint_write_timecmp`: lower, then raise at once or start the hart's timer. */
    method WriteTimecmp(h: nat, value: nat)
      requires Shape() && h < harts && value < FULL
      modifies this`cmp, this`line, this`timer, this`armed, this`touched
      ensures Shape() && HartOk(h) && cmp == old(cmp)[h := value]
      ensures touched == old(touched)[h := true] && armed == old(armed)[h := now]
      ensures line == old(line)[h := value <= Mtime(now, freq, delta)]
      ensures forall k :: 0 <= k < harts && k != h ==> timer[k] == old(timer)[k]
    {
      var rtc := Mtime(now, freq, delta);
      HartEvaluated(now, freq, delta, value, timer[h]);
      cmp := cmp[h := value];
      line := line[h := false];
      armed, touched := armed[h := now], touched[h := true];
      if value <= rtc {
        line := line[h := true];
      } else {
        timer := timer[h := At(Deadline(now, value - rtc, freq))];
      }
    }

    /** A store to one half of a comparator. */
    method SetTimecmp(h: nat, value: nat)
      requires Valid() && h < harts && value < FULL
      modifies this`cmp, this`line, this`timer, this`armed, this`touched
      ensures Valid() && cmp == old(cmp)[h := value]
      ensures line == old(line)[h := value <= Mtime(now, freq, delta)]
    {
      WriteTimecmp(h, value);
      forall k | 0 <= k < harts ensures HartOk(k) {
        assert k != h ==> old(HartOk(k));
      }
    }

    method SetMsip(h: nat, bit: bool)
      requires Valid() && h < harts
      modifies this`msip, this`soft
      ensures Valid() && soft == old(soft)[h := bit]
    {
      msip := msip[h := bit];
      soft := soft[h := bit];
      forall k | 0 <= k < harts ensures HartOk(k) {
        assert old(HartOk(k));
      }
    }

    /** A store to one half of a comparator, the other half and the other harts' comparators kept. */
    method StoreTimecmp(h: nat, high: bool, value: nat)
      requires Valid() && h < harts
      modifies this`cmp, this`line, this`timer, this`armed, this`touched
      ensures Valid() && Halved(cmp[h], old(cmp)[h], value, high) && Compared(h, old(cmp), old(line))
    {
      if high {
        SetTimecmp(h, WithHigh(cmp[h], value));
      } else {
        LowInRange(cmp[h], value);
        SetTimecmp(h, WithLow(cmp[h], value));
      }
    }

    /** A store to one half of `mtime`, the other half kept; every comparator evaluated again. */
    method StoreMtime(high: bool, value: nat)
      requires Valid()
      modifies this
      ensures Valid() && now == old(now)
      ensures Halved(Mtime(now, freq, delta), Mtime(now, freq, old(delta)), value, high)
      ensures Recompared(old(cmp), old(soft))
    {
      if high {
        MoveMtime(WithHigh(Mtime(now, freq, delta), value));
      } else {
        LowInRange(Mtime(now, freq, delta), value);
        MoveMtime(WithLow(Mtime(now, freq, delta), value));
      }
    }

    /** `thead_clint_write`: a guest store of `size` bytes. */
    method Write(addr: nat, value: nat, size: nat)
      requires Valid()
      modifies this
      ensures Valid() && now == old(now)
      // a hart's software interrupt
      ensures forall h :: 0 <= h < harts && addr == 4 * h && size == 4 ==>
                soft == old(soft)[h := value % 2 == 1] && KeptTimers(old(cmp), old(line), old(timer), old(delta))
      // one half of a hart's comparator
      ensures forall h: nat :: AtTimecmp(harts, addr, h) && size == 4 ==>
                Halved(cmp[h], old(cmp)[h], value, false) && Compared(h, old(cmp), old(line))
      ensures forall h: nat :: addr >= 4 && AtTimecmp(harts, addr - 4, h) && size == 4 ==>
                Halved(cmp[h], old(cmp)[h], value, true) && Compared(h, old(cmp), old(line))
      ensures size == 4 && addr >= 4 * harts && 0x4000 <= addr < 0x4000 + 8 * harts ==>
                delta == old(delta) && soft == old(soft)
      // one half of `mtime`
      ensures AtMtime(harts, addr) && size == 4 ==>
                && Halved(Mtime(now, freq, delta), Mtime(now, freq, old(delta)), value, false)
                && Recompared(old(cmp), old(soft))
      ensures addr >= 4 && AtMtime(harts, addr - 4) && size == 4 ==>
                && Halved(Mtime(now, freq, delta), Mtime(now, freq, old(delta)), value, true)
                && Recompared(old(cmp), old(soft))
      // anything else
      ensures Unmapped(harts, addr, size) ==>
                soft == old(soft) && KeptTimers(old(cmp), old(line), old(timer), old(delta))
    {
      DecodesByAddress(harts, addr, size);
      match Decode(harts, addr, size)
      case Msip(h) => SetMsip(h, value % 2 == 1);
      case TimecmpLow(h) => StoreTimecmp(h, false, value);
      case TimecmpHigh(h) => StoreTimecmp(h, true, value);
      case MtimeLow => StoreMtime(false, value);
      case MtimeHigh => StoreMtime(true, value);
      case Invalid =>
    }

    /** Comparators and software interrupts as before, and every line says whether its comparator has been reached. */
    ghost predicate Recompared(cmp: seq<nat>, soft: seq<bool>)
      requires Shape()
      reads this
    {
      && this.cmp == cmp && this.soft == soft
      && forall h :: 0 <= h < harts ==> line[h] == (this.cmp[h] <= Mtime(now, freq, delta))
    }

    ghost predicate KeptTimers(cmp: seq<nat>, line: seq<bool>, timer: seq<Timer>, delta: nat)
      reads this
    {
      this.cmp == cmp && this.line == line && this.timer == timer && this.delta == delta
    }

    /** Only hart h's comparator has changed, and its line says whether it has been reached. */
    ghost predicate Compared(h: nat, cmp: seq<nat>, line: seq<bool>)
      requires Shape() && h < |cmp| == |line| == harts
      reads this
    {
      this.cmp == cmp[h := this.cmp[h]] && this.line == line[h := this.cmp[h] <= Mtime(now, freq, delta)]
    }

    /** A store to MTIME: adjust the offset, then evaluate every comparator again. */
    method MoveMtime(target: nat)
      requires Valid() && target < FULL
      modifies this
      ensures Valid() && now == old(now) && cmp == old(cmp) && soft == old(soft)
      ensures Mtime(now, freq, delta) == target
      ensures forall h :: 0 <= h < harts ==> line[h] == (cmp[h] <= target)
    {
      delta := (target - Raw(now, freq)) % FULL;
      SetMtime(now, freq, target, delta);
      var h := 0;
      while h < harts
        invariant 0 <= h <= harts && Shape() && now == old(now) && cmp == old(cmp) && soft == old(soft)
        invariant Mtime(now, freq, delta) == target
        invariant forall k :: 0 <= k < h ==> HartOk(k) && line[k] == (cmp[k] <= target)
      {
        WriteTimecmp(h, cmp[h]);
        h := h + 1;
      }
    }

    /** `thead_clint_timer_cb`: a line that was low rises only at the deadline of its current comparator. */
    method TimerCallback(h: nat)
      requires Valid() && h < harts && timer[h].At? && timer[h].expiry <= now
      modifies this`line, this`timer
      ensures Valid() && line == old(line)[h := true] && timer == old(timer)[h := Off]
      ensures !old(line)[h] ==> touched[h] && Pending(freq, delta, cmp[h], old(timer)[h], armed[h])
      ensures !old(line)[h] && freq <= NANOS && cmp[h] > Mtime(armed[h], freq, delta)
              && NoOverflow(armed[h], cmp[h] - Mtime(armed[h], freq, delta), freq) ==>
                RisesOnTime(freq, delta, cmp[h], old(timer)[h].expiry)
    {
      assert HartOk(h);
      if !line[h] && freq <= NANOS && cmp[h] > Mtime(armed[h], freq, delta)
        && NoOverflow(armed[h], cmp[h] - Mtime(armed[h], freq, delta), freq)
      {
        MtimeAtDeadline(armed[h], freq, delta, cmp[h]);
      }
      HartFires(now, freq, delta, cmp[h], line[h], timer[h], armed[h], touched[h]);
      line := line[h := true];
      timer := timer[h := Off];
      forall k | 0 <= k < harts ensures HartOk(k) {
        assert k != h ==> old(HartOk(k));
      }
    }

    /** Time passes. */
    method Advance(ns: nat)
      requires Valid()
      modifies this`now
      ensures Valid() && now == old(now) + ns
    {
      forall h | 0 <= h < harts
        ensures HartGood(now + ns, freq, delta, cmp[h], line[h], timer[h], armed[h], touched[h])
      {
        assert HartOk(h);
        HartLater(now, ns, freq, delta, cmp[h], line[h], timer[h], armed[h], touched[h]);
      }
      now := now + ns;
    }

    /** Hart h's comparator was evaluated, its deadline did not overflow and `mtime` has not wrapped since. */
    ghost predicate Comparable(h: nat)
      requires Shape() && h < harts
      reads this
    {
      touched[h] && freq <= NANOS && NoWrap(armed[h], now, freq, delta) && Fits(armed[h], freq, delta, cmp[h])
    }

    /**
     The timer queue catches up: afterwards a line is high exactly when its comparator is due, and follows `mtime`.
     */
    method RunTimers()
      requires Valid()
      modifies this`line, this`timer
      ensures Valid()
      ensures forall h :: 0 <= h < harts && touched[h] ==> (line[h] <==> Due(now, armed[h], freq, delta, cmp[h]))
      ensures forall h :: 0 <= h < harts && Comparable(h) ==> FollowsMtime(now, armed[h], freq, delta, cmp[h], line[h])
    {
      var h := 0;
      while h < harts
        invariant 0 <= h <= harts && Valid()
        invariant forall k :: 0 <= k < h && touched[k] ==> (line[k] <==> Due(now, armed[k], freq, delta, cmp[k]))
      {
        if timer[h].At? && timer[h].expiry <= now {
          TimerCallback(h);
        }
        if touched[h] {
          assert HartOk(h);
          HartSettled(now, freq, delta, cmp[h], line[h], timer[h], armed[h]);
        }
        h := h + 1;
      }
      forall k | 0 <= k < harts && Comparable(k) ensures FollowsMtime(now, armed[k], freq, delta, cmp[k], line[k]) {
        DueFollowsMtime(now, armed[k], freq, delta, cmp[k]);
      }
    }

    /** One half of a 64-bit register. */
    method ReadHalf(x: nat, high: bool) returns (value: nat)
      requires x < FULL
      ensures IsHalf(value, x, high)
    {
      HighHalf(x);
      value := if high then x / HALF % HALF else x % HALF;
    }

    /** `thead_clint_read` */
    method Read(addr: nat, size: nat) returns (value: nat)
      requires Valid()
      ensures forall h :: 0 <= h < harts && addr == 4 * h && size == 4 ==> value == if soft[h] then 1 else 0
      ensures forall h: nat :: AtTimecmp(harts, addr, h) && size == 4 ==> IsHalf(value, cmp[h], false)
      ensures forall h: nat :: addr >= 4 && AtTimecmp(harts, addr - 4, h) && size == 4 ==> IsHalf(value, cmp[h], true)
      ensures AtMtime(harts, addr) && size == 4 ==> IsHalf(value, Mtime(now, freq, delta), false)
      ensures addr >= 4 && AtMtime(harts, addr - 4) && size == 4 ==> IsHalf(value, Mtime(now, freq, delta), true)
      ensures Unmapped(harts, addr, size) ==> value == 0
    {
      DecodesByAddress(harts, addr, size);
      match Decode(harts, addr, size)
      case Msip(h) => value := if msip[h] then 1 else 0;
      case TimecmpLow(h) => value := ReadHalf(cmp[h], false);
      case TimecmpHigh(h) => value := ReadHalf(cmp[h], true);
      case MtimeLow => value := ReadHalf(Mtime(now, freq, delta), false);
      case MtimeHigh => value := ReadHalf(Mtime(now, freq, delta), true);
      case Invalid => value := 0;
    }

    method Handle(e: Event)
      requires Valid()
      modifies this
      ensures Valid()
    {
      match e
      case Store(addr, value, size) => Write(addr, value, size);
      case Pass(ns) => Advance(ns);
      case Fire(h) => if h < harts && timer[h].At? && timer[h].expiry <= now { TimerCallback(h); }
    }
  }

  /** A guest store, the passing of time, or one expired timer's callback. */
  datatype Event = Store(addr: nat, value: nat, size: nat) | Pass(ns: nat) | Fire(hart: nat)

  /**
   Any interleaving of stores, time and callbacks leaves every low line with the timer of its current
   comparator; once the timer queue has caught up, a line is high exactly when its comparator is due,
   and so follows `mtime` unless the deadline overflowed or `mtime` wrapped since the last evaluation.
   */
  method AnyHistory(harts: nat, freq: nat, now: nat, events: seq<Event>) returns (d: Device)
    requires freq > 0
    ensures d.Valid() && d.harts == harts && d.freq == freq
    ensures forall h :: 0 <= h < harts && d.touched[h] ==>
              (d.line[h] <==> Due(d.now, d.armed[h], freq, d.delta, d.cmp[h]))
    ensures forall h :: 0 <= h < harts && d.Comparable(h) ==>
              FollowsMtime(d.now, d.armed[h], freq, d.delta, d.cmp[h], d.line[h])
  {
    d := new Device(harts, freq, now);
    for n := 0 to |events|
      invariant d.Valid() && fresh(d)
    {
      d.Handle(events[n]);
    }
    d.RunTimers();
  }

  lemma LowInRange(x: nat, low: nat)
    requires x < FULL
    ensures WithLow(x, low) < FULL
  {
  }

  /**
   The untouched comparator of a hart that never uses its timer, at the default 1 MHz timebase: a guest
   store to MTIME of any value in the lower 99.9 percent of its range, at any time, programs a deadline
   that overflows and comes early.
   */
  lemma BootComparatorIsEarly(now: nat, target: nat)
    requires target < FULL - FULL / 1000
    ensures !NoOverflow(now, NEVER - target, 1_000_000)
    ensures Deadline(now, NEVER - target, 1_000_000) < now + (NEVER - target) * 1000
  {
    var diff := NEVER - target;
    assert diff * NANOS / 1_000_000 == diff * 1000;
    DeadlineExactlyWhenItFits(now, diff, 1_000_000);
  }

  /** At time 0 and with the value 0 the callback is due at once, with `mtime` still 2^64 - 1 ticks away. */
  lemma BootComparatorFiresAtOnce()
    ensures var freq, delta := 1_000_000, 0;
            && Mtime(0, freq, delta) == 0 && Deadline(0, NEVER - 0, freq) == 0
            && Mtime(Deadline(0, NEVER - 0, freq), freq, delta) == 0
  {
    assert NEVER * NANOS / 1_000_000 == NEVER * 1000;
    assert NEVER * 1000 == 999 * FULL + (FULL - 1000);
  }
}
