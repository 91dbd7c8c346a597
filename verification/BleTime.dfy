/**
 The BLE controller's time base: (coarse, fine) slot time, 28 bits of 625 us slots plus
 0..624 us, against a 32-bit counter kept relative to the last sample, and the circular
 comparison of slot times.
 */
module BleTime {
  import opened MachineWord

  const SLOT: int := 625
  const SLOTS: int := 0x1000_0000
  const HALF_SLOTS: int := 0x0800_0000
  const DISARMED: int := 0xFFFF_FFFF

  predicate IsInt32(x: int) {
    -0x8000_0000 <= x < 0x8000_0000
  }

  /** `(int32_t)x` for a 32-bit x. */
  function Signed(x: int): int {
    if x % WORD < 0x8000_0000 then x % WORD else x % WORD - WORD
  }

  /** The 28-bit difference read as -2^27 .. 2^27 - 1. */
  function SlotDelta(a: int, b: int): (d: int)
    ensures -HALF_SLOTS <= d < HALF_SLOTS && (d - (a - b)) % SLOTS == 0
  {
    var d := (a - b) % SLOTS;
    var e := if d > HALF_SLOTS - 1 then d - SLOTS else d;
    assert (e - (a - b)) % SLOTS == 0 by {
      var q := (a - b) / SLOTS;
      assert a - b == q * SLOTS + d;
      SlotsMultiple(if d > HALF_SLOTS - 1 then -q - 1 else -q);
    }
    e
  }

  lemma SlotsMultiple(q: int)
    ensures q * SLOTS % SLOTS == 0
  {
  }

  /** C division by 2, truncating toward zero. */
  function Halve(x: int): (h: int)
    ensures 2 * h == x || (x > 0 && 2 * h == x - 1) || (x < 0 && 2 * h == x + 1)
  {
    if x >= 0 then x / 2 else -(-x / 2)
  }

  /** A sampled reference. */
  datatype Reference = Reference(coarse: int, fine: int, bts: int)

  predicate Sampled(r: Reference) {
    0 <= r.coarse < SLOTS && 0 <= r.fine < SLOT && 0 <= r.bts < WORD
  }

  /** Microseconds from the reference to (coarse, fine), by the shorter way round. */
  function Micros(r: Reference, coarse: int, fine: int): int {
    SlotDelta(coarse, r.coarse) * SLOT + (fine - r.fine)
  }

  /** The signed products and sums of the conversion fit 32 bits. */
  predicate ToFits(r: Reference, coarse: int, fine: int) {
    IsInt32(SlotDelta(coarse, r.coarse) * SLOT) && IsInt32(Micros(r, coarse, fine))
  }

  predicate FromFits(r: Reference, bts: int) {
    IsInt32(2 * Signed(bts - r.bts)) && IsInt32(r.fine + 2 * Signed(bts - r.bts))
  }

  function ToBts(r: Reference, coarse: int, fine: int): int {
    (r.bts + Halve(Micros(r, coarse, fine))) % WORD
  }

  // ---- the two round trips ----

  lemma SlotDeltaSmall(c: int, k: int)
    requires -HALF_SLOTS <= k < HALF_SLOTS
    ensures SlotDelta((c + k) % SLOTS, c) == k
  {
    var q := (c + k) / SLOTS;
    assert (c + k) % SLOTS - c == k - q * SLOTS;
    if k >= 0 {
      SlotsShift(k, -q);
    } else {
      assert k - q * SLOTS == (k + SLOTS) + (-q - 1) * SLOTS;
      SlotsShift(k + SLOTS, -q - 1);
    }
  }

  lemma SlotsShift(k: int, q: int)
    requires 0 <= k < SLOTS
    ensures (k + q * SLOTS) % SLOTS == k
  {
  }

  lemma SignedSmall(base: int, d: int)
    requires IsInt32(d)
    ensures Signed((base + d) % WORD - base) == d
  {
    var q := (base + d) / WORD;
    assert (base + d) % WORD - base == d - q * WORD;
    if d >= 0 {
      WordShift(d, -q);
    } else {
      assert d - q * WORD == (d + WORD) + (-q - 1) * WORD;
      WordShift(d + WORD, -q - 1);
    }
  }

  lemma WordShift(k: int, q: int)
    requires 0 <= k < WORD
    ensures (k + q * WORD) % WORD == k
  {
  }

  lemma SignedBack(base: int, x: int)
    requires 0 <= x < WORD
    ensures (base + Signed(x - base)) % WORD == x
  {
    var y := (x - base) % WORD;
    var q := (x - base) / WORD;
    assert x - base == q * WORD + y;
    WordShift(x, if Signed(x - base) == y then -q else -q - 1);
  }

  /** The (coarse, fine) that `rwip_bts_to_bt_time` arrives at. */
  function CoarseOf(r: Reference, bts: int): int {
    (r.coarse + (r.fine + 2 * Signed(bts - r.bts)) / SLOT) % SLOTS
  }

  function FineOf(r: Reference, bts: int): (f: int)
    ensures 0 <= f < SLOT
  {
    (r.fine + 2 * Signed(bts - r.bts)) % SLOT
  }

  lemma MicrosOfBts(r: Reference, bts: int)
    requires Sampled(r) && FromFits(r, bts)
    ensures Micros(r, CoarseOf(r, bts), FineOf(r, bts)) == 2 * Signed(bts - r.bts)
    ensures SlotDelta(CoarseOf(r, bts), r.coarse) == (r.fine + 2 * Signed(bts - r.bts)) / SLOT
  {
    var us := r.fine + 2 * Signed(bts - r.bts);
    assert us == us / SLOT * SLOT + us % SLOT;
    SlotDeltaSmall(r.coarse, us / SLOT);
  }

  /** Counter to slot time and back is exact, and nothing overflows, within 2^30 - 625 of the reference. */
  lemma BtsRoundTrip(r: Reference, bts: int)
    requires Sampled(r) && 0 <= bts < WORD
    requires -(0x4000_0000 - 625) <= Signed(bts - r.bts) <= 0x4000_0000 - 625
    ensures FromFits(r, bts) && ToFits(r, CoarseOf(r, bts), FineOf(r, bts))
    ensures ToBts(r, CoarseOf(r, bts), FineOf(r, bts)) == bts
  {
    MicrosOfBts(r, bts);
    SignedBack(r.bts, bts);
  }

  lemma BtsOfSlotTime(r: Reference, coarse: int, fine: int)
    requires Sampled(r) && ToFits(r, coarse, fine)
    ensures Signed(ToBts(r, coarse, fine) - r.bts) == Halve(Micros(r, coarse, fine))
  {
    SignedSmall(r.bts, Halve(Micros(r, coarse, fine)));
  }

  /** Slot time to counter and back loses at most one microsecond, and never moves away from the reference. */
  lemma SlotTimeRoundTrip(r: Reference, coarse: int, fine: int, bts: int)
    requires Sampled(r) && ToFits(r, coarse, fine) && bts == ToBts(r, coarse, fine) && FromFits(r, bts)
    ensures var m, back := Micros(r, coarse, fine), Micros(r, CoarseOf(r, bts), FineOf(r, bts));
            back == m || (m > 0 && back == m - 1) || (m < 0 && back == m + 1)
  {
    BtsOfSlotTime(r, coarse, fine);
    MicrosOfBts(r, bts);
  }

  /** An even distance comes back unchanged. */
  lemma EvenSlotTimeRoundTrip(r: Reference, coarse: int, fine: int, bts: int)
    requires Sampled(r) && 0 <= coarse < SLOTS && 0 <= fine < SLOT && ToFits(r, coarse, fine)
    requires bts == ToBts(r, coarse, fine) && Micros(r, coarse, fine) % 2 == 0
    ensures CoarseOf(r, bts) == coarse && FineOf(r, bts) == fine
  {
    BtsOfSlotTime(r, coarse, fine);
    var d := SlotDelta(coarse, r.coarse);
    var us := r.fine + 2 * Signed(bts - r.bts);
    EvenHalves(Micros(r, coarse, fine));
    assert us == d * SLOT + fine;
    SlotSplit(us, d, fine);
    CoarseBack(r.coarse, coarse, d);
  }

  lemma EvenHalves(m: int)
    requires m % 2 == 0
    ensures 2 * Halve(m) == m
  {
  }

  lemma SlotSplit(us: int, d: int, fine: int)
    requires us == d * SLOT + fine && 0 <= fine < SLOT
    ensures us / SLOT == d && us % SLOT == fine
  {
  }

  lemma CoarseBack(c: int, coarse: int, d: int)
    requires 0 <= coarse < SLOTS && (d - (coarse - c)) % SLOTS == 0
    ensures (c + d) % SLOTS == coarse
  {
    var q := (d - (coarse - c)) / SLOTS;
    assert c + d == coarse + q * SLOTS;
    SlotsShift(coarse, q);
  }

  // ---- reaching a target ----

  /** `bleblob_rwip_time_reached` at `us` microseconds. */
  predicate Reached(coarse: int, fine: int, us: nat) {
    coarse != DISARMED &&
    var delta := (us / SLOT % SLOTS - coarse) % SLOTS;
    if delta == 0 then us % SLOT >= fine else delta < HALF_SLOTS
  }

  /** The comparison sees nothing but the distance in slots, modulo 2^28, and the two remainders. */
  lemma ReachedExactlyWhen(target: nat, us: nat)
    ensures Reached(target / SLOT % SLOTS, target % SLOT, us) <==>
            var d := (us / SLOT - target / SLOT) % SLOTS;
            if d == 0 then us % SLOT >= target % SLOT else d < HALF_SLOTS
  {
    var n, t := us / SLOT, target / SLOT;
    assert n % SLOTS - t % SLOTS == (n - t) + (t / SLOTS - n / SLOTS) * SLOTS;
    SlotsAny(n - t, t / SLOTS - n / SLOTS);
  }

  /** Within 2^27 slots on either side, circular comparison is comparison of times. */
  lemma ReachedIsPassed(target: nat, us: nat)
    requires -HALF_SLOTS <= us / SLOT - target / SLOT < HALF_SLOTS
    ensures Reached(target / SLOT % SLOTS, target % SLOT, us) <==> us >= target
  {
    var n, t := us / SLOT, target / SLOT;
    ReachedExactlyWhen(target, us);
    assert (n - t) % SLOTS == if n >= t then n - t else n - t + SLOTS;
    assert us == n * SLOT + us % SLOT && target == t * SLOT + target % SLOT;
  }

  /**
   A poll at or after the target misses it exactly when it is late by more than half a turn, counted
   in whole turns of 2^28 slots: by 2^27 slots up to the target's own place in the next turn.
   */
  lemma LatePollsMissed(target: nat, late: nat)
    ensures var us := target + late;
            var turn := SLOTS * SLOT;
            var slots := us / SLOT - target / SLOT;
            !Reached(target / SLOT % SLOTS, target % SLOT, us) <==>
            slots % SLOTS >= HALF_SLOTS || (slots % SLOTS == 0 && late % turn >= turn - SLOT)
  {
    var us := target + late;
    var slots := us / SLOT - target / SLOT;
    ReachedExactlyWhen(target, us);
    assert us == us / SLOT * SLOT + us % SLOT && target == target / SLOT * SLOT + target % SLOT;
    var diff, q := us % SLOT - target % SLOT, slots / SLOTS;
    assert late == slots * SLOT + diff;
    if slots % SLOTS == 0 {
      assert slots == q * SLOTS;
      if diff >= 0 {
        TurnSplit(late, q, diff);
      } else {
        TurnSplit(late, q - 1, SLOTS * SLOT + diff);
      }
    }
  }

  lemma TurnSplit(late: int, q: int, rest: int)
    requires late == q * SLOTS * SLOT + rest && 0 <= rest < SLOTS * SLOT
    ensures late % (SLOTS * SLOT) == rest
  {
  }

  lemma SlotsAny(k: int, q: int)
    ensures (k + q * SLOTS) % SLOTS == k % SLOTS
  {
  }

  lemma SlotOrder(a: nat, b: nat)
    requires a <= b
    ensures a / SLOT <= b / SLOT
  {
  }

  // ---- the sampled counter ----

  /** What `bleblob_rwip_sample_time` records at `us` microseconds. */
  function Ref(us: nat): (r: Reference)
    ensures Sampled(r)
  {
    Reference(us / SLOT % SLOTS, us % SLOT, us / 312 % WORD)
  }

  /** Less than 2^31 us apart, the distance between two samples is known. */
  lemma SampleDistance(a: nat, b: nat)
    requires a <= b && b - a < 0x8000_0000
    ensures Micros(Ref(a), Ref(b).coarse, Ref(b).fine) == b - a
  {
    var x, y := a / SLOT, b / SLOT;
    assert a == x * SLOT + a % SLOT && b == y * SLOT + b % SLOT;
    assert 0 <= y - x < HALF_SLOTS;
    var q := x / SLOTS;
    assert x + (y - x) == (x % SLOTS + (y - x)) + q * SLOTS;
    SlotsAny(x % SLOTS + (y - x), q);
    SlotDeltaSmall(x % SLOTS, y - x);
  }

  /**
   The sampled counter counts 312 us, the conversions take a unit as 2 us. Converting the time of a
   later sample with an earlier one as reference gives the counter of the later sample if and only
   if the two scales happen to agree over the distance.
   */
  lemma CountersAgreeExactlyWhen(a: nat, b: nat)
    requires a <= b && b - a < 0x8000_0000
    ensures ToBts(Ref(a), Ref(b).coarse, Ref(b).fine) == Ref(b).bts <==> ((b - a) / 2 - (b / 312 - a / 312)) % WORD == 0
  {
    SampleDistance(a, b);
    var x, y, h := a / 312, b / 312, (b - a) / 2;
    assert ToBts(Ref(a), Ref(b).coarse, Ref(b).fine) == (x % WORD + h) % WORD;
    SameResidue(x % WORD + h, y);
    assert x == x / WORD * WORD + x % WORD;
    assert x % WORD + h - y == (h - (y - x)) + (-(x / WORD)) * WORD;
    WordAny(h - (y - x), -(x / WORD));
  }

  lemma WordAny(k: int, q: int)
    ensures (k + q * WORD) % WORD == k % WORD
  {
  }

  lemma SameResidue(u: int, v: int)
    ensures u % WORD == v % WORD <==> (u - v) % WORD == 0
  {
    assert u - v == (u % WORD - v % WORD) + (u / WORD - v / WORD) * WORD;
    WordAny(u % WORD - v % WORD, u / WORD - v / WORD);
  }

  lemma UnitsApart(a: nat, b: nat)
    requires a + 4 <= b && b - a < 0x8000_0000
    ensures 0 < (b - a) / 2 - (b / 312 - a / 312) < WORD
  {
    assert 312 * (b / 312 - a / 312) <= b - a + 311;
  }

  /** Four microseconds apart or more, they never do. */
  lemma CountersDisagree(a: nat, b: nat)
    requires a + 4 <= b && b - a < 0x8000_0000
    ensures ToBts(Ref(a), Ref(b).coarse, Ref(b).fine) != Ref(b).bts
  {
    UnitsApart(a, b);
    NotWhole((b - a) / 2 - (b / 312 - a / 312));
    CountersAgreeExactlyWhen(a, b);
  }

  lemma NotWhole(x: int)
    requires 0 < x < WORD
    ensures x % WORD != 0
  {
  }

  /** Two samples one unit of the sampled counter apart. */
  lemma OneUnitIsNotOneUnit()
    ensures Ref(312).bts == Ref(0).bts + 1
    ensures ToBts(Ref(0), Ref(312).coarse, Ref(312).fine) == Ref(0).bts + 156
  {
    SampleDistance(0, 312);
  }
}
