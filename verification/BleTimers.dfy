/**
 The BLE controller's three one-shot timers: armed with a slot time, polled by the interrupt
 handler, disarmed before their callback runs. Every execution of the handler is a sequence
 of looks at single timers, and the theorems are about every such sequence.
 */
module BleTimers {
  import opened MachineWord
  import opened BleTime

  datatype Target = Target(coarse: int, fine: int)

  datatype Which = Arb | Alarm | Co

  /** A `rwip_timer_*_set` made by a callback. */
  datatype Arming = Arming(which: Which, target: Target)

  datatype Timers = Timers(arb: Target, alarm: Target, co: Target) {
    function Set(a: Arming): Timers {
      match a.which
      case Arb => this.(arb := a.target)
      case Alarm => this.(alarm := a.target)
      case Co => this.(co := a.target)
    }

    function Get(which: Which): Target {
      match which
      case Arb => arb
      case Alarm => alarm
      case Co => co
    }
  }

  /** The slot time of `us` microseconds. */
  function Slots(us: nat): Target {
    Target(us / SLOT % SLOTS, us % SLOT)
  }

  function SetAll(t: Timers, armings: seq<Arming>): Timers {
    if armings == [] then t else SetAll(t, armings[..|armings| - 1]).Set(armings[|armings| - 1])
  }

  predicate Expired(t: Target, us: nat) {
    Reached(t.coarse, t.fine, us)
  }

  /** One test of the interrupt handler: disarm first, then call back. */
  function Polled(t: Timers, which: Which, us: nat, callback: seq<Arming>): Timers {
    if Expired(t.Get(which), us) then SetAll(t.Set(Arming(which, Target(DISARMED, t.Get(which).fine))), callback) else t
  }

  lemma {:induction false} LastArmingWins(t: Timers, armings: seq<Arming>, k: nat)
    requires LastFor(armings, k)
    ensures SetAll(t, armings).Get(armings[k].which) == armings[k].target
  {
    var n := |armings| - 1;
    if k < n {
      LastArmingWins(t, armings[..n], k);
      assert armings[n].which != armings[k].which;
    }
  }

  /** Arming k is the last one for its timer. */
  predicate LastFor(armings: seq<Arming>, k: nat) {
    k < |armings| && forall i :: k < i < |armings| ==> armings[i].which != armings[k].which
  }

  /**
   A timer armed by the callback of the timer that fired, that timer itself included, holds the
   new target afterwards: the disarming has come before.
   */
  lemma RearmingIsKept(t: Timers, which: Which, us: nat, callback: seq<Arming>, k: nat)
    requires Expired(t.Get(which), us) && LastFor(callback, k)
    ensures Polled(t, which, us, callback).Get(callback[k].which) == callback[k].target
  {
    LastArmingWins(t.Set(Arming(which, Target(DISARMED, t.Get(which).fine))), callback, k);
  }

  lemma {:induction false} SetAllOthers(t: Timers, armings: seq<Arming>, which: Which)
    requires forall a :: a in armings ==> a.which != which
    ensures SetAll(t, armings).Get(which) == t.Get(which)
  {
    if armings != [] {
      var n := |armings| - 1;
      SetAllOthers(t, armings[..n], which);
      assert armings[n] in armings;
    }
  }

  // ---- sequences of tests and armings ----

  /** One test of the handler, with what the callback would arm. */
  datatype Look = Look(which: Which, us: nat, callback: seq<Arming>)

  /** What can happen to the timers: the handler tests one, or somebody arms one. */
  datatype Step = Test(look: Look) | Arm(arming: Arming)

  function Stepped(t: Timers, s: Step): Timers {
    match s
    case Test(l) => Polled(t, l.which, l.us, l.callback)
    case Arm(a) => t.Set(a)
  }

  /** The timers after some steps. */
  function After(t: Timers, steps: seq<Step>): Timers {
    if steps == [] then t else Stepped(After(t, steps[..|steps| - 1]), steps[|steps| - 1])
  }

  /** Step j tests timer w. */
  predicate Tests(steps: seq<Step>, j: nat, w: Which) {
    j < |steps| && steps[j].Test? && steps[j].look.which == w
  }

  /** Step j is a test that finds its timer expired. */
  predicate Fires(t: Timers, steps: seq<Step>, j: nat)
    requires j < |steps|
  {
    steps[j].Test? && Expired(After(t, steps[..j]).Get(steps[j].look.which), steps[j].look.us)
  }

  lemma {:induction false} AfterConcat(t: Timers, a: seq<Step>, b: seq<Step>)
    ensures After(t, a + b) == After(After(t, a), b)
    decreases |b|
  {
    if b == [] {
      assert a + b == a;
    } else {
      var n := |b| - 1;
      AfterConcat(t, a, b[..n]);
      assert (a + b)[..|a| + n] == a + b[..n];
    }
  }

  /** Step j, if it is an arming or a test that fires, leaves w unarmed. */
  ghost predicate Spares(t: Timers, steps: seq<Step>, j: nat, w: Which)
    requires j < |steps|
  {
    match steps[j]
    case Arm(a) => a.which != w
    case Test(l) => Fires(t, steps, j) ==> forall a :: a in l.callback ==> a.which != w
  }

  /** Neither from outside nor by a callback that runs is w armed. */
  ghost predicate NotRearmed(t: Timers, steps: seq<Step>, w: Which) {
    forall j :: 0 <= j < |steps| ==> Spares(t, steps, j, w)
  }

  /** Some test of w came at a time of the given kind. */
  ghost predicate Tested(steps: seq<Step>, w: Which, kind: nat -> bool) {
    exists j :: 0 <= j < |steps| && Tests(steps, j, w) && kind(steps[j].look.us)
  }

  function ExpiredFor(x: Target): nat -> bool {
    (us: nat) => Expired(x, us)
  }

  function AtOrAfter(target: nat): nat -> bool {
    (us: nat) => us >= target
  }

  lemma TestedStep(steps: seq<Step>, w: Which, kind: nat -> bool)
    requires steps != []
    ensures var n := |steps| - 1;
            Tested(steps, w, kind) <==> Tested(steps[..n], w, kind) || (Tests(steps, n, w) && kind(steps[n].look.us))
  {
    var n := |steps| - 1;
    if j :| 0 <= j < n && Tests(steps[..n], j, w) && kind(steps[..n][j].look.us) {
      assert Tests(steps, j, w) && kind(steps[j].look.us);
    }
    if j :| 0 <= j < |steps| && Tests(steps, j, w) && kind(steps[j].look.us) {
      assert j < n ==> Tests(steps[..n], j, w);
    }
  }

  lemma Prefix(t: Timers, steps: seq<Step>, w: Which, n: nat)
    requires NotRearmed(t, steps, w) && n <= |steps|
    ensures NotRearmed(t, steps[..n], w)
  {
    forall j | 0 <= j < n ensures Spares(t, steps[..n], j, w) {
      assert steps[..n][..j] == steps[..j];
      assert Spares(t, steps, j, w);
    }
  }

  /** A test of another timer leaves w alone; a test of w disarms it if it has expired. */
  lemma OneLook(t: Timers, l: Look, w: Which)
    requires Expired(t.Get(l.which), l.us) ==> forall a :: a in l.callback ==> a.which != w
    ensures var u := Polled(t, l.which, l.us, l.callback).Get(w);
            u == if l.which == w && Expired(t.Get(w), l.us) then Target(DISARMED, t.Get(w).fine) else t.Get(w)
  {
    if Expired(t.Get(l.which), l.us) {
      SetAllOthers(t.Set(Arming(l.which, Target(DISARMED, t.Get(l.which).fine))), l.callback, w);
    }
  }

  /**
   However seldom or often it is tested: while nothing arms it, a timer holds its target until a test
   finds it expired, and is off from then on.
   */
  lemma {:induction false} HeldUntilExpired(t: Timers, w: Which, steps: seq<Step>)
    requires NotRearmed(t, steps, w)
    ensures After(t, steps).Get(w) ==
            if Tested(steps, w, ExpiredFor(t.Get(w))) then Target(DISARMED, t.Get(w).fine) else t.Get(w)
    decreases |steps|
  {
    if steps != [] {
      var n := |steps| - 1;
      Prefix(t, steps, w, n);
      HeldUntilExpired(t, w, steps[..n]);
      TestedStep(steps, w, ExpiredFor(t.Get(w)));
      assert Spares(t, steps, n, w);
      if steps[n].Test? {
        OneLook(After(t, steps[..n]), steps[n].look, w);
      }
    }
  }

  /**
   One-shot, whatever the polling: a test fires the timer exactly when it finds the timer's own target
   expired in circular order and no earlier test did.
   */
  lemma {:induction false} FiresExactlyOnce(t: Timers, w: Which, steps: seq<Step>, j: nat)
    requires NotRearmed(t, steps, w) && Tests(steps, j, w)
    ensures Fires(t, steps, j) <==>
            Expired(t.Get(w), steps[j].look.us) && !Tested(steps[..j], w, ExpiredFor(t.Get(w)))
  {
    Prefix(t, steps, w, j);
    HeldUntilExpired(t, w, steps[..j]);
  }

  /** A timer that fired and was not armed again never fires. */
  lemma FiredStaysOff(t: Timers, w: Which, steps: seq<Step>, i: nat, j: nat)
    requires NotRearmed(t, steps, w) && Tests(steps, i, w) && Tests(steps, j, w) && i != j && Fires(t, steps, i)
    ensures !Fires(t, steps, j)
  {
    if i < j {
      SilentAfter(t, w, steps, i, j);
    } else if Fires(t, steps, j) {
      SilentAfter(t, w, steps, j, i);
    }
  }

  lemma SilentAfter(t: Timers, w: Which, steps: seq<Step>, i: nat, j: nat)
    requires NotRearmed(t, steps, w) && Tests(steps, i, w) && Tests(steps, j, w) && i < j && Fires(t, steps, i)
    ensures !Fires(t, steps, j)
  {
    FiresExactlyOnce(t, w, steps, i);
    FiresExactlyOnce(t, w, steps, j);
    assert Tests(steps[..j], i, w) && ExpiredFor(t.Get(w))(steps[..j][i].look.us);
  }

  // ---- tested often enough ----

  predicate Soon(before: nat, us: nat) {
    before <= us && us / SLOT - before / SLOT < HALF_SLOTS
  }

  /** When timer w was last tested, counting from `start`. */
  function LastTest(start: nat, steps: seq<Step>, w: Which): nat {
    if steps == [] then start
    else if Tests(steps, |steps| - 1, w) then steps[|steps| - 1].look.us
    else LastTest(start, steps[..|steps| - 1], w)
  }

  /** Each test of w comes after the one before, and less than 2^27 slots later. */
  ghost predicate TestedOften(start: nat, steps: seq<Step>, w: Which) {
    forall j :: 0 <= j < |steps| && Tests(steps, j, w) ==> Soon(LastTest(start, steps[..j], w), steps[j].look.us)
  }

  /** Armed at `start` for a time at most 2^27 slots ahead. */
  predicate Ahead(start: nat, target: nat) {
    start <= target && target / SLOT - start / SLOT <= HALF_SLOTS
  }

  lemma OftenPrefix(start: nat, steps: seq<Step>, w: Which, n: nat)
    requires TestedOften(start, steps, w) && n <= |steps|
    ensures TestedOften(start, steps[..n], w)
  {
    forall j | 0 <= j < n && Tests(steps[..n], j, w)
      ensures Soon(LastTest(start, steps[..n][..j], w), steps[..n][j].look.us)
    {
      assert steps[..n][..j] == steps[..j] && Tests(steps, j, w);
    }
  }

  /** A test soon after a time not past the target sees whether the target has passed. */
  lemma DecidedInTime(start: nat, before: nat, us: nat, target: nat)
    requires Ahead(start, target) && start <= before <= target && Soon(before, us)
    ensures Expired(Slots(target), us) <==> us >= target
  {
    SlotOrder(start, us);
    SlotOrder(before, target);
    ReachedIsPassed(target, us);
  }

  /** Tested often enough, a target is found expired by some test exactly when some test has passed it. */
  lemma {:induction false} ExpiredIsPassed(start: nat, target: nat, steps: seq<Step>, w: Which)
    requires Ahead(start, target) && TestedOften(start, steps, w)
    ensures Tested(steps, w, ExpiredFor(Slots(target))) <==> Tested(steps, w, AtOrAfter(target))
    ensures start <= LastTest(start, steps, w)
    ensures !Tested(steps, w, AtOrAfter(target)) ==> LastTest(start, steps, w) <= target
    decreases |steps|
  {
    if steps != [] {
      var n := |steps| - 1;
      OftenPrefix(start, steps, w, n);
      ExpiredIsPassed(start, target, steps[..n], w);
      TestedStep(steps, w, ExpiredFor(Slots(target)));
      TestedStep(steps, w, AtOrAfter(target));
      if Tests(steps, n, w) && !Tested(steps[..n], w, AtOrAfter(target)) {
        DecidedInTime(start, LastTest(start, steps[..n], w), steps[n].look.us, target);
      }
    }
  }

  /** Then the timer keeps its target until a test comes at or after it, and is off from then on. */
  lemma ArmedUntilPassed(t: Timers, w: Which, start: nat, target: nat, steps: seq<Step>)
    requires t.Get(w) == Slots(target) && Ahead(start, target)
    requires TestedOften(start, steps, w) && NotRearmed(t, steps, w)
    ensures After(t, steps).Get(w) ==
            if Tested(steps, w, AtOrAfter(target)) then Target(DISARMED, target % SLOT) else Slots(target)
  {
    HeldUntilExpired(t, w, steps);
    ExpiredIsPassed(start, target, steps, w);
  }

  /** And exactly the first test at or after the target fires. */
  lemma {:induction false} FiresAtFirstTestAfter(t: Timers, w: Which, start: nat, target: nat, steps: seq<Step>, j: nat)
    requires t.Get(w) == Slots(target) && Ahead(start, target)
    requires TestedOften(start, steps, w) && NotRearmed(t, steps, w) && Tests(steps, j, w)
    ensures Fires(t, steps, j) <==> steps[j].look.us >= target && !Tested(steps[..j], w, AtOrAfter(target))
  {
    FiresExactlyOnce(t, w, steps, j);
    OftenPrefix(start, steps, w, j);
    ExpiredIsPassed(start, target, steps[..j], w);
    if !Tested(steps[..j], w, AtOrAfter(target)) {
      DecidedInTime(start, LastTest(start, steps[..j], w), steps[j].look.us, target);
    }
  }

  // ---- armings inside a run ----

  /** Step i arms w with x: from outside, or as the last word of a callback that runs. */
  ghost predicate ArmedBy(t: Timers, steps: seq<Step>, i: nat, w: Which, x: Target)
    requires i < |steps|
  {
    match steps[i]
    case Arm(a) => a == Arming(w, x)
    case Test(l) => Fires(t, steps, i) && exists k: nat :: LastFor(l.callback, k) && l.callback[k] == Arming(w, x)
  }

  lemma ArmingHolds(t: Timers, steps: seq<Step>, i: nat, w: Which, x: Target)
    requires i < |steps| && ArmedBy(t, steps, i, w, x)
    ensures After(t, steps[..i + 1]).Get(w) == x
  {
    assert steps[..i + 1][..i] == steps[..i];
    if steps[i].Test? {
      var l := steps[i].look;
      var k: nat :| LastFor(l.callback, k) && l.callback[k] == Arming(w, x);
      RearmingIsKept(After(t, steps[..i]), l.which, l.us, l.callback, k);
    }
  }

  lemma FiresInTail(t: Timers, steps: seq<Step>, i: nat, j: nat)
    requires i < j < |steps|
    ensures Fires(t, steps, j) == Fires(After(t, steps[..i + 1]), steps[i + 1..], j - i - 1)
  {
    TailSplit(steps, i + 1, j);
    AfterConcat(t, steps[..i + 1], steps[i + 1..][..j - i - 1]);
  }

  lemma TailSplit(steps: seq<Step>, i: nat, j: nat)
    requires i <= j <= |steps|
    ensures steps[i..][..j - i] == steps[i..j] && steps[..i] + steps[i..j] == steps[..j]
  {
  }

  /**
   Every arming, made by whom and when ever, begins a period of its own: after it exactly the first test
   that finds its target expired fires, until w is armed again.
   */
  lemma {:induction false} ArmingStartsAnew(t: Timers, steps: seq<Step>, i: nat, w: Which, x: Target, j: nat)
    requires i < j && Tests(steps, j, w) && ArmedBy(t, steps, i, w, x)
    requires NotRearmed(After(t, steps[..i + 1]), steps[i + 1..], w)
    ensures Fires(t, steps, j) <==> Expired(x, steps[j].look.us) && !Tested(steps[i + 1..j], w, ExpiredFor(x))
  {
    var u, rest := After(t, steps[..i + 1]), steps[i + 1..];
    ArmingHolds(t, steps, i, w, x);
    FiresInTail(t, steps, i, j);
    TailSlice(steps, i + 1, j, w);
    FiresExactlyOnce(u, w, rest, j - i - 1);
  }

  lemma {:induction false} TailSlice(steps: seq<Step>, i: nat, j: nat, w: Which)
    requires i <= j && Tests(steps, j, w)
    ensures Tests(steps[i..], j - i, w) && steps[i..][..j - i] == steps[i..j]
  {
    assert steps[i..][..j - i] == steps[i..j];
  }

  /** Tested often enough from the arming on, that is the first test at or after the target. */
  lemma {:induction false} RearmingStartsAnew(t: Timers, steps: seq<Step>, i: nat, w: Which, start: nat, target: nat,
                                              j: nat)
    requires i < j && Tests(steps, j, w) && ArmedBy(t, steps, i, w, Slots(target)) && Ahead(start, target)
    requires NotRearmed(After(t, steps[..i + 1]), steps[i + 1..], w) && TestedOften(start, steps[i + 1..], w)
    ensures Fires(t, steps, j) <==> steps[j].look.us >= target && !Tested(steps[i + 1..j], w, AtOrAfter(target))
  {
    var u, rest := After(t, steps[..i + 1]), steps[i + 1..];
    ArmingHolds(t, steps, i, w, Slots(target));
    FiresInTail(t, steps, i, j);
    TailSlice(steps, i + 1, j, w);
    FiresAtFirstTestAfter(u, w, start, target, rest, j - i - 1);
  }

  // ---- calls of the handler and of the setters ----

  /** One call of the handler. */
  datatype Pass = Pass(us0: nat, us1: nat, us2: nat, onArb: seq<Arming>, onAlarm: seq<Arming>)

  function Looks(p: Pass): (steps: seq<Step>)
    ensures |steps| == 3
  {
    [Test(Look(Arb, p.us0, p.onArb)), Test(Look(Alarm, p.us1, p.onAlarm)), Test(Look(Co, p.us2, []))]
  }

  /** The arbiter's callback arms the alarm: the test of the alarm in the same call already counts. */
  lemma AlarmArmedInTheSamePass(t: Timers, p: Pass, k: nat, target: nat)
    requires Expired(t.arb, p.us0) && LastFor(p.onArb, k) && p.onArb[k] == Arming(Alarm, Slots(target))
    requires Ahead(p.us0, target) && Soon(p.us0, p.us1)
    ensures Fires(t, Looks(p), 1) <==> p.us1 >= target
    ensures p.us1 < target ==> After(t, Looks(p)[..2]).alarm == Slots(target)
  {
    var looks := Looks(p);
    assert looks[..0] == [] && looks[..1][..0] == [] && looks[..2][..1] == looks[..1];
    assert After(t, looks[..1]) == Polled(t, Arb, p.us0, p.onArb);
    RearmingIsKept(t, Arb, p.us0, p.onArb, k);
    DecidedInTime(p.us0, p.us0, p.us1, target);
    assert looks[1].look.which == Alarm && looks[..2][1] == looks[1];
  }

  /** What timer w holds after the armings of a callback: the last one made for it, or what it held. */
  function LastSet(armings: seq<Arming>, w: Which, held: Target): Target {
    if armings == [] then held
    else if armings[|armings| - 1].which == w then armings[|armings| - 1].target
    else LastSet(armings[..|armings| - 1], w, held)
  }

  lemma {:induction false} LastSetIsHeld(t: Timers, armings: seq<Arming>, w: Which)
    ensures SetAll(t, armings).Get(w) == LastSet(armings, w, t.Get(w))
  {
    if armings != [] {
      LastSetIsHeld(t, armings[..|armings| - 1], w);
    }
  }

  lemma {:induction false} LastSetIsLast(armings: seq<Arming>, k: nat, held: Target)
    requires LastFor(armings, k)
    ensures LastSet(armings, armings[k].which, held) == armings[k].target
  {
    var n := |armings| - 1;
    if k < n {
      assert armings[n].which != armings[k].which;
      LastSetIsLast(armings[..n], k, held);
    }
  }

  lemma {:induction false} LastSetOthers(armings: seq<Arming>, w: Which, held: Target)
    requires forall a :: a in armings ==> a.which != w
    ensures LastSet(armings, w, held) == held
  {
    if armings != [] {
      var n := |armings| - 1;
      assert armings[n] in armings;
      LastSetOthers(armings[..n], w, held);
    }
  }

  /** The target the alarm timer holds when its turn comes. */
  function AlarmHeld(t: Timers, p: Pass, arb: bool): Target {
    if arb then LastSet(p.onArb, Alarm, t.alarm) else t.alarm
  }

  /** The target the third timer holds when its turn comes. */
  function CoHeld(t: Timers, p: Pass, arb: bool, alarm: bool): Target {
    var held := if arb then LastSet(p.onArb, Co, t.co) else t.co;
    if alarm then LastSet(p.onAlarm, Co, held) else held
  }

  /** What one call does, timer by timer: u is left of t when `arb`, `alarm` and `co` have fired. */
  ghost predicate Called(t: Timers, p: Pass, u: Timers, arb: bool, alarm: bool, co: bool) {
    && (arb <==> Expired(t.arb, p.us0))
    && (alarm <==> Expired(AlarmHeld(t, p, arb), p.us1))
    && (co <==> Expired(CoHeld(t, p, arb, alarm), p.us2))
    && (var held := if arb then LastSet(p.onArb, Arb, Target(0xFFFF_FFFF, t.arb.fine)) else t.arb;
        u.arb == if alarm then LastSet(p.onAlarm, Arb, held) else held)
    && (var held := AlarmHeld(t, p, arb);
        u.alarm == if alarm then LastSet(p.onAlarm, Alarm, Target(0xFFFF_FFFF, held.fine)) else held)
    && (var held := CoHeld(t, p, arb, alarm);
        u.co == if co then Target(0xFFFF_FFFF, held.fine) else held)
  }

  /**
   The callbacks' armings last: the alarm's unless the third timer fired after it, the arbiter's unless undone later.
   */
  ghost predicate ArmingsLast(p: Pass, u: Timers, arb: bool, alarm: bool, co: bool) {
    && (forall k :: 0 <= k < |p.onAlarm| && alarm && LastFor(p.onAlarm, k) && !(p.onAlarm[k].which.Co? && co) ==>
          u.Get(p.onAlarm[k].which) == p.onAlarm[k].target)
    && (forall k :: (0 <= k < |p.onArb| && arb && LastFor(p.onArb, k) && !(p.onArb[k].which.Alarm? && alarm)
                     && !(p.onArb[k].which.Co? && co)
                     && (alarm ==> forall a :: a in p.onAlarm ==> a.which != p.onArb[k].which)) ==>
          u.Get(p.onArb[k].which) == p.onArb[k].target)
  }

  lemma {:induction false} OneCall(t: Timers, p: Pass)
    ensures var looks := Looks(p);
            Called(t, p, After(t, looks), Fires(t, looks, 0), Fires(t, looks, 1), Fires(t, looks, 2))
  {
    var looks := Looks(p);
    assert looks[..0] == [] && looks[..1][..0] == [] && looks[..2][..1] == looks[..1];
    assert looks[..3] == looks && looks[..3][..2] == looks[..2];
    assert looks[..1][0] == looks[0] && looks[..2][1] == looks[1];
    var t1, t2 := After(t, looks[..1]), After(t, looks[..2]);
    assert After(t, looks[..0]) == t && t1 == Stepped(After(t, looks[..0]), looks[0]);
    assert t1 == Polled(t, Arb, p.us0, p.onArb) && t2 == Polled(t1, Alarm, p.us1, p.onAlarm);
    assert After(t, looks) == Polled(t2, Co, p.us2, []);
    PolledHolds(t, Arb, p.us0, p.onArb);
    PolledHolds(t1, Alarm, p.us1, p.onAlarm);
    PolledHolds(t2, Co, p.us2, []);
  }

  /** One test, timer by timer. */
  lemma {:induction false} PolledHolds(t: Timers, which: Which, us: nat, callback: seq<Arming>)
    ensures var u := Polled(t, which, us, callback);
            forall w :: u.Get(w) ==
              if !Expired(t.Get(which), us) then t.Get(w)
              else LastSet(callback, w, if w == which then Target(DISARMED, t.Get(w).fine) else t.Get(w))
  {
    if Expired(t.Get(which), us) {
      var v := t.Set(Arming(which, Target(DISARMED, t.Get(which).fine)));
      forall w ensures SetAll(v, callback).Get(w) == LastSet(callback, w, v.Get(w)) {
        LastSetIsHeld(v, callback, w);
      }
    }
  }

  lemma {:induction false} CalledArmingsLast(t: Timers, p: Pass, u: Timers, arb: bool, alarm: bool, co: bool)
    requires Called(t, p, u, arb, alarm, co)
    ensures ArmingsLast(p, u, arb, alarm, co)
  {
    forall k, held | 0 <= k < |p.onAlarm| && LastFor(p.onAlarm, k)
      ensures LastSet(p.onAlarm, p.onAlarm[k].which, held) == p.onAlarm[k].target
    {
      LastSetIsLast(p.onAlarm, k, held);
    }
    forall k, held | 0 <= k < |p.onArb| && LastFor(p.onArb, k)
      ensures LastSet(p.onArb, p.onArb[k].which, held) == p.onArb[k].target
    {
      LastSetIsLast(p.onArb, k, held);
    }
    forall w, held | forall a :: a in p.onAlarm ==> a.which != w ensures LastSet(p.onAlarm, w, held) == held {
      LastSetOthers(p.onAlarm, w, held);
    }
  }

  /** The handler is called, or one of the `rwip_timer_*_set` functions from outside it. */
  datatype Event = Call(pass: Pass) | Set(arming: Arming)

  function StepsOf(e: Event): seq<Step> {
    match e
    case Call(p) => Looks(p)
    case Set(a) => [Arm(a)]
  }

  function AllSteps(events: seq<Event>): seq<Step> {
    if events == [] then [] else AllSteps(events[..|events| - 1]) + StepsOf(events[|events| - 1])
  }

  lemma {:induction false} OneMore(t: Timers, events: seq<Event>, n: nat)
    requires n < |events|
    ensures After(t, AllSteps(events[..n + 1])) == After(After(t, AllSteps(events[..n])), StepsOf(events[n]))
  {
    assert events[..n + 1][..n] == events[..n];
    AfterConcat(t, AllSteps(events[..n]), StepsOf(events[n]));
  }

  /** The place of a timer's test in one call. */
  function Place(w: Which): (k: nat)
    ensures k < 3
  {
    match w
    case Arb => 0
    case Alarm => 1
    case Co => 2
  }

  function TimeOf(p: Pass, w: Which): nat {
    Looks(p)[Place(w)].look.us
  }

  /** Where the test of w in call n stands. */
  function At(events: seq<Event>, n: nat, w: Which): nat
    requires n <= |events|
  {
    |AllSteps(events[..n])| + Place(w)
  }

  /** The steps up to the k-th of event n. */
  lemma {:induction false} StepsUpTo(events: seq<Event>, n: nat, k: nat)
    requires n < |events| && k <= |StepsOf(events[n])|
    ensures |AllSteps(events[..n])| + |StepsOf(events[n])| <= |AllSteps(events)|
    ensures AllSteps(events)[..|AllSteps(events[..n])| + k] == AllSteps(events[..n]) + StepsOf(events[n])[..k]
    ensures k < |StepsOf(events[n])| ==> AllSteps(events)[|AllSteps(events[..n])| + k] == StepsOf(events[n])[k]
    decreases |events|
  {
    StepsBegin(events, n);
    var head, steps := AllSteps(events[..n]), StepsOf(events[n]);
    PrefixOfPrefix(AllSteps(events), head, steps, k);
  }

  /** The steps of the first events, then those of the next. */
  lemma {:induction false} StepsBegin(events: seq<Event>, n: nat)
    requires n < |events|
    ensures AllSteps(events[..n]) + StepsOf(events[n]) <= AllSteps(events)
    decreases |events|
  {
    var m := |events| - 1;
    if n < m {
      StepsBegin(events[..m], n);
      assert events[..m][..n] == events[..n];
    }
  }

  lemma {:induction false} PrefixOfPrefix(all: seq<Step>, head: seq<Step>, steps: seq<Step>, k: nat)
    requires head + steps <= all && k <= |steps|
    ensures all[..|head| + k] == head + steps[..k]
    ensures k < |steps| ==> all[|head| + k] == steps[k]
  {
    assert all[..|head| + k] == (head + steps)[..|head| + k];
    assert k < |steps| ==> all[|head| + k] == (head + steps)[|head| + k];
  }

  /** In call n, the test of w and nothing else of w before it. */
  lemma TestInCall(events: seq<Event>, n: nat, w: Which, steps: seq<Step>, j: nat)
    requires steps == AllSteps(events) && n < |events| && events[n].Call? && j == At(events, n, w)
    ensures Tests(steps, j, w) && steps[j].look.us == TimeOf(events[n].pass, w)
    ensures steps[..j] == AllSteps(events[..n]) + Looks(events[n].pass)[..Place(w)]
  {
    StepsUpTo(events, n, Place(w));
  }

  /** Some call before n tested w at a time of the given kind. */
  ghost predicate CalledBefore(events: seq<Event>, w: Which, kind: nat -> bool, n: nat)
    requires n <= |events|
  {
    exists i :: 0 <= i < n && events[i].Call? && kind(TimeOf(events[i].pass, w))
  }

  lemma CalledStep(events: seq<Event>, w: Which, kind: nat -> bool, n: nat)
    requires 0 < n <= |events|
    ensures CalledBefore(events, w, kind, n) <==>
            CalledBefore(events, w, kind, n - 1) || (events[n - 1].Call? && kind(TimeOf(events[n - 1].pass, w)))
  {
  }

  /** Tests among a call's first k. */
  lemma {:induction false} TestedInLooks(head: seq<Step>, p: Pass, w: Which, kind: nat -> bool, k: nat)
    requires k <= 3
    ensures Tested(head + Looks(p)[..k], w, kind) <==> Tested(head, w, kind) || (Place(w) < k && kind(TimeOf(p, w)))
    decreases k
  {
    var all := head + Looks(p)[..k];
    if k == 0 {
      assert all == head;
    } else {
      TestedInLooks(head, p, w, kind, k - 1);
      TestedStep(all, w, kind);
      assert all[..|all| - 1] == head + Looks(p)[..k - 1] && all[|all| - 1] == Looks(p)[k - 1];
    }
  }

  lemma {:induction false} TestedIsCalled(events: seq<Event>, w: Which, kind: nat -> bool, n: nat)
    requires n <= |events|
    ensures Tested(AllSteps(events[..n]), w, kind) <==> CalledBefore(events, w, kind, n)
    decreases n
  {
    if n > 0 {
      var head, e := AllSteps(events[..n - 1]), events[n - 1];
      TestedIsCalled(events, w, kind, n - 1);
      CalledStep(events, w, kind, n);
      assert events[..n][..n - 1] == events[..n - 1];
      if e.Call? {
        TestedInLooks(head, e.pass, w, kind, 3);
        assert Looks(e.pass)[..3] == Looks(e.pass);
      } else {
        var all := head + [Arm(e.arming)];
        TestedStep(all, w, kind);
        assert all[..|all| - 1] == head;
      }
    }
  }

  lemma {:induction false} TestedBeforeCall(events: seq<Event>, w: Which, kind: nat -> bool, n: nat, steps: seq<Step>,
                                            j: nat)
    requires steps == AllSteps(events) && n < |events| && events[n].Call? && j == At(events, n, w)
    ensures Tests(steps, j, w) && steps[j].look.us == TimeOf(events[n].pass, w)
    ensures Tested(steps[..j], w, kind) <==> CalledBefore(events, w, kind, n)
  {
    TestInCall(events, n, w, steps, j);
    TestedInLooks(AllSteps(events[..n]), events[n].pass, w, kind, Place(w));
    TestedIsCalled(events, w, kind, n);
  }

  /**
   The timer over any history of handler calls and setters, called seldom or often: call n fires it exactly
   when it is the first whose test finds the timer's target expired.
   */
  lemma {:induction false} HandlerFiresOnce(t: Timers, w: Which, events: seq<Event>, n: nat, steps: seq<Step>, j: nat)
    requires steps == AllSteps(events) && n < |events| && events[n].Call? && j == At(events, n, w)
    requires NotRearmed(t, steps, w)
    ensures Tests(steps, j, w)
    ensures Fires(t, steps, j) <==>
            Expired(t.Get(w), TimeOf(events[n].pass, w)) && !CalledBefore(events, w, ExpiredFor(t.Get(w)), n)
  {
    TestedBeforeCall(events, w, ExpiredFor(t.Get(w)), n, steps, j);
    FiresExactlyOnce(t, w, steps, j);
  }

  /** When w was last tested by a call, counting from `start`. */
  function LastCall(start: nat, events: seq<Event>, w: Which): nat {
    if events == [] then start
    else if events[|events| - 1].Call? then TimeOf(events[|events| - 1].pass, w)
    else LastCall(start, events[..|events| - 1], w)
  }

  /** The handler is called often enough for w. */
  ghost predicate CalledOften(start: nat, events: seq<Event>, w: Which) {
    forall n :: 0 <= n < |events| && events[n].Call? ==>
      Soon(LastCall(start, events[..n], w), TimeOf(events[n].pass, w))
  }

  lemma {:induction false} LastTestInLooks(start: nat, head: seq<Step>, p: Pass, w: Which, k: nat)
    requires k <= 3
    ensures LastTest(start, head + Looks(p)[..k], w) == if Place(w) < k then TimeOf(p, w) else LastTest(start, head, w)
    decreases k
  {
    var all := head + Looks(p)[..k];
    if k == 0 {
      assert all == head;
    } else {
      LastTestInLooks(start, head, p, w, k - 1);
      assert all[..|all| - 1] == head + Looks(p)[..k - 1] && all[|all| - 1] == Looks(p)[k - 1];
    }
  }

  lemma {:induction false} LastTestIsLastCall(start: nat, events: seq<Event>, w: Which)
    ensures LastTest(start, AllSteps(events), w) == LastCall(start, events, w)
  {
    if events != [] {
      var m := |events| - 1;
      var head, e := AllSteps(events[..m]), events[m];
      LastTestIsLastCall(start, events[..m], w);
      if e.Call? {
        LastTestInLooks(start, head, e.pass, w, 3);
        assert Looks(e.pass)[..3] == Looks(e.pass);
      } else {
        var all := head + [Arm(e.arming)];
        assert all[..|all| - 1] == head;
      }
    }
  }

  /** A test of w among the steps is the one of some call. */
  lemma {:induction false} TestIsInCall(events: seq<Event>, w: Which, j: nat) returns (n: nat)
    requires Tests(AllSteps(events), j, w)
    ensures n < |events| && events[n].Call? && j == At(events, n, w)
    decreases |events|
  {
    var m := |events| - 1;
    var head := AllSteps(events[..m]);
    if j < |head| {
      n := TestIsInCall(events[..m], w, j);
      assert events[..m][..n] == events[..n];
    } else {
      n := m;
      assert AllSteps(events)[j] == StepsOf(events[m])[j - |head|];
    }
  }

  lemma CallsAreTests(start: nat, events: seq<Event>, w: Which, steps: seq<Step>)
    requires CalledOften(start, events, w) && steps == AllSteps(events)
    ensures TestedOften(start, steps, w)
  {
    forall j | 0 <= j < |steps| && Tests(steps, j, w) ensures Soon(LastTest(start, steps[..j], w), steps[j].look.us) {
      var n := TestIsInCall(events, w, j);
      TestInCall(events, n, w, steps, j);
      LastTestInLooks(start, AllSteps(events[..n]), events[n].pass, w, Place(w));
      LastTestIsLastCall(start, events[..n], w);
    }
  }

  /** Called often enough, it is the first call whose test comes at or after the target. */
  lemma {:induction false} HandlerFiresExactlyOnce(t: Timers, w: Which, start: nat, target: nat, events: seq<Event>,
                                                   n: nat, steps: seq<Step>, j: nat)
    requires steps == AllSteps(events) && n < |events| && events[n].Call? && j == At(events, n, w)
    requires t.Get(w) == Slots(target) && Ahead(start, target)
    requires CalledOften(start, events, w) && NotRearmed(t, steps, w)
    ensures Tests(steps, j, w)
    ensures Fires(t, steps, j) <==>
            TimeOf(events[n].pass, w) >= target && !CalledBefore(events, w, AtOrAfter(target), n)
  {
    CallsAreTests(start, events, w, steps);
    TestedBeforeCall(events, w, AtOrAfter(target), n, steps, j);
    FiresAtFirstTestAfter(t, w, start, target, steps, j);
  }

  /** A test samples the time unless its timer is off. */
  function SampledFor(target: Target, us: nat, reference: Reference): Reference {
    if target.coarse == 0xFFFF_FFFF then reference else Ref(us)
  }

  /** The words of `rwip_env` that hold the reference and the timers. */
  class RwipEnv {
    var reference: Reference
    var timers: Timers

    /** `bleblob_rwip_sample_time` */
    method SampleTime(us: nat)
      modifies this`reference
      ensures reference == Ref(us)
    {
      var coarse := us / 625 % 0x1000_0000;
      var fine := us % 625;
      var bts := us / 312 % 0x1_0000_0000;
      reference := Reference(coarse, fine, bts);
    }

    /** `bleblob_rwip_time_reached`, which samples the time unless the timer is off. */
    method TimeReached(target: Target, us: nat) returns (reached: bool)
      modifies this`reference
      ensures reached <==> Expired(target, us)
      ensures reference == SampledFor(target, us, old(reference))
    {
      if target.coarse == DISARMED { return false; }
      SampleTime(us);
      var delta := (reference.coarse - target.coarse) % SLOTS;
      if delta == 0 { return reference.fine >= target.fine; }
      reached := delta > 0 && delta < HALF_SLOTS;
    }

    /** Everything a callback arms. */
    method Callback(armings: seq<Arming>)
      modifies this`timers
      ensures timers == SetAll(old(timers), armings)
    {
      var i := 0;
      while i < |armings|
        invariant 0 <= i <= |armings| && timers == SetAll(old(timers), armings[..i])
      {
        assert armings[..i + 1][..i] == armings[..i];
        timers := timers.Set(armings[i]);
        i := i + 1;
      }
      assert armings[..i] == armings;
    }

    /** One timer's part of `rwip_isr`. */
    method Poll(which: Which, us: nat, callback: seq<Arming>) returns (fired: bool)
      modifies this
      ensures fired <==> Expired(old(timers).Get(which), us)
      ensures timers == Polled(old(timers), which, us, callback)
      ensures reference == SampledFor(old(timers).Get(which), us, old(reference))
    {
      var target := timers.Get(which);
      fired := TimeReached(target, us);
      if fired {
        timers := timers.Set(Arming(which, Target(DISARMED, target.fine)));
        Callback(callback);
      }
    }

    /** `rwip_isr`: three tests at three successive times; the third only raises a kernel event. */
    method Isr(p: Pass) returns (arb: bool, alarm: bool, co: bool)
      modifies this
      ensures timers == After(old(timers), Looks(p))
      ensures arb == Fires(old(timers), Looks(p), 0)
      ensures alarm == Fires(old(timers), Looks(p), 1)
      ensures co == Fires(old(timers), Looks(p), 2)
      ensures Called(old(timers), p, timers, arb, alarm, co) && ArmingsLast(p, timers, arb, alarm, co)
      ensures reference == SampledFor(CoHeld(old(timers), p, arb, alarm), p.us2,
                                      SampledFor(AlarmHeld(old(timers), p, arb), p.us1,
                                                 SampledFor(old(timers).arb, p.us0, old(reference))))
    {
      ghost var looks := Looks(p);
      assert looks[..0] == [] && looks[..1][..0] == [] && looks[..2][..1] == looks[..1];
      assert looks[..3] == looks && looks[..3][..2] == looks[..2];
      arb := Poll(Arb, p.us0, p.onArb);
      assert timers == After(old(timers), looks[..1]);
      PolledHolds(old(timers), Arb, p.us0, p.onArb);
      PolledHolds(timers, Alarm, p.us1, p.onAlarm);
      alarm := Poll(Alarm, p.us1, p.onAlarm);
      assert timers == After(old(timers), looks[..2]);
      co := Poll(Co, p.us2, []);
      OneCall(old(timers), p);
      CalledArmingsLast(old(timers), p, timers, arb, alarm, co);
    }

    /** `rwip_timer_arb_set` and `rwip_timer_alarm_set`, and the store that ends `rwip_timer_co_set`. */
    method SetTimer(a: Arming)
      modifies this`timers
      ensures timers.arb == if a.which == Arb then a.target else old(timers).arb
      ensures timers.alarm == if a.which == Alarm then a.target else old(timers).alarm
      ensures timers.co == if a.which == Co then a.target else old(timers).co
      ensures timers == old(timers).Set(a)
    {
      match a.which
      case Arb => timers := timers.(arb := a.target);
      case Alarm => timers := timers.(alarm := a.target);
      case Co => timers := timers.(co := a.target);
    }

    /** One call of the handler, or one timer set from outside. */
    method Happen(e: Event) returns (ghost fired: (bool, bool, bool))
      modifies this
      ensures timers == After(old(timers), StepsOf(e))
      ensures e.Call? ==> Called(old(timers), e.pass, timers, fired.0, fired.1, fired.2)
      ensures e.Set? ==> timers == old(timers).Set(e.arming)
    {
      match e
      case Call(p) =>
        var arb, alarm, co := Isr(p);
        fired := (arb, alarm, co);
      case Set(a) =>
        SetTimer(a);
        assert [Arm(a)][..0] == [];
        fired := (false, false, false);
    }

    /** Any history of handler calls and of timers set from outside. */
    method Live(events: seq<Event>)
      modifies this
      ensures timers == After(old(timers), AllSteps(events))
    {
      for n := 0 to |events|
        invariant timers == After(old(timers), AllSteps(events[..n]))
      {
        var _ := Happen(events[n]);
        OneMore(old(timers), events, n);
      }
      assert events[..|events|] == events;
    }

    /** `rwip_bt_time_to_bts` */
    method BtTimeToBts(coarse: int, fine: int) returns (bts: int)
      requires ToFits(reference, coarse, fine)
      ensures bts == ToBts(reference, coarse, fine)
    {
      var coarseDelta := (coarse - reference.coarse) % SLOTS;
      var fineDelta := fine - reference.fine;
      if coarseDelta > 0x07FF_FFFF { coarseDelta := coarseDelta - 0x1000_0000; }
      var halfSlots := Halve(coarseDelta * 625 + fineDelta);
      bts := (reference.bts + halfSlots) % WORD;
    }

    /** `rwip_timer_co_set`: this timer's target is given as a counter value. */
    method SetCo(bts: int)
      requires Sampled(reference) && FromFits(reference, bts)
      modifies this`timers
      ensures timers == old(timers).(co := Target(CoarseOf(reference, bts), FineOf(reference, bts)))
    {
      var coarse, fine := BtsToBtTime(bts);
      timers := timers.(co := Target(coarse, fine));
    }

    /** `rwip_bts_to_bt_time`: the two normalising loops arrive at floor and remainder. */
    method BtsToBtTime(bts: int) returns (coarse: int, fine: int)
      requires Sampled(reference) && FromFits(reference, bts)
      ensures coarse == CoarseOf(reference, bts) && fine == FineOf(reference, bts)
    {
      coarse := reference.coarse;
      var delta := Signed(bts - reference.bts);
      var us := reference.fine + delta * 2;
      ghost var start := us;
      ghost var k := 0;
      while us < 0
        invariant us == start - k * SLOT && coarse == (reference.coarse + k) % SLOTS
        invariant us < SLOT + (if start < 0 then 0 else start)
        decreases -us
      {
        us := us + 625;
        StepMod(reference.coarse + k, coarse, -1);
        coarse := (coarse - 1) % SLOTS;
        k := k - 1;
      }
      while us >= 625
        invariant 0 <= us == start - k * SLOT && coarse == (reference.coarse + k) % SLOTS
        decreases us
      {
        us := us - 625;
        StepMod(reference.coarse + k, coarse, 1);
        coarse := (coarse + 1) % SLOTS;
        k := k + 1;
      }
      SlotSplit(start, k, us);
      fine := us;
    }
  }

  lemma StepMod(x: int, c: int, d: int)
    requires c == x % SLOTS
    ensures (c + d) % SLOTS == (x + d) % SLOTS
  {
    var q := x / SLOTS;
    assert x + d == (c + d) + q * SLOTS;
    SlotsAny(c + d, q);
  }
}
