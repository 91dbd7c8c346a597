/**
 Exactly which segments, and which sessions, every run in JTAG-acknowledge mode gets right.

 A snapshot is recognised by command, address, length and counter, but they are not stored
 together: while the header of the write is being recorded, status and counter are still
 those of the request before it. With one chunk that request is an erase with the same
 counter, and only the sequence number can tell the two apart. It cannot if the erase was
 repeated, or if it could not be read.
 */
module SnapshotAmbiguity {
  import opened MachineWord
  import opened Nor
  import opened FlashOps
  import opened Service
  import opened Segments
  import opened Scripts
  import opened UartSession
  import opened SessionPlan
  import opened SnapshotSession
  import UartAmbiguity
  import Ack = JtagAck

  // ---- building runs ----

  /** `once`: no request is sent twice. `read`: every sequence number needed has been read. */
  ghost predicate MannerAt(s: State, once: bool, read: bool) {
    && (once ==> s.phase == Sending(0) || s.phase == Waiting(0))
    && (read && s.phase.Waiting? ==> s.trusted)
  }

  ghost predicate Manner(run: seq<State>, once: bool, read: bool) {
    forall k :: 0 <= k < |run| ==> MannerAt(run[k], once, read)
  }

  /** A run so far, with what it has kept to. */
  ghost predicate Built(script: seq<Frame>, run: seq<State>, once: bool, read: bool) {
    Run(script, run) && Manner(run, once, read)
  }

  lemma Grow(script: seq<Frame>, run: seq<State>, t: State, once: bool, read: bool)
    requires Built(script, run, once, read) && Next(script, run[|run| - 1], t) && MannerAt(t, once, read)
    ensures Built(script, run + [t], once, read)
  {
    Extend(script, run, t);
  }

  // ---- the anchor ----

  lemma Take(script: seq<Frame>, run: seq<State>, i: Ack.Incoming, once: bool, read: bool) returns (longer: seq<State>)
    requires Built(script, run, once, read) && run[|run| - 1].device.pc == Ack.Idle && WellFormed(i.frame)
    requires Ack.Authentic(i)
    requires run[|run| - 1].requests != [] && run[|run| - 1].requests[0] < |script|
    requires i.frame == script[run[|run| - 1].requests[0]]
    ensures Built(script, longer, once, read)
    ensures var s := run[|run| - 1];
            longer[|longer| - 1]
              == s.(device := Ack.After(s.device, i, 0), current := s.requests[0], requests := s.requests[1..])
  {
    var s := run[|run| - 1];
    var t := s.(device := Ack.After(s.device, i, 0), current := s.requests[0], requests := s.requests[1..]);
    assert DeviceTakes(script, s, t);
    assert MannerAt(s, once, read);
    Grow(script, run, t, once, read);
    longer := run + [t];
  }

  /** Recording stores k to n of request i, begun on device state d. */
  lemma {:induction false} Record(script: seq<Frame>, run: seq<State>, d: Ack.State, i: Ack.Incoming, k: nat, n: nat,
                                  once: bool, read: bool)
    returns (longer: seq<State>)
    requires Built(script, run, once, read) && k <= n <= 9 && run[|run| - 1].device == Ack.After(d, i, k)
    ensures Built(script, longer, once, read) && longer[|longer| - 1] == run[|run| - 1].(device := Ack.After(d, i, n))
    decreases n
  {
    if k == n {
      longer := run;
    } else {
      var shorter := Record(script, run, d, i, k, n - 1, once, read);
      var s := shorter[|shorter| - 1];
      var t := s.(device := Ack.After(d, i, n));
      Ack.AfterRecords(d, i, n - 1);
      assert DeviceStores(s, t);
      assert MannerAt(s, once, read);
      Grow(script, shorter, t, once, read);
      longer := shorter + [t];
    }
  }

  /** The work done and the first k closing stores made. */
  function Closed(s: State, i: Ack.Incoming, g: Flash, status: nat, k: nat): State
    requires k <= 3
  {
    s.(device := Ack.Closed(s.device, i, g, status, 0, k), last := if k == 3 then s.current else s.last)
  }

  lemma {:induction false} Close(script: seq<Frame>, run: seq<State>, i: Ack.Incoming, g: Flash, status: nat, k: nat,
                                 once: bool, read: bool)
    returns (longer: seq<State>)
    requires Built(script, run, once, read) && k <= 3 && run[|run| - 1].device.pc == Ack.Working(i)
    requires WellFormed(i.frame) && Serves(run[|run| - 1].device.flash, i.frame, g, status)
    ensures Built(script, longer, once, read) && longer[|longer| - 1] == Closed(run[|run| - 1], i, g, status, k)
    decreases k
  {
    var s := run[|run| - 1];
    var t := Closed(s, i, g, status, k);
    assert MannerAt(s, once, read);
    if k == 0 {
      assert Ack.Works(s.device, t.device);
      assert DeviceStores(s, t);
      Grow(script, run, t, once, read);
      longer := run + [t];
    } else {
      var shorter := Close(script, run, i, g, status, k - 1, once, read);
      Ack.ClosedFinishes(s.device, i, g, status, 0, k - 1);
      assert DeviceStores(Closed(s, i, g, status, k - 1), t);
      Grow(script, shorter, t, once, read);
      longer := shorter + [t];
    }
  }

  /** The debug words a finished request leaves. */
  function Words(i: Ack.Incoming, status: nat, sequence: nat): Ack.Debug {
    Ack.Debug(i.frame.command, i.frame.address, i.frame.length, i.received, i.expected, status, 0, Counter(i.frame),
              sequence)
  }

  /** Idle, with these words and this flash. */
  ghost predicate Idles(s: State, f: Flash, words: Ack.Debug) {
    s.device.pc == Ack.Idle && s.device.flash == f && s.device.debug == words
  }

  /** The anchor serves the oldest request from the first store to the last. */
  lemma Serve(script: seq<Frame>, run: seq<State>, i: Ack.Incoming, g: Flash, once: bool, read: bool)
    returns (longer: seq<State>)
    requires Built(script, run, once, read) && run[|run| - 1].device.pc == Ack.Idle && WellFormed(i.frame)
    requires Ack.Authentic(i)
    requires run[|run| - 1].requests != [] && run[|run| - 1].requests[0] < |script|
    requires i.frame == script[run[|run| - 1].requests[0]]
    requires Serves(run[|run| - 1].device.flash, i.frame, g, ERR_OK)
    ensures Built(script, longer, once, read)
    ensures var s, t := run[|run| - 1], longer[|longer| - 1];
            && t == s.(device := t.device, current := s.requests[0], last := s.requests[0], requests := s.requests[1..])
            && Idles(t, g, Words(i, ERR_OK, Wrap(s.device.debug.sequence + 1)))
  {
    var d := run[|run| - 1].device;
    longer := Take(script, run, i, once, read);
    longer := Record(script, longer, d, i, 0, 9, once, read);
    longer := Close(script, longer, i, g, ERR_OK, 3, once, read);
  }

  /** A request whose first five stores are made fails without effect. */
  lemma Fail(script: seq<Frame>, run: seq<State>, d: Ack.State, i: Ack.Incoming, once: bool, read: bool)
    returns (longer: seq<State>)
    requires Built(script, run, once, read) && run[|run| - 1].device == Ack.After(d, i, 5)
    requires CanFail(d.flash, i.frame)
    ensures Built(script, longer, once, read)
    ensures var s, t := run[|run| - 1], longer[|longer| - 1];
            && t == s.(device := t.device, last := s.current)
            && Idles(t, d.flash, Words(i, ERR_TIMEOUT, Wrap(d.debug.sequence + 1)))
  {
    longer := Record(script, run, d, i, 5, 9, once, read);
    longer := Close(script, longer, i, d.flash, ERR_TIMEOUT, 3, once, read);
  }

  // ---- the host ----

  /** The host reads the sequence number, or fails to, and sends its request. */
  lemma Ask(script: seq<Frame>, run: seq<State>, known: bool, once: bool, read: bool) returns (longer: seq<State>)
    requires Built(script, run, once, read) && run[|run| - 1].pos < |script| && run[|run| - 1].phase.Sending?
    requires read ==> known
    ensures Built(script, longer, once, read)
    ensures var s := run[|run| - 1];
            longer[|longer| - 1] == s.(requests := s.requests + [s.pos], phase := Waiting(s.phase.attempt),
                                       before := if known then s.device.debug.sequence else 0, trusted := known)
  {
    var s := run[|run| - 1];
    var t := s.(before := if known then s.device.debug.sequence else 0, trusted := known);
    var u := t.(requests := s.requests + [s.pos], phase := Waiting(s.phase.attempt));
    assert MannerAt(s, once, read);
    assert HostReadsSequence(script, s, t);
    Grow(script, run, t, once, read);
    longer := run + [t];
    assert HostSends(script, t, u);
    Grow(script, longer, u, once, read);
    longer := longer + [u];
  }

  lemma Accept(script: seq<Frame>, run: seq<State>, once: bool, read: bool) returns (longer: seq<State>)
    requires Built(script, run, once, read) && run[|run| - 1].pos < |script| && run[|run| - 1].phase.Waiting?
    requires Accepted(script, run[|run| - 1])
    ensures Built(script, longer, once, read)
    ensures longer[|longer| - 1]
            == run[|run| - 1].(pos := run[|run| - 1].pos + 1, phase := Sending(0), trusted := false)
  {
    var s := run[|run| - 1];
    var t := s.(pos := s.pos + 1, phase := Sending(0), trusted := false);
    assert HostPolls(script, s, t);
    Grow(script, run, t, once, read);
    longer := run + [t];
  }

  /** The first attempt is given up. */
  lemma GiveUp(script: seq<Frame>, run: seq<State>, read: bool) returns (longer: seq<State>)
    requires Built(script, run, false, read) && run[|run| - 1].pos < |script| && run[|run| - 1].phase == Waiting(0)
    ensures Built(script, longer, false, read) && longer[|longer| - 1] == run[|run| - 1].(phase := Sending(1))
  {
    var s := run[|run| - 1];
    var t := s.(phase := Sending(1));
    assert HostPolls(script, s, t);
    Grow(script, run, t, false, read);
    longer := run + [t];
  }

  /** Nothing queued, the anchor idle, the next request due. */
  ghost predicate AtRest(s: State, pos: nat, f: Flash) {
    && s.device.pc == Ack.Idle && s.device.flash == f && s.device.debug.sequence < WORD
    && s.requests == [] && s.pos == pos && s.phase == Sending(0)
  }

  /** At rest, request p having just been served well. */
  ghost predicate JustServed(script: seq<Frame>, s: State, p: nat, g: Flash)
    requires p < |script|
  {
    && AtRest(s, p + 1, g) && s.device.debug.sequence > 0
    && s.device.debug.status == ERR_OK && s.device.debug.counter == Counter(script[p])
  }

  /** The words a request leaves pass for it, if the sequence number has moved. */
  lemma OwnPasses(script: seq<Frame>, s: State, q: Frame, sequence: nat)
    requires s.pos < |script| && script[s.pos] == q && sequence > s.before
    requires s.device.debug == Words(Ack.Sent(q), ERR_OK, sequence)
    ensures Accepted(script, s)
  {
  }

  lemma Served(f: Flash, q: Frame, g: Flash)
    requires Good(f, q, g)
    ensures WellFormed(q) && Ack.Authentic(Ack.Sent(q)) && Ack.Sent(q).frame == q
  {
  }

  /** A request asked for, served and accepted, the sequence number not wrapping. */
  lemma OneRound(script: seq<Frame>, run: seq<State>, p: nat, f: Flash, g: Flash, once: bool, read: bool)
    returns (longer: seq<State>)
    requires Built(script, run, once, read) && p < |script| && Good(f, script[p], g)
    requires var s := run[|run| - 1];
             s.device.pc == Ack.Idle && s.device.flash == f && s.requests == [] && s.pos == p && s.phase.Sending?
             && s.device.debug.sequence + 1 < WORD
    ensures Built(script, longer, once, read) && JustServed(script, longer[|longer| - 1], p, g)
  {
    var q, next := script[p], run[|run| - 1].device.debug.sequence + 1;
    Served(f, q, g);
    longer := Ask(script, run, true, once, read);
    longer := Serve(script, longer, Ack.Sent(q), g, once, read);
    OwnPasses(script, longer[|longer| - 1], q, next);
    longer := Accept(script, longer, once, read);
  }

  /** The same in any case: if the sequence number wraps, the host needs a second attempt. */
  lemma GoodSteps(script: seq<Frame>, run: seq<State>, p: nat, f: Flash, g: Flash, read: bool)
    returns (longer: seq<State>)
    requires Built(script, run, false, read) && AtRest(run[|run| - 1], p, f) && p < |script| && Good(f, script[p], g)
    ensures Built(script, longer, false, read) && JustServed(script, longer[|longer| - 1], p, g)
  {
    if run[|run| - 1].device.debug.sequence + 1 < WORD {
      longer := OneRound(script, run, p, f, g, false, read);
    } else {
      longer := Ask(script, run, true, false, read);
      longer := Serve(script, longer, Ack.Sent(script[p]), g, false, read);
      longer := GiveUp(script, longer, read);
      longer := OneRound(script, longer, p, g, g, false, read);
    }
  }

  /** Five stores into recording w, after a good request of the same counter, the snapshot passes for w. */
  lemma TornPasses(script: seq<Frame>, d: Ack.State, s: State, p: nat)
    requires p + 1 < |script| && Counter(script[p]) == Counter(script[p + 1]) && s.pos == p + 1
    requires d.debug.status == ERR_OK && d.debug.counter == Counter(script[p]) && d.debug.sequence > s.before
    requires s.device == Ack.After(d, Ack.Sent(script[p + 1]), 5)
    ensures Accepted(script, s)
  {
  }

  /** The write after a twin is taken for done with its sequence number unread, and then fails. */
  lemma UnreadWrite(script: seq<Frame>, run: seq<State>, p: nat, g: Flash, once: bool) returns (longer: seq<State>)
    requires Built(script, run, once, false) && Twin(script, 0, p) && JustServed(script, run[|run| - 1], p, g)
    requires CanFail(g, script[p + 1])
    ensures Built(script, longer, once, false) && AtRest(longer[|longer| - 1], p + 2, g)
  {
    var d, i := run[|run| - 1].device, Ack.Sent(script[p + 1]);
    longer := Ask(script, run, false, once, false);
    longer := Take(script, longer, i, once, false);
    longer := Record(script, longer, d, i, 0, 5, once, false);
    TornPasses(script, d, longer[|longer| - 1], p);
    longer := Accept(script, longer, once, false);
    longer := Fail(script, longer, d, i, once, false);
  }

  lemma Start(script: seq<Frame>, f: Flash, once: bool, read: bool) returns (run: seq<State>)
    ensures Built(script, run, once, read) && AtRest(run[|run| - 1], 0, f) && run[|run| - 1].device.debug.sequence == 0
  {
    run := [State(Ack.State(f, Ack.CLEARED, Ack.Idle, 0, [], []), 0, 0, [], 0, Sending(0), 0, false)];
  }

  /** Every plan is followed by some run, the request after `bad` being taken for done. */
  lemma {:induction false} PlanRun(script: seq<Frame>, fs: seq<Flash>, bad: nat, n: nat) returns (run: seq<State>)
    requires Plan(script, fs, bad) && Twin(script, 0, bad) && n <= |script| && n != bad + 1
    ensures Run(script, run) && Built(script, run, false, false) && AtRest(run[|run| - 1], n, fs[n])
    decreases n
  {
    if n == 0 {
      run := Start(script, fs[0], false, false);
    } else if n == bad + 2 {
      assert PlanStep(script, fs, bad, bad) && PlanStep(script, fs, bad, bad + 1);
      run := PlanRun(script, fs, bad, bad);
      run := GoodSteps(script, run, bad, fs[bad], fs[bad + 1], false);
      run := UnreadWrite(script, run, bad, fs[bad + 1], false);
    } else {
      assert PlanStep(script, fs, bad, n - 1);
      run := PlanRun(script, fs, bad, n - 1);
      run := GoodSteps(script, run, n - 1, fs[n - 1], fs[n], false);
    }
  }

  /** A plan without a bad request is followed by some run too, every sequence number being read. */
  lemma {:induction false} SoundRun(script: seq<Frame>, fs: seq<Flash>, n: nat) returns (run: seq<State>)
    requires GoodPlan(script, fs) && n <= |script|
    ensures Run(script, run) && Built(script, run, false, true) && AtRest(run[|run| - 1], n, fs[n])
    decreases n
  {
    if n == 0 {
      run := Start(script, fs[0], false, true);
    } else {
      run := SoundRun(script, fs, n - 1);
      assert Good(fs[n - 1], script[n - 1], fs[n]);
      run := GoodSteps(script, run, n - 1, fs[n - 1], fs[n], true);
    }
  }

  /** Every session can be completed. */
  lemma SnapshotSessionCompletes(segs: seq<Segment>, chunk: nat, f: Flash) returns (run: seq<State>)
    requires Programs(segs, chunk)
    ensures Run(Session(segs, chunk), run) && run[|run| - 1].pos == |Session(segs, chunk)|
  {
    var fs := SoundPlan(segs, chunk, |segs|, f);
    run := SoundRun(Session(segs, chunk), fs, |Session(segs, chunk)|);
  }

  // ---- why both conditions on a run are needed ----

  /** Nothing was repeated, but the sequence number ahead of the only chunk could not be read. */
  lemma UnreadSnapshots(seg: Segment, chunk: nat, f: Flash) returns (run: seq<State>)
    requires Fits(seg) && 0 < chunk <= DATA_MAX && !Unambiguous(seg, chunk)
    ensures Run(Script(seg, chunk), run) && Manner(run, true, false)
    ensures run[|run| - 1].pos == |Script(seg, chunk)| && !InFlash(run[|run| - 1].device.flash, seg)
  {
    var script := Script(seg, chunk);
    UartAmbiguity.SingleChunkScript(seg, chunk);
    var fs := UartAmbiguity.MissingChunk(seg, chunk, f);
    assert PlanStep(script, fs, 0, 0) && PlanStep(script, fs, 0, 1);
    run := Start(script, f, true, false);
    run := OneRound(script, run, 0, f, fs[1], true, false);
    run := UnreadWrite(script, run, 0, fs[1], true);
  }

  /** The first request is asked for twice and served once; the host goes on to the second. */
  lemma Repeated(script: seq<Frame>, f: Flash, g: Flash) returns (run: seq<State>)
    requires |script| == 2 && script[0].command == CMD_ERASE && Good(f, script[0], g)
    ensures Built(script, run, false, true)
    ensures var s := run[|run| - 1];
            && s.requests == [0, 1] && s.pos == 1 && s.phase == Waiting(0) && s.before == 1
            && Idles(s, g, Words(Ack.Sent(script[0]), ERR_OK, 1))
  {
    run := Start(script, f, false, true);
    run := Ask(script, run, true, false, true);
    run := GiveUp(script, run, true);
    run := Ask(script, run, true, false, true);
    run := Serve(script, run, Ack.Sent(script[0]), g, false, true);
    run := Accept(script, run, false, true);
    run := Ask(script, run, true, false, true);
  }

  /** Every sequence number was read, but the erase was repeated: its second copy passes for the only chunk. */
  lemma MistakenSnapshots(seg: Segment, chunk: nat, f: Flash) returns (run: seq<State>)
    requires Fits(seg) && 0 < chunk <= DATA_MAX && !Unambiguous(seg, chunk)
    ensures Run(Script(seg, chunk), run) && Manner(run, false, true)
    ensures run[|run| - 1].pos == |Script(seg, chunk)| && !InFlash(run[|run| - 1].device.flash, seg)
  {
    var script := Script(seg, chunk);
    UartAmbiguity.SingleChunkScript(seg, chunk);
    var fs := UartAmbiguity.MissingChunk(seg, chunk, f);
    assert PlanStep(script, fs, 0, 0) && PlanStep(script, fs, 0, 1);
    run := Repeated(script, f, fs[1]);
    run := Serve(script, run, Ack.Sent(script[0]), fs[1], false, true);
    var d := run[|run| - 1].device;
    run := Take(script, run, Ack.Sent(script[1]), false, true);
    run := Record(script, run, d, Ack.Sent(script[1]), 0, 5, false, true);
    TornPasses(script, d, run[|run| - 1], 0);
    run := Accept(script, run, false, true);
  }

  // ---- the exact conditions ----

  /** Whenever the host gets through the segment's requests, the segment is in flash. */
  ghost predicate EverySnapshotRunWrites(seg: Segment, chunk: nat)
    requires Fits(seg) && 0 < chunk <= DATA_MAX
  {
    forall run: seq<State> :: Run(Script(seg, chunk), run) && run[|run| - 1].pos == |Script(seg, chunk)| ==>
      InFlash(run[|run| - 1].device.flash, seg)
  }

  lemma ScriptSafeAlone(seg: Segment, chunk: nat)
    requires Fits(seg) && 0 < chunk <= DATA_MAX
    ensures ScriptSafe(Script(seg, chunk), 0)
  {
    var script := Script(seg, chunk);
    ScriptBelongs(seg, chunk);
    ScriptNonInterfering(seg, chunk);
    UartAmbiguity.ScriptHasNoTriplets(seg, chunk);
    forall i | 0 <= i < |script| ensures Counter(script[i]) != 0 {
      CounterInside(script[i], seg);
    }
  }

  lemma SettledAtTheEnd(script: seq<Frame>, prelude: nat, run: seq<State>)
    requires ScriptSafe(script, prelude) && NoneRisky(script, prelude) && Run(script, run)
    ensures Settled(script, prelude, run[|run| - 1].pos, run[|run| - 1].device.flash)
  {
    NothingToMind(script, prelude, run);
    EveryStateIsSafe(script, prelude, run, |run| - 1);
  }

  lemma SafeSnapshots(seg: Segment, chunk: nat, run: seq<State>)
    requires Fits(seg) && 0 < chunk <= DATA_MAX && Unambiguous(seg, chunk)
    requires Run(Script(seg, chunk), run) && run[|run| - 1].pos == |Script(seg, chunk)|
    ensures InFlash(run[|run| - 1].device.flash, seg)
  {
    var script, last := Script(seg, chunk), run[|run| - 1];
    ScriptSafeAlone(seg, chunk);
    UartAmbiguity.ScriptIsNeverRisky(seg, chunk);
    SettledAtTheEnd(script, 0, run);
    ScriptMakesSegment(last.device.flash, seg, chunk);
  }

  /** The same condition as with UART acknowledgements, for a different reason. */
  lemma SnapshotsWriteExactlyWhenUnambiguous(seg: Segment, chunk: nat)
    requires Fits(seg) && 0 < chunk <= DATA_MAX
    ensures EverySnapshotRunWrites(seg, chunk) <==> Unambiguous(seg, chunk)
  {
    if Unambiguous(seg, chunk) {
      forall run: seq<State> | Run(Script(seg, chunk), run) && run[|run| - 1].pos == |Script(seg, chunk)|
        ensures InFlash(run[|run| - 1].device.flash, seg)
      {
        SafeSnapshots(seg, chunk, run);
      }
    } else {
      var run := UnreadSnapshots(seg, chunk, Erased(seq(CAPACITY, (_: nat) => BLANK), 0, 0));
      assert !InFlash(run[|run| - 1].device.flash, seg);
    }
  }

  /** Whenever the host gets through the session, every segment is in flash. */
  ghost predicate EverySnapshotSessionWrites(segs: seq<Segment>, chunk: nat)
    requires Programs(segs, chunk)
  {
    forall run: seq<State>, m: nat ::
      (Run(Session(segs, chunk), run) && run[|run| - 1].pos == |Session(segs, chunk)| && m < |segs|)
      ==> InFlash(run[|run| - 1].device.flash, segs[m])
  }

  /** Segment b of the session can be missing at the end. */
  lemma MistakenSnapshotSession(segs: seq<Segment>, chunk: nat, b: nat, f: Flash) returns (run: seq<State>)
    requires Programs(segs, chunk) && b < |segs| && !Unambiguous(segs[b], chunk)
    ensures Run(Session(segs, chunk), run) && run[|run| - 1].pos == |Session(segs, chunk)|
    ensures !InFlash(run[|run| - 1].device.flash, segs[b])
  {
    var script, bad := Session(segs, chunk), Begin(segs, chunk, b);
    var fs := MissingPlan(segs, chunk, b, |segs|, f);
    EraseIsTwin(segs, chunk, b);
    run := PlanRun(script, fs, bad, |script|);
  }

  /** The exact condition for sessions. */
  lemma SnapshotSessionsWriteExactlyWhenUnambiguous(segs: seq<Segment>, chunk: nat)
    requires Programs(segs, chunk)
    ensures EverySnapshotSessionWrites(segs, chunk) <==> AllUnambiguous(segs, chunk)
  {
    if AllUnambiguous(segs, chunk) {
      forall run: seq<State>, m: nat |
        Run(Session(segs, chunk), run) && run[|run| - 1].pos == |Session(segs, chunk)| && m < |segs|
        ensures InFlash(run[|run| - 1].device.flash, segs[m])
      {
        UnambiguousSnapshotsWrite(segs, chunk, run, |run| - 1, m);
      }
    } else {
      var b :| 0 <= b < |segs| && !Unambiguous(segs[b], chunk);
      var run := MistakenSnapshotSession(segs, chunk, b, Erased(seq(CAPACITY, (_: nat) => BLANK), 0, 0));
      assert !InFlash(run[|run| - 1].device.flash, segs[b]);
    }
  }
}
