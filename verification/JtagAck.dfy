/**
 Acknowledgement by debug words: the host halts the core between any two of the anchor's
 stores, reads nine words of RAM, and decides from that snapshot whether its request is
 done. The anchor is modelled one store at a time.
 */
module JtagAck {
  import opened Nor
  import opened FlashOps
  import opened Checksums
  import opened Service

  const ERR_BUSY: nat := 0xFFFF_FFFF

  /** The words at DEBUG_INFO_BASE, in store order; `expected` is the recomputed header checksum. */
  datatype Debug = Debug(command: nat, address: nat, length: nat, received: bv32, expected: bv32,
                         status: nat, result: bv32, counter: nat, sequence: nat)

  /** What arrives: the request and the header checksum word that came with it. */
  datatype Incoming = Incoming(frame: Frame, received: bv32, expected: bv32)

  /** `checksum_header` of a request. */
  function HeaderWord(q: Frame): bv32 {
    HeaderChecksum(Binary(q.command), Binary(q.address), Binary(q.length))
  }

  /** The anchor recomputes the checksum, and compares. */
  ghost predicate Authentic(i: Incoming) {
    i.expected == HeaderWord(i.frame) && (i.frame.headerOk <==> i.received == i.expected)
  }

  /** A request as the host sends it. */
  function Sent(q: Frame): Incoming {
    Incoming(q, HeaderWord(q), HeaderWord(q))
  }

  datatype Pc =
    | Idle
    | Recording(store: nat, incoming: Incoming)
    | Working(incoming: Incoming)
    | Finishing(left: nat, incoming: Incoming, status: nat, result: bv32)

  /** A request whose last store has been made; `stamp` counts sequence stores up to its own. */
  datatype Done = Done(incoming: Incoming, status: nat, stamp: nat)

  datatype State = State(flash: Flash, debug: Debug, pc: Pc, stamps: nat, begun: seq<Incoming>, done: seq<Done>)

  const CLEARED: Debug := Debug(0, 0, 0, 0, 0, 0, 0, 0, 0)

  ghost predicate Initial(s: State) {
    s.debug == CLEARED && s.pc == Idle && s.stamps == 0 && s.begun == [] && s.done == []
  }

  /** The anchor's stores between receiving a request and working on it. */
  function Recorded(d: Debug, store: nat, i: Incoming): Debug
    requires store < 9
  {
    if store == 0 then d.(command := i.frame.command)
    else if store == 1 then d.(address := i.frame.address)
    else if store == 2 then d.(length := i.frame.length)
    else if store == 3 then d.(received := i.received)
    else if store == 4 then d.(expected := i.expected)
    else if store == 5 then d.(status := ERR_BUSY)
    else if store == 6 then d.(result := 0)
    else if store == 7 then d.(counter := 0)
    else d.(sequence := Wrap(d.sequence + 1))
  }

  ghost predicate Receives(s: State, t: State) {
    && s.pc == Idle && t.pc.Recording? && t.pc.store == 0 && WellFormed(t.pc.incoming.frame)
    && Authentic(t.pc.incoming)
    && t == s.(pc := t.pc, begun := s.begun + [t.pc.incoming])
  }

  ghost predicate Records(s: State, t: State) {
    && s.pc.Recording? && s.pc.store < 9
    && t == s.(debug := Recorded(s.debug, s.pc.store, s.pc.incoming),
               stamps := if s.pc.store == 8 then s.stamps + 1 else s.stamps,
               pc := if s.pc.store == 8 then Working(s.pc.incoming) else Recording(s.pc.store + 1, s.pc.incoming))
  }

  ghost predicate Works(s: State, t: State) {
    && s.pc.Working? && t.pc.Finishing? && t.pc.left == 3 && t.pc.incoming == s.pc.incoming
    && WellFormed(s.pc.incoming.frame) && Serves(s.flash, s.pc.incoming.frame, t.flash, t.pc.status)
    && t == s.(flash := t.flash, pc := t.pc)
  }

  ghost predicate Finishes(s: State, t: State) {
    && s.pc.Finishing? && 0 < s.pc.left <= 3
    && var p := s.pc;
       t == if p.left == 3 then
              s.(debug := s.debug.(status := p.status), pc := Finishing(2, p.incoming, p.status, p.result))
            else if p.left == 2 then
              s.(debug := s.debug.(result := p.result), pc := Finishing(1, p.incoming, p.status, p.result))
            else
              s.(debug := s.debug.(counter := Counter(p.incoming.frame)), pc := Idle,
                 done := s.done + [Done(p.incoming, p.status, s.stamps)])
  }

  ghost predicate Next(s: State, t: State) {
    Receives(s, t) || Records(s, t) || Works(s, t) || Finishes(s, t)
  }

  ghost predicate StepAt(run: seq<State>, i: nat)
    requires i < |run| - 1
  {
    Next(run[i], run[i + 1])
  }

  ghost predicate Run(run: seq<State>) {
    run != [] && Initial(run[0]) && forall i :: 0 <= i < |run| - 1 ==> StepAt(run, i)
  }

  /** The host's test on a snapshot, with the sequence number read before it sent the request. */
  predicate AcceptsSnapshot(d: Debug, before: nat, want: Incoming) {
    && d.sequence > before
    && d.command == want.frame.command && d.address == want.frame.address && d.length == want.frame.length
    && d.expected == want.expected
    && d.status != ERR_BUSY && d.status == ERR_OK
    && d.counter == Counter(want.frame)
  }

  // ---- the invariant ----

  /** The counter word still belongs to the last finished request. */
  predicate Window(pc: Pc) {
    pc.Idle? || (pc.Recording? && pc.store <= 7)
  }

  ghost predicate WindowOk(s: State) {
    if s.done == [] then s.debug.counter == 0
    else
      var r := s.done[|s.done| - 1];
      && s.debug.counter == Counter(r.incoming.frame) && r.stamp == s.stamps
      && ((s.pc.Recording? ==> s.pc.store <= 5) ==>
            s.debug.status == r.status && (r.status == ERR_OK ==> Holds(s.flash, r.incoming.frame)))
  }

  ghost predicate Inv(s: State) {
    && (Window(s.pc) ==> WindowOk(s))
    && (!Window(s.pc) ==> s.debug.counter == 0)
    && (s.pc.Recording? ==>
        s.pc.store < 9 && s.pc.incoming in s.begun && (s.pc.store >= 6 ==> s.debug.status == ERR_BUSY))
    && (s.pc.Working? ==> s.pc.incoming in s.begun)
    && (s.pc.Finishing? ==>
          && 0 < s.pc.left <= 3 && s.pc.incoming in s.begun && WellFormed(s.pc.incoming.frame)
          && (s.pc.left < 3 ==> s.debug.status == s.pc.status)
          && (s.pc.status == ERR_OK ==> Holds(s.flash, s.pc.incoming.frame)))
    && (forall r :: r in s.done ==> r.incoming in s.begun && r.stamp <= s.stamps)
  }

  lemma NextKeeps(s: State, t: State)
    requires Inv(s) && Next(s, t)
    ensures Inv(t) && s.stamps <= t.stamps && s.begun <= t.begun && s.done <= t.done
    ensures s.stamps == t.stamps ==> s.debug.sequence == t.debug.sequence
  {
    if Works(s, t) && t.pc.status == ERR_OK {
      ServedWriteHolds(s.flash, s.pc.incoming.frame, t.flash);
    }
  }

  lemma {:induction false} EveryState(run: seq<State>, i: nat, j: nat)
    requires Run(run) && i <= j < |run|
    ensures Inv(run[j]) && run[i].stamps <= run[j].stamps
    ensures run[i].stamps == run[j].stamps ==> run[i].debug.sequence == run[j].debug.sequence
    decreases j
  {
    if j == 0 {
    } else if i == j {
      EveryState(run, j - 1, j - 1);
      assert StepAt(run, j - 1);
      NextKeeps(run[j - 1], run[j]);
    } else {
      EveryState(run, i, j - 1);
      assert StepAt(run, j - 1);
      NextKeeps(run[j - 1], run[j]);
    }
  }

  /**
   Of the requests that were still outstanding when the sequence number was read, those that have
   finished since either have another address + length or are `want` itself.
   */
  ghost predicate NoLookalike(s: State, want: Incoming, stamps: nat) {
    forall r :: r in s.done && r.stamp > stamps && Counter(r.incoming.frame) == Counter(want.frame) ==>
      r.incoming.frame == want.frame
  }

  /** The latest finished request is `want`, with status OK, recorded after the given stamp. */
  ghost predicate DoneSince(s: State, want: Incoming, stamps: nat) {
    && s.done != []
    && var r := s.done[|s.done| - 1];
       r.incoming.frame == want.frame && r.status == ERR_OK && r.stamp > stamps
  }

  /**
   Torn snapshots are harmless: the host read its sequence number at state i, accepts the words
   it finds at state j, and no other request of equal address + length was outstanding in between.
   Then that very request has made its last store, reported OK, was recorded after
   state i, and a write is in flash.
   */
  lemma AcceptedMeansDone(run: seq<State>, i: nat, j: nat, want: Incoming)
    requires Run(run) && i <= j < |run|
    requires AcceptsSnapshot(run[j].debug, run[i].debug.sequence, want)
    requires Counter(want.frame) != 0
    requires NoLookalike(run[j], want, run[i].stamps)
    ensures DoneSince(run[j], want, run[i].stamps)
    ensures Holds(run[j].flash, want.frame)
  {
    EveryState(run, i, j);
    var s := run[j];
    assert Window(s.pc) && s.done != [];
    var r := s.done[|s.done| - 1];
    assert r in s.done;
  }

  // ---- why the two conditions are needed ----

  /** The state after the first k recording stores of request i. */
  function After(s: State, i: Incoming, k: nat): State {
    var d := s.debug;
    s.(debug := Debug(if k > 0 then i.frame.command else d.command,
                      if k > 1 then i.frame.address else d.address,
                      if k > 2 then i.frame.length else d.length,
                      if k > 3 then i.received else d.received,
                      if k > 4 then i.expected else d.expected,
                      if k > 5 then ERR_BUSY else d.status,
                      if k > 6 then 0 else d.result,
                      if k > 7 then 0 else d.counter,
                      if k > 8 then Wrap(d.sequence + 1) else d.sequence),
       stamps := if k > 8 then s.stamps + 1 else s.stamps,
       pc := if k > 8 then Working(i) else Recording(k, i),
       begun := s.begun + [i])
  }

  /** A run extended by the recording of one request, up to and including `stores` stores. */
  lemma {:induction false} Recordings(run: seq<State>, i: Incoming, stores: nat) returns (longer: seq<State>)
    requires Run(run) && run[|run| - 1].pc == Idle && WellFormed(i.frame) && Authentic(i) && stores <= 9
    ensures Run(longer) && |longer| == |run| + 1 + stores && longer[..|run|] == run
    ensures longer[|longer| - 1] == After(run[|run| - 1], i, stores)
    decreases stores
  {
    var s := run[|run| - 1];
    if stores == 0 {
      longer := run + [After(s, i, 0)];
      Extended(run, After(s, i, 0));
    } else {
      var shorter := Recordings(run, i, stores - 1);
      longer := shorter + [After(s, i, stores)];
      AfterRecords(s, i, stores - 1);
      Extended(shorter, After(s, i, stores));
    }
  }

  lemma AfterRecords(s: State, i: Incoming, store: nat)
    requires store < 9
    ensures After(s, i, store).pc == Recording(store, i)
    ensures Records(After(s, i, store), After(s, i, store + 1))
  {
  }

  /** The state after request i's work and the first k of its closing stores. */
  function Closed(s: State, i: Incoming, g: Flash, status: nat, result: bv32, k: nat): State
    requires k <= 3
  {
    s.(flash := g,
       debug := s.debug.(status := if k > 0 then status else s.debug.status,
                         result := if k > 1 then result else s.debug.result,
                         counter := if k > 2 then Counter(i.frame) else s.debug.counter),
       pc := if k > 2 then Idle else Finishing(3 - k, i, status, result),
       done := if k > 2 then s.done + [Done(i, status, s.stamps)] else s.done)
  }

  lemma ClosedFinishes(s: State, i: Incoming, g: Flash, status: nat, result: bv32, k: nat)
    requires k < 3
    ensures Finishes(Closed(s, i, g, status, result, k), Closed(s, i, g, status, result, k + 1))
  {
  }

  /** A run extended by the work and the first k closing stores. */
  lemma {:induction false} Closing(run: seq<State>, i: Incoming, g: Flash, status: nat, result: bv32, k: nat)
    returns (longer: seq<State>)
    requires Run(run) && run[|run| - 1].pc == Working(i) && k <= 3
    requires WellFormed(i.frame) && Serves(run[|run| - 1].flash, i.frame, g, status)
    ensures Run(longer) && |longer| == |run| + 1 + k && longer[..|run|] == run
    ensures longer[|longer| - 1] == Closed(run[|run| - 1], i, g, status, result, k)
    decreases k
  {
    var s := run[|run| - 1];
    if k == 0 {
      assert Works(s, Closed(s, i, g, status, result, 0));
      Extended(run, Closed(s, i, g, status, result, 0));
      longer := run + [Closed(s, i, g, status, result, 0)];
    } else {
      var shorter := Closing(run, i, g, status, result, k - 1);
      ClosedFinishes(s, i, g, status, result, k - 1);
      Extended(shorter, Closed(s, i, g, status, result, k));
      longer := shorter + [Closed(s, i, g, status, result, k)];
    }
  }

  /** With counter 0 the snapshot taken right after the status store passes, two stores early. */
  lemma TornSnapshotAtZero(want: Incoming, f: Flash, g: Flash, result: bv32) returns (run: seq<State>)
    requires WellFormed(want.frame) && Authentic(want) && Counter(want.frame) == 0 && Serves(f, want.frame, g, ERR_OK)
    ensures Run(run) && run[|run| - 1].begun == [want] && run[|run| - 1].done == []
    ensures AcceptsSnapshot(run[|run| - 1].debug, run[0].debug.sequence, want)
    ensures run[|run| - 1].debug.result == 0
  {
    var s := State(f, CLEARED, Idle, 0, [], []);
    var start := [s];
    assert Run(start);
    var recorded := Recordings(start, want, 9);
    run := Closing(recorded, want, g, ERR_OK, result, 1);
    assert run[0] == run[..|recorded|][0] == recorded[..1][0] == s;
  }

  /** With equal counters the second request passes while only its header has been stored. */
  lemma EqualCountersMislead(first: Incoming, want: Incoming, f: Flash, g: Flash) returns (run: seq<State>)
    requires WellFormed(first.frame) && WellFormed(want.frame) && Authentic(first) && Authentic(want)
    requires Counter(first.frame) == Counter(want.frame) && Serves(f, first.frame, g, ERR_OK)
    ensures Run(run) && AcceptsSnapshot(run[|run| - 1].debug, run[0].debug.sequence, want)
    ensures run[|run| - 1].done == [Done(first, ERR_OK, 1)] && run[|run| - 1].flash == g
  {
    var s := State(f, CLEARED, Idle, 0, [], []);
    var start := [s];
    assert Run(start);
    var recorded := Recordings(start, first, 9);
    var served := Closing(recorded, first, g, ERR_OK, 0, 3);
    assert served[0] == served[..|recorded|][0] == recorded[..1][0] == s;
    run := Recordings(served, want, 5);
    assert run[0] == run[..|served|][0] == s;
  }

  /** Every accepted snapshot of `want`, with no lookalike outstanding, means that it is done. */
  ghost predicate SnapshotsAreSound(want: Incoming) {
    forall run: seq<State>, i: nat, j: nat ::
      (Run(run) && i <= j < |run| && NoLookalike(run[j], want, run[i].stamps)
       && AcceptsSnapshot(run[j].debug, run[i].debug.sequence, want))
      ==> DoneSince(run[j], want, run[i].stamps)
  }

  /** Exactly the requests with a nonzero address + length can be acknowledged this way. */
  lemma SoundExactlyWhenNonzero(want: Incoming, f: Flash, g: Flash)
    requires WellFormed(want.frame) && Authentic(want) && Serves(f, want.frame, g, ERR_OK)
    ensures SnapshotsAreSound(want) <==> Counter(want.frame) != 0
  {
    if Counter(want.frame) != 0 {
      forall run: seq<State>, i: nat, j: nat |
        Run(run) && i <= j < |run| && AcceptsSnapshot(run[j].debug, run[i].debug.sequence, want) 
          && NoLookalike(run[j], want, run[i].stamps)
        ensures DoneSince(run[j], want, run[i].stamps)
      {
        AcceptedMeansDone(run, i, j, want);
      }
    } else {
      var run := TornSnapshotAtZero(want, f, g, 0);
      var j: nat := |run| - 1;
      assert AcceptsSnapshot(run[j].debug, run[0].debug.sequence, want);
    }
  }

  lemma Extended(run: seq<State>, t: State)
    requires Run(run) && Next(run[|run| - 1], t)
    ensures Run(run + [t])
  {
    var longer := run + [t];
    forall i | 0 <= i < |longer| - 1 ensures StepAt(longer, i) {
      if i < |run| - 1 {
        assert StepAt(run, i);
      }
    }
  }
}
