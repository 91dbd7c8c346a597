/**
 A whole flashing session in JTAG-acknowledge mode: requests travel over the UART, which may
 lose them, the anchor works store by store, and the host decides from snapshots of the
 debug words taken between any two stores.

 As in `UartLink`, a queued frame is represented by the index of the script entry it was
 sent for.
 */
module SnapshotSession {
  import opened Nor
  import opened FlashOps
  import opened Service
  import opened Segments
  import opened Scripts
  import opened UartSession
  import Ack = JtagAck

  /**
   `current` is the entry the anchor is working on, `last` the one it finished last. `before` is the
   sequence number the host compares with, `trusted` whether it was read since the host came to its
   present request.
   */
  datatype State = State(device: Ack.State, current: nat, last: nat, requests: seq<nat>,
                         pos: nat, phase: Phase, before: nat, trusted: bool)

  ghost predicate Initial(s: State) {
    Ack.Initial(s.device) && s.requests == [] && s.pos == 0 && s.phase == Sending(0) && !s.trusted
  }

  /** Ahead of an attempt the host reads the sequence number; if that fails it goes on with 0. */
  ghost predicate HostReadsSequence(script: seq<Frame>, s: State, t: State) {
    && s.pos < |script| && s.phase.Sending?
    && (t == s.(before := s.device.debug.sequence, trusted := true) || t == s.(before := 0, trusted := false))
  }

  ghost predicate HostSends(script: seq<Frame>, s: State, t: State) {
    && s.pos < |script| && s.phase.Sending?
    && t == s.(requests := s.requests + [s.pos], phase := Waiting(s.phase.attempt))
  }

  ghost predicate Accepted(script: seq<Frame>, s: State)
    requires s.pos < |script|
  {
    Ack.AcceptsSnapshot(s.device.debug, s.before, Ack.Sent(script[s.pos]))
  }

  /**
   The host takes a snapshot: it accepts if the words are right, or polls again, or gives the attempt up,
   be it that the words are wrong, that they cannot be read or that the time is up.
   */
  ghost predicate HostPolls(script: seq<Frame>, s: State, t: State) {
    && s.pos < |script| && s.phase.Waiting?
    && (|| (Accepted(script, s) && t == s.(pos := s.pos + 1, phase := Sending(0), trusted := false))
        || t == s
        || t == s.(phase := NextAttempt(script[s.pos], s.phase.attempt)))
  }

  ghost predicate DeviceTakes(script: seq<Frame>, s: State, t: State) {
    && s.requests != [] && s.requests[0] < |script|
    && Ack.Receives(s.device, t.device) && t.device.pc.incoming.frame == script[s.requests[0]]
    && t == s.(device := t.device, current := s.requests[0], requests := s.requests[1..])
  }

  ghost predicate DeviceStores(s: State, t: State) {
    && (Ack.Records(s.device, t.device) || Ack.Works(s.device, t.device) || Ack.Finishes(s.device, t.device))
    && t == s.(device := t.device, last := if |t.device.done| > |s.device.done| then s.current else s.last)
  }

  ghost predicate LosesRequest(s: State, t: State) {
    exists k :: 0 <= k < |s.requests| && t == s.(requests := s.requests[..k] + s.requests[k + 1..])
  }

  ghost predicate Next(script: seq<Frame>, s: State, t: State) {
    || HostReadsSequence(script, s, t)
    || HostSends(script, s, t)
    || HostPolls(script, s, t)
    || DeviceTakes(script, s, t)
    || DeviceStores(s, t)
    || LosesRequest(s, t)
  }

  ghost predicate StepAt(script: seq<Frame>, run: seq<State>, i: nat)
    requires i < |run| - 1
  {
    Next(script, run[i], run[i + 1])
  }

  ghost predicate Run(script: seq<Frame>, run: seq<State>) {
    run != [] && Initial(run[0]) && forall i :: 0 <= i < |run| - 1 ==> StepAt(script, run, i)
  }

  // ---- what a run must not do ----

  /** While waiting for the request after a risky one the host knows a sequence number read since. */
  ghost predicate RiskyRead(script: seq<Frame>, prelude: nat, s: State) {
    s.phase.Waiting? && s.pos > prelude && Risky(script, prelude, s.pos - 1) ==> s.trusted
  }

  ghost predicate Careful(script: seq<Frame>, prelude: nat, s: State) {
    RiskyOnce(script, prelude, s.pos, s.phase) && RiskyRead(script, prelude, s)
  }

  /** No risky request is sent twice, and the sequence number ahead of the one after it could be read. */
  ghost predicate CarefulRun(script: seq<Frame>, prelude: nat, run: seq<State>) {
    forall k :: 0 <= k < |run| ==> Careful(script, prelude, run[k])
  }

  // ---- the order of things ----

  function Work(idle: bool, current: nat): seq<nat> {
    if idle then [] else [current]
  }

  function Head(untried: bool, last: nat, idle: bool, current: nat): seq<nat> {
    (if untried then [] else [last]) + Work(idle, current)
  }

  /** In work and queued. */
  function Tail(s: State): seq<nat> {
    TailOf(s.device.pc.Idle?, s.current, s.requests)
  }

  function TailOf(idle: bool, current: nat, requests: seq<nat>): seq<nat> {
    Work(idle, current) + requests
  }

  /** Script indices that can still matter, oldest first: finished last, in work, queued. */
  function Chain(s: State): seq<nat> {
    ChainOf(s.device.done == [], s.last, s.device.pc.Idle?, s.current, s.requests)
  }

  function ChainOf(untried: bool, last: nat, idle: bool, current: nat, requests: seq<nat>): seq<nat> {
    Head(untried, last, idle, current) + requests
  }

  lemma ChainParts(s: State)
    ensures s.device.done != [] ==> Chain(s) != [] && Chain(s)[0] == s.last && Chain(s)[1..] == Tail(s)
    ensures s.device.done == [] ==> Chain(s) == Tail(s)
    ensures !s.device.pc.Idle? ==> Tail(s) != [] && Tail(s)[0] == s.current && Tail(s)[1..] == s.requests
  {
  }

  predicate Below(tags: seq<nat>, n: nat) {
    forall k :: 0 <= k < |tags| ==> tags[k] < n
  }

  ghost predicate ChainOk(script: seq<Frame>, prelude: nat, pos: nat, waiting: bool, chain: seq<nat>) {
    && Sorted(chain) && Bounded(chain, Behind(script, prelude, pos), pos) && Below(chain, |script|)
    && (Risky(script, prelude, pos) ==> Copies(chain, pos) <= if waiting then 1 else 0)
  }

  ghost predicate TailOk(script: seq<Frame>, prelude: nat, pos: nat, tail: seq<nat>) {
    Bounded(tail, Oldest(script, prelude, pos), pos)
  }

  lemma ChainSend(script: seq<Frame>, prelude: nat, pos: nat, chain: seq<nat>, more: seq<nat>)
    requires ChainOk(script, prelude, pos, false, chain) && pos < |script| && more == chain + [pos]
    ensures ChainOk(script, prelude, pos, true, more)
  {
  }

  lemma ChainDrop(script: seq<Frame>, prelude: nat, pos: nat, waiting: bool, chain: seq<nat>, m: nat, rest: seq<nat>)
    requires ChainOk(script, prelude, pos, waiting, chain) && m < |chain| && rest == chain[..m] + chain[m + 1..]
    ensures ChainOk(script, prelude, pos, waiting, rest)
  {
    DropKeeps(chain, m, Behind(script, prelude, pos), pos);
    DropCopies(chain, m, pos);
    forall i | 0 <= i < |rest| ensures rest[i] < |script| {
      assert rest[i] == chain[if i < m then i else i + 1];
    }
  }

  lemma TailDrop(script: seq<Frame>, prelude: nat, pos: nat, tail: seq<nat>, m: nat, rest: seq<nat>)
    requires TailOk(script, prelude, pos, tail) && m < |tail| && rest == tail[..m] + tail[m + 1..]
    ensures TailOk(script, prelude, pos, rest)
  {
    forall i | 0 <= i < |rest| ensures Oldest(script, prelude, pos) <= rest[i] <= pos {
      assert rest[i] == tail[if i < m then i else i + 1];
    }
  }

  /** The host moves on: the request finished last stands for the one it waited for. */
  lemma ChainAccept(script: seq<Frame>, prelude: nat, pos: nat, chain: seq<nat>, tail: seq<nat>)
    requires NoTriplets(script, prelude) && prelude <= pos && chain != [] && tail == chain[1..]
    requires Stands(script, prelude, pos, chain[0]) && ChainOk(script, prelude, pos, true, chain)
    ensures ChainOk(script, prelude, pos + 1, false, chain) && TailOk(script, prelude, pos + 1, tail)
  {
    AcceptedTags(script, prelude, chain, Behind(script, prelude, pos), pos);
    StandsBehind(script, prelude, pos, chain[0]);
  }

  lemma ChainPrelude(script: seq<Frame>, prelude: nat, pos: nat, chain: seq<nat>, tail: seq<nat>)
    requires pos < prelude && ChainOk(script, prelude, pos, true, chain) && TailOk(script, prelude, pos, tail)
    ensures ChainOk(script, prelude, pos + 1, false, chain) && TailOk(script, prelude, pos + 1, tail)
  {
    NoCopyYet(chain, 0, pos);
  }

  ghost predicate OrderOk(script: seq<Frame>, prelude: nat, s: State) {
    ChainOk(script, prelude, s.pos, s.phase.Waiting?, Chain(s)) && TailOk(script, prelude, s.pos, Tail(s))
  }

  lemma OrderSend(script: seq<Frame>, prelude: nat, s: State, t: State)
    requires OrderOk(script, prelude, s) && HostSends(script, s, t)
    ensures OrderOk(script, prelude, t)
  {
    assert Tail(t) == Tail(s) + [s.pos] && Chain(t) == Chain(s) + [s.pos];
    ChainSend(script, prelude, s.pos, Chain(s), Chain(t));
  }

  lemma OrderLose(script: seq<Frame>, prelude: nat, s: State, t: State)
    requires OrderOk(script, prelude, s) && LosesRequest(s, t)
    ensures OrderOk(script, prelude, t)
  {
    var k :| 0 <= k < |s.requests| && t == s.(requests := s.requests[..k] + s.requests[k + 1..]);
    var idle := s.device.pc.Idle?;
    TailLose(script, prelude, s.pos, Work(idle, s.current), s.requests, k);
    ChainLose(script, prelude, s.pos, s.phase.Waiting?, Head(s.device.done == [], s.last, idle, s.current), s.requests,
              k);
  }

  lemma TailLose(script: seq<Frame>, prelude: nat, pos: nat, head: seq<nat>, tail: seq<nat>, k: nat)
    requires TailOk(script, prelude, pos, head + tail) && k < |tail|
    ensures TailOk(script, prelude, pos, head + (tail[..k] + tail[k + 1..]))
  {
    DropBehind(head, tail, k);
    TailDrop(script, prelude, pos, head + tail, |head| + k, head + (tail[..k] + tail[k + 1..]));
  }

  lemma ChainLose(script: seq<Frame>, prelude: nat, pos: nat, waiting: bool, head: seq<nat>, tail: seq<nat>, k: nat)
    requires ChainOk(script, prelude, pos, waiting, head + tail) && k < |tail|
    ensures ChainOk(script, prelude, pos, waiting, head + (tail[..k] + tail[k + 1..]))
  {
    DropBehind(head, tail, k);
    ChainDrop(script, prelude, pos, waiting, head + tail, |head| + k, head + (tail[..k] + tail[k + 1..]));
  }

  lemma DropBehind(head: seq<nat>, tail: seq<nat>, k: nat)
    requires k < |tail|
    ensures (head + tail)[..|head| + k] + (head + tail)[|head| + k + 1..] == head + (tail[..k] + tail[k + 1..])
  {
  }

  /** The request in work becomes the one finished last. */
  lemma OrderFinish(script: seq<Frame>, prelude: nat, s: State, t: State)
    requires OrderOk(script, prelude, s) && !s.device.pc.Idle? && t.device.pc.Idle? && t.device.done != []
    requires t == s.(device := t.device, last := s.current)
    ensures OrderOk(script, prelude, t) && Oldest(script, prelude, s.pos) <= s.current
  {
    ChainParts(s);
    ChainParts(t);
    assert Tail(t) == s.requests && Chain(t) == Tail(s);
    TailRest(script, prelude, s.pos, Tail(s));
    if s.device.done != [] {
      ChainRest(script, prelude, s.pos, s.phase.Waiting?, Chain(s));
    }
  }

  lemma TailRest(script: seq<Frame>, prelude: nat, pos: nat, tail: seq<nat>)
    requires TailOk(script, prelude, pos, tail) && tail != []
    ensures TailOk(script, prelude, pos, tail[1..]) && Oldest(script, prelude, pos) <= tail[0]
  {
    assert tail[..0] + tail[0 + 1..] == tail[1..];
    TailDrop(script, prelude, pos, tail, 0, tail[1..]);
  }

  lemma ChainRest(script: seq<Frame>, prelude: nat, pos: nat, waiting: bool, chain: seq<nat>)
    requires ChainOk(script, prelude, pos, waiting, chain) && chain != []
    ensures ChainOk(script, prelude, pos, waiting, chain[1..])
  {
    assert chain[..0] + chain[0 + 1..] == chain[1..];
    ChainDrop(script, prelude, pos, waiting, chain, 0, chain[1..]);
  }

  lemma OrderAccept(script: seq<Frame>, prelude: nat, s: State, t: State)
    requires NoTriplets(script, prelude) && OrderOk(script, prelude, s) && s.phase.Waiting?
    requires t == s.(pos := s.pos + 1, phase := Sending(0), trusted := false)
    requires prelude <= s.pos ==> s.device.done != [] && Stands(script, prelude, s.pos, s.last)
    ensures OrderOk(script, prelude, t)
  {
    ChainParts(s);
    ChainMoves(script, prelude, s.pos, Chain(s), Tail(s), s.last);
  }

  lemma ChainMoves(script: seq<Frame>, prelude: nat, pos: nat, chain: seq<nat>, tail: seq<nat>, last: nat)
    requires NoTriplets(script, prelude) && ChainOk(script, prelude, pos, true, chain)
    requires TailOk(script, prelude, pos, tail)
    requires prelude <= pos ==>
               chain != [] && tail == chain[1..] && chain[0] == last && Stands(script, prelude, pos, last)
    ensures ChainOk(script, prelude, pos + 1, false, chain) && TailOk(script, prelude, pos + 1, tail)
  {
    if prelude <= pos {
      ChainAccept(script, prelude, pos, chain, tail);
    } else {
      ChainPrelude(script, prelude, pos, chain, tail);
    }
  }

  /** The oldest queued request becomes the one in work. */
  lemma TakenChain(untried: bool, last: nat, current: nat, q: nat, rest: seq<nat>)
    ensures ChainOf(untried, last, false, q, rest) == ChainOf(untried, last, true, current, [q] + rest)
    ensures TailOf(false, q, rest) == TailOf(true, current, [q] + rest)
  {
  }

  lemma OrderTake(script: seq<Frame>, prelude: nat, s: State, t: State)
    requires OrderOk(script, prelude, s) && s.requests != [] && s.device.pc.Idle? && !t.device.pc.Idle?
    requires t == s.(device := t.device, current := s.requests[0], requests := s.requests[1..])
    requires t.device.done == s.device.done
    ensures OrderOk(script, prelude, t)
  {
    assert s.requests == [s.requests[0]] + s.requests[1..];
    TakenChain(s.device.done == [], s.last, s.current, s.requests[0], s.requests[1..]);
  }

  /** Steps that leave queue and order alone. */
  lemma OrderSame(script: seq<Frame>, prelude: nat, s: State, t: State)
    requires OrderOk(script, prelude, s) && RiskyOnce(script, prelude, t.pos, t.phase) && t.pos == s.pos
    requires Chain(t) == Chain(s) && Tail(t) == Tail(s)
    requires t.phase == s.phase || !(t.phase == Sending(0) || t.phase == Waiting(0))
    ensures OrderOk(script, prelude, t)
  {
  }

  // ---- the invariant ----

  /** The indices name the requests the anchor really has. */
  ghost predicate Tracks(script: seq<Frame>, d: Ack.State, current: nat, last: nat) {
    && (!d.pc.Idle? ==> current < |script| && d.pc.incoming.frame == script[current])
    && (d.done != [] ==> last < |script| && d.done[|d.done| - 1].incoming.frame == script[last])
  }

  /** A request that went well keeps its promise, from its work until the next request is begun. */
  ghost predicate Kept(script: seq<Frame>, prelude: nat, d: Ack.State, current: nat, last: nat)
    requires Tracks(script, d, current, last)
  {
    && (d.pc.Finishing? && d.pc.status == ERR_OK ==> Promised(script, prelude, d.flash, current))
    && (Ack.Window(d.pc) && d.done != [] && d.done[|d.done| - 1].status == ERR_OK ==>
        Promised(script, prelude, d.flash, last))
  }

  ghost predicate DeviceOk(script: seq<Frame>, prelude: nat, d: Ack.State, current: nat, last: nat) {
    Ack.Inv(d) && Tracks(script, d, current, last) && Kept(script, prelude, d, current, last)
  }

  /** As long as a risky request is the one finished last, its sequence number is the one the host read. */
  ghost predicate SequenceKnown(script: seq<Frame>, prelude: nat, s: State) {
    (s.trusted && s.pos > prelude && Risky(script, prelude, s.pos - 1)
     && s.device.done != [] && s.last + 1 == s.pos && Ack.Window(s.device.pc))
    ==> s.device.debug.sequence == s.before
  }

  ghost predicate Inv(script: seq<Frame>, prelude: nat, s: State) {
    && s.pos <= |script|
    && DeviceOk(script, prelude, s.device, s.current, s.last)
    && OrderOk(script, prelude, s)
    && Settled(script, prelude, s.pos, s.device.flash)
    && SequenceKnown(script, prelude, s)
  }

  /** From `prelude` on no counter is 0, so that a torn snapshot cannot pass for a finished one. */
  ghost predicate NonzeroFrom(script: seq<Frame>, prelude: nat) {
    forall i :: prelude <= i < |script| ==> Counter(script[i]) != 0
  }

  ghost predicate ScriptSafe(script: seq<Frame>, prelude: nat) {
    && ScriptOk(script) && NonInterfering(script)
    && StartsApart(script, prelude) && NoTriplets(script, prelude) && NonzeroFrom(script, prelude)
  }

  // ---- each step keeps it ----

  /** A snapshot that passes shows the request finished last, which went well. */
  lemma SnapshotOwner(script: seq<Frame>, prelude: nat, d: Ack.State, current: nat, last: nat, before: nat,
                      want: Ack.Incoming)
    requires DeviceOk(script, prelude, d, current, last) && Ack.AcceptsSnapshot(d.debug, before, want)
    requires Counter(want.frame) != 0
    ensures d.done != [] && Ack.Window(d.pc) && Counter(script[last]) == Counter(want.frame)
    ensures Promised(script, prelude, d.flash, last)
  {
    assert Ack.Window(d.pc) && d.done != [];
  }

  /** An accepted snapshot was left by the request the host is waiting for, or by its mild twin. */
  lemma AcceptanceIsGenuine(script: seq<Frame>, prelude: nat, s: State)
    requires ScriptSafe(script, prelude) && Inv(script, prelude, s) && RiskyRead(script, prelude, s)
    requires prelude <= s.pos < |script| && s.phase.Waiting? && Accepted(script, s)
    ensures s.device.done != [] && Stands(script, prelude, s.pos, s.last) && Holds(s.device.flash, script[s.pos])
  {
    SnapshotOwner(script, prelude, s.device, s.current, s.last, s.before, Ack.Sent(script[s.pos]));
    ChainParts(s);
    OwnerStands(script, prelude, s.pos, s.last, Chain(s));
  }

  lemma OwnerStands(script: seq<Frame>, prelude: nat, pos: nat, last: nat, chain: seq<nat>)
    requires StartsApart(script, prelude) && NoTriplets(script, prelude) && prelude <= pos < |script|
    requires chain != [] && chain[0] == last < |script| && Bounded(chain, Behind(script, prelude, pos), pos)
    requires Counter(script[last]) == Counter(script[pos]) && (last + 1 == pos ==> !Risky(script, prelude, last))
    ensures Stands(script, prelude, pos, last)
  {
    LookalikeStands(script, prelude, pos, last);
  }

  lemma AcceptKeeps(script: seq<Frame>, prelude: nat, s: State, t: State)
    requires NoTriplets(script, prelude) && Inv(script, prelude, s) && s.pos < |script| && s.phase.Waiting?
    requires t == s.(pos := s.pos + 1, phase := Sending(0), trusted := false)
    requires prelude <= s.pos ==>
               s.device.done != [] && Stands(script, prelude, s.pos, s.last) && Holds(s.device.flash, script[s.pos])
    ensures Inv(script, prelude, t)
  {
    OrderAccept(script, prelude, s, t);
  }

  lemma RetryKeeps(script: seq<Frame>, prelude: nat, s: State, t: State)
    requires Inv(script, prelude, s) && RiskyOnce(script, prelude, s.pos, t.phase) && s.phase.Waiting?
    requires t == s.(phase := t.phase) && t.phase != Sending(0) && t.phase != Waiting(0)
    ensures Inv(script, prelude, t)
  {
    OrderSame(script, prelude, s, t);
  }

  lemma PollKeeps(script: seq<Frame>, prelude: nat, s: State, t: State)
    requires ScriptSafe(script, prelude) && Inv(script, prelude, s) && Careful(script, prelude, s)
    requires HostPolls(script, s, t) && RiskyOnce(script, prelude, t.pos, t.phase)
    ensures Inv(script, prelude, t)
  {
    if t.pos != s.pos {
      AcceptStep(script, prelude, s, t);
    } else if t != s {
      RetryKeeps(script, prelude, s, t);
    }
  }

  lemma AcceptStep(script: seq<Frame>, prelude: nat, s: State, t: State)
    requires ScriptSafe(script, prelude) && Inv(script, prelude, s) && RiskyRead(script, prelude, s)
    requires s.pos < |script| && s.phase.Waiting? && Accepted(script, s)
    requires t == s.(pos := s.pos + 1, phase := Sending(0), trusted := false)
    ensures Inv(script, prelude, t)
  {
    if prelude <= s.pos {
      AcceptanceIsGenuine(script, prelude, s);
    }
    AcceptKeeps(script, prelude, s, t);
  }

  lemma SendKeeps(script: seq<Frame>, prelude: nat, s: State, t: State)
    requires Inv(script, prelude, s) && HostSends(script, s, t)
    ensures Inv(script, prelude, t)
  {
    OrderSend(script, prelude, s, t);
  }

  lemma ReadKeeps(script: seq<Frame>, prelude: nat, s: State, t: State)
    requires Inv(script, prelude, s) && HostReadsSequence(script, s, t)
    ensures Inv(script, prelude, t)
  {
  }

  lemma LoseKeeps(script: seq<Frame>, prelude: nat, s: State, t: State)
    requires Inv(script, prelude, s) && LosesRequest(s, t)
    ensures Inv(script, prelude, t)
  {
    OrderLose(script, prelude, s, t);
  }

  lemma TakeKeeps(script: seq<Frame>, prelude: nat, s: State, t: State)
    requires Inv(script, prelude, s) && DeviceTakes(script, s, t)
    ensures Inv(script, prelude, t)
  {
    OrderTake(script, prelude, s, t);
    Ack.NextKeeps(s.device, t.device);
  }

  /** The anchor works on a request no older than anything settled. */
  lemma WorkKeeps(script: seq<Frame>, prelude: nat, s: State, t: State)
    requires ScriptOk(script) && NonInterfering(script) && Inv(script, prelude, s)
    requires DeviceStores(s, t) && Ack.Works(s.device, t.device)
    ensures Inv(script, prelude, t)
  {
    Ack.NextKeeps(s.device, t.device);
    ChainParts(s);
    var status := t.device.pc.status;
    ServeKeepsSettled(script, prelude, s.pos, s.device.flash, t.device.flash, s.current, status);
    if status == ERR_OK {
      ServeMakesPromise(script, prelude, s.device.flash, t.device.flash, s.current);
    }
  }

  lemma RecordKeeps(script: seq<Frame>, prelude: nat, s: State, t: State)
    requires Inv(script, prelude, s) && DeviceStores(s, t) && t.device.done == s.device.done
    requires !Ack.Works(s.device, t.device)
    ensures Inv(script, prelude, t)
  {
    Ack.NextKeeps(s.device, t.device);
  }

  lemma FinishKeeps(script: seq<Frame>, prelude: nat, s: State, t: State)
    requires Inv(script, prelude, s) && DeviceStores(s, t) && |t.device.done| > |s.device.done|
    ensures Inv(script, prelude, t)
  {
    Ack.NextKeeps(s.device, t.device);
    OrderFinish(script, prelude, s, t);
  }

  lemma NextKeeps(script: seq<Frame>, prelude: nat, s: State, t: State)
    requires ScriptSafe(script, prelude) && Inv(script, prelude, s) && Next(script, s, t)
    requires Careful(script, prelude, s) && Careful(script, prelude, t)
    ensures Inv(script, prelude, t)
  {
    if HostReadsSequence(script, s, t) {
      ReadKeeps(script, prelude, s, t);
    } else if HostSends(script, s, t) {
      SendKeeps(script, prelude, s, t);
    } else if HostPolls(script, s, t) {
      PollKeeps(script, prelude, s, t);
    } else if DeviceTakes(script, s, t) {
      TakeKeeps(script, prelude, s, t);
    } else if LosesRequest(s, t) {
      LoseKeeps(script, prelude, s, t);
    } else if Ack.Works(s.device, t.device) {
      WorkKeeps(script, prelude, s, t);
    } else if |t.device.done| > |s.device.done| {
      FinishKeeps(script, prelude, s, t);
    } else {
      RecordKeeps(script, prelude, s, t);
    }
  }

  lemma {:induction false} EveryStateIsSafe(script: seq<Frame>, prelude: nat, run: seq<State>, i: nat)
    requires ScriptSafe(script, prelude) && Run(script, run) && CarefulRun(script, prelude, run) && i < |run|
    ensures Inv(script, prelude, run[i])
    decreases i
  {
    if i == 0 {
      StartsSafe(script, prelude, run[0]);
    } else {
      EveryStateIsSafe(script, prelude, run, i - 1);
      assert StepAt(script, run, i - 1);
      assert Careful(script, prelude, run[i - 1]) && Careful(script, prelude, run[i]);
      NextKeeps(script, prelude, run[i - 1], run[i]);
    }
  }

  lemma StartsSafe(script: seq<Frame>, prelude: nat, s: State)
    requires Initial(s)
    ensures Inv(script, prelude, s)
  {
    assert Chain(s) == [];
  }

  lemma NothingToMind(script: seq<Frame>, prelude: nat, run: seq<State>)
    requires NoneRisky(script, prelude)
    ensures CarefulRun(script, prelude, run)
  {
  }

  lemma SessionScriptSafe(segs: seq<Segment>, chunk: nat)
    requires Programs(segs, chunk)
    ensures ScriptSafe(Session(segs, chunk), PRELUDE)
  {
    SessionIsSafe(segs, chunk);
    forall k | PRELUDE <= k < |Session(segs, chunk)| ensures Counter(Session(segs, chunk)[k]) != 0 {
      CountersNonzero(segs, chunk, k);
    }
  }

  /**
   The session theorem in this mode: wherever the core was halted for a snapshot, whatever was lost
   and repeated: once the host is through, every segment is in flash, then and ever after. The erase of
   a single-chunk segment, not all 0xFF, must not have been repeated, and ahead of its write the
   sequence number must have been read.
   */
  lemma SnapshotSessionWritesEverySegment(segs: seq<Segment>, chunk: nat, run: seq<State>, i: nat, m: nat)
    requires Programs(segs, chunk) && Run(Session(segs, chunk), run) && CarefulRun(Session(segs, chunk), PRELUDE, run)
    requires i < |run| && run[i].pos == |Session(segs, chunk)| && m < |segs|
    ensures InFlash(run[i].device.flash, segs[m])
  {
    SessionScriptSafe(segs, chunk);
    EveryStateIsSafe(Session(segs, chunk), PRELUDE, run, i);
    RequestsMakeSegments(run[i].device.flash, segs, chunk, |segs|, m);
  }

  /** With unambiguous segments nothing needs to be asked of the run. */
  lemma UnambiguousSnapshotsWrite(segs: seq<Segment>, chunk: nat, run: seq<State>, i: nat, m: nat)
    requires Programs(segs, chunk) && AllUnambiguous(segs, chunk) && Run(Session(segs, chunk), run)
    requires i < |run| && run[i].pos == |Session(segs, chunk)| && m < |segs|
    ensures InFlash(run[i].device.flash, segs[m])
  {
    UnambiguousIsNeverRisky(segs, chunk);
    NothingToMind(Session(segs, chunk), PRELUDE, run);
    SnapshotSessionWritesEverySegment(segs, chunk, run, i, m);
  }

  lemma Extend(script: seq<Frame>, run: seq<State>, t: State)
    requires Run(script, run) && Next(script, run[|run| - 1], t)
    ensures Run(script, run + [t]) && (run + [t])[0] == run[0]
  {
    var longer := run + [t];
    forall i | 0 <= i < |longer| - 1 ensures StepAt(script, longer, i) {
      if i < |run| - 1 {
        assert StepAt(script, run, i);
      }
    }
  }
}
