/**
 The UART flashing session as a state machine: a host that works through a script of
 requests with retries, two in-order queues that may lose whole frames, and the anchor
 serving one request at a time. The host recognises a reply only by its status and its
 counter, the 32-bit sum address + length.

 A queued frame is represented by the index of the script entry it was sent for. The
 index names the frame's contents, `script[index]`; neither the host nor the device
 looks at the number itself.
 */
module UartLink {
  import opened Nor
  import opened FlashOps
  import opened Service
  import opened Scripts

  datatype Reply = Reply(tag: nat, status: nat, counter: nat)

  datatype State = State(flash: Flash, requests: seq<nat>, replies: seq<Reply>, pos: nat, phase: Phase)

  ghost predicate Initial(s: State) {
    s.requests == [] && s.replies == [] && s.pos == 0 && s.phase == Sending(0)
  }

  // ---- host decisions ----

  /** The test a reply must pass to be taken as the acknowledgement of `q`. */
  predicate Accepts(q: Frame, status: nat, counter: nat) {
    status == ERR_OK && counter == Counter(q)
  }

  // ---- steps ----

  ghost predicate HostSends(script: seq<Frame>, s: State, t: State) {
    && s.pos < |script| && s.phase.Sending?
    && t == s.(requests := s.requests + [s.pos], phase := Waiting(s.phase.attempt))
  }

  /** The host takes the oldest reply: an error ends the attempt, a foreign counter is skipped. */
  ghost predicate HostReads(script: seq<Frame>, s: State, t: State) {
    && s.pos < |script| && s.phase.Waiting? && s.replies != []
    && var r := s.replies[0];
       var rest := s.(replies := s.replies[1..]);
       t == if r.status != ERR_OK then rest.(phase := NextAttempt(script[s.pos], s.phase.attempt))
            else if Accepts(script[s.pos], r.status, r.counter) then rest.(pos := s.pos + 1, phase := Sending(0))
            else rest
  }

  ghost predicate HostTimesOut(script: seq<Frame>, s: State, t: State) {
    && s.pos < |script| && s.phase.Waiting?
    && t == s.(phase := NextAttempt(script[s.pos], s.phase.attempt))
  }

  ghost predicate DeviceServes(script: seq<Frame>, s: State, t: State)
    requires ScriptOk(script)
  {
    && s.requests != [] && s.requests[0] < |script|
    && var q := script[s.requests[0]];
       exists status :: Serves(s.flash, q, t.flash, status)
         && t == s.(flash := t.flash, requests := s.requests[1..],
                    replies := s.replies + [Reply(s.requests[0], status, Counter(q))])
  }

  ghost predicate LosesRequest(s: State, t: State) {
    exists k :: 0 <= k < |s.requests| && t == s.(requests := s.requests[..k] + s.requests[k + 1..])
  }

  /** A reply lost on the wire, or thrown away when the host drains its input before a retry. */
  ghost predicate LosesReply(s: State, t: State) {
    exists k :: 0 <= k < |s.replies| && t == s.(replies := s.replies[..k] + s.replies[k + 1..])
  }

  ghost predicate Next(script: seq<Frame>, s: State, t: State)
    requires ScriptOk(script)
  {
    || HostSends(script, s, t)
    || HostReads(script, s, t)
    || HostTimesOut(script, s, t)
    || DeviceServes(script, s, t)
    || LosesRequest(s, t)
    || LosesReply(s, t)
  }

  ghost predicate StepAt(script: seq<Frame>, run: seq<State>, i: nat)
    requires ScriptOk(script) && i < |run| - 1
  {
    Next(script, run[i], run[i + 1])
  }

  /** A finite execution. */
  ghost predicate Run(script: seq<Frame>, run: seq<State>)
    requires ScriptOk(script)
  {
    && run != [] && Initial(run[0])
    && forall i :: 0 <= i < |run| - 1 ==> StepAt(script, run, i)
  }

  /** No risky request is sent a second time. */
  ghost predicate NoRiskyRepeated(script: seq<Frame>, prelude: nat, run: seq<State>) {
    forall k :: 0 <= k < |run| ==> RiskyOnce(script, prelude, run[k].pos, run[k].phase)
  }

  // ---- the invariant ----

  /** Script indices in flight, oldest first: replies were produced before the requests still queued. */
  function InFlight(s: State): (tags: seq<nat>)
    ensures |tags| == |s.replies| + |s.requests|
  {
    Flight(s.replies, s.requests)
  }

  function Flight(replies: seq<Reply>, requests: seq<nat>): (tags: seq<nat>)
    ensures |tags| == |replies| + |requests|
  {
    Tags(replies) + requests
  }

  function Tags(replies: seq<Reply>): (tags: seq<nat>)
    ensures |tags| == |replies|
    ensures forall k :: 0 <= k < |tags| ==> tags[k] == replies[k].tag
  {
    seq(|replies|, (k: nat) requires k < |replies| => replies[k].tag)
  }

  /** Frames travel in script order, none older than `lo`, none newer than the host's position. */
  predicate QueuesOk(entries: nat, lo: nat, s: State) {
    && Sorted(InFlight(s)) && Bounded(InFlight(s), lo, s.pos)
    && forall k :: 0 <= k < |s.requests| ==> s.requests[k] < entries
  }

  /** A positive reply tells the truth. */
  ghost predicate RepliesOk(script: seq<Frame>, prelude: nat, s: State) {
    forall r :: r in s.replies ==>
      && r.tag < |script| && r.counter == Counter(script[r.tag])
      && (r.status == ERR_OK ==> Promised(script, prelude, s.flash, r.tag))
  }

  /** Nothing older than `lo` is in flight, replies tell the truth, and settled work is in place. */
  ghost predicate Consistent(script: seq<Frame>, prelude: nat, lo: nat, s: State) {
    && s.pos <= |script|
    && QueuesOk(|script|, lo, s)
    && RepliesOk(script, prelude, s)
    && Settled(script, prelude, s.pos, s.flash)
  }

  /** At most one copy of a risky request travels, and none before it is sent. */
  ghost predicate AtMostOne(script: seq<Frame>, prelude: nat, s: State) {
    Risky(script, prelude, s.pos) ==> Copies(InFlight(s), s.pos) <= if s.phase.Waiting? then 1 else 0
  }

  ghost predicate Inv(script: seq<Frame>, prelude: nat, s: State) {
    Consistent(script, prelude, Oldest(script, prelude, s.pos), s) && AtMostOne(script, prelude, s)
  }

  // ---- each step keeps it ----

  lemma SendKeeps(script: seq<Frame>, prelude: nat, lo: nat, s: State, t: State)
    requires ScriptOk(script) && Consistent(script, prelude, lo, s) && HostSends(script, s, t) && lo <= s.pos
    ensures Consistent(script, prelude, lo, t)
  {
    assert InFlight(t) == InFlight(s) + [s.pos];
  }

  lemma DropRequest(entries: nat, lo: nat, s: State, k: nat)
    requires QueuesOk(entries, lo, s) && k < |s.requests|
    ensures QueuesOk(entries, lo, s.(requests := s.requests[..k] + s.requests[k + 1..]))
  {
    var t := s.(requests := s.requests[..k] + s.requests[k + 1..]);
    var m := |s.replies| + k;
    DropKeeps(InFlight(s), m, lo, s.pos);
    assert InFlight(t) == InFlight(s)[..m] + InFlight(s)[m + 1..];
    forall i | 0 <= i < |t.requests| ensures t.requests[i] == s.requests[if i < k then i else i + 1] {
    }
  }

  lemma DropReply(entries: nat, lo: nat, s: State, k: nat)
    requires QueuesOk(entries, lo, s) && k < |s.replies|
    ensures QueuesOk(entries, lo, s.(replies := s.replies[..k] + s.replies[k + 1..]))
  {
    var t := s.(replies := s.replies[..k] + s.replies[k + 1..]);
    DropKeeps(InFlight(s), k, lo, s.pos);
    assert Tags(t.replies) == Tags(s.replies)[..k] + Tags(s.replies)[k + 1..];
    assert InFlight(t) == InFlight(s)[..k] + InFlight(s)[k + 1..];
  }

  lemma LoseRequestKeeps(script: seq<Frame>, prelude: nat, lo: nat, s: State, t: State)
    requires ScriptOk(script) && Consistent(script, prelude, lo, s) && LosesRequest(s, t)
    ensures Consistent(script, prelude, lo, t)
  {
    var k :| 0 <= k < |s.requests| && t == s.(requests := s.requests[..k] + s.requests[k + 1..]);
    DropRequest(|script|, lo, s, k);
  }

  lemma LoseReplyKeeps(script: seq<Frame>, prelude: nat, lo: nat, s: State, t: State)
    requires ScriptOk(script) && Consistent(script, prelude, lo, s) && LosesReply(s, t)
    ensures Consistent(script, prelude, lo, t)
  {
    var k :| 0 <= k < |s.replies| && t == s.(replies := s.replies[..k] + s.replies[k + 1..]);
    DropReply(|script|, lo, s, k);
  }

  /** An accepted reply answers the request the host is waiting for, or the mild twin just before it. */
  lemma AcceptanceIsGenuine(script: seq<Frame>, prelude: nat, s: State)
    requires ScriptOk(script) && Inv(script, prelude, s) && StartsApart(script, prelude) && NoTriplets(script, prelude)
    requires prelude <= s.pos < |script| && s.replies != []
    requires Accepts(script[s.pos], s.replies[0].status, s.replies[0].counter)
    ensures Stands(script, prelude, s.pos, s.replies[0].tag) && Holds(s.flash, script[s.pos])
  {
    var r := s.replies[0];
    assert InFlight(s)[0] == r.tag;
    assert r in s.replies;
    LookalikeStands(script, prelude, s.pos, r.tag);
  }

  /** The flight after the oldest reply has been taken. */
  lemma TakenFlight(s: State, t: State)
    requires s.replies != [] && t.replies == s.replies[1..] && t.requests == s.requests
    ensures InFlight(t) == InFlight(s)[1..] && InFlight(s)[0] == s.replies[0].tag
    ensures Copies(InFlight(t), s.pos) == Copies(InFlight(s), s.pos) - if s.replies[0].tag == s.pos then 1 else 0
  {
    FirstCopy(InFlight(s), s.pos);
    assert Tags(t.replies) == Tags(s.replies)[1..];
    assert InFlight(t) == InFlight(s)[1..];
  }

  /** A reply is skipped or ends the attempt. */
  lemma SkipKeeps(script: seq<Frame>, prelude: nat, s: State, t: State)
    requires ScriptOk(script) && Inv(script, prelude, s) && s.replies != []
    requires RiskyOnce(script, prelude, t.pos, t.phase)
    requires t == s.(replies := s.replies[1..], phase := t.phase)
    requires (t.phase == s.phase || t.phase == Raised || t.phase.Sending?)
    requires s.phase.Waiting? && (t.phase.Sending? ==> t.phase.attempt > 0)
    ensures Inv(script, prelude, t)
  {
    SkipQueues(script, prelude, Oldest(script, prelude, s.pos), s, t);
  }

  lemma SkipQueues(script: seq<Frame>, prelude: nat, lo: nat, s: State, t: State)
    requires QueuesOk(|script|, lo, s) && AtMostOne(script, prelude, s) && s.replies != [] && s.phase.Waiting?
    requires t == s.(replies := s.replies[1..], phase := t.phase) && RiskyOnce(script, prelude, t.pos, t.phase)
    requires t.phase == s.phase || t.phase == Raised || (t.phase.Sending? && t.phase.attempt > 0)
    ensures QueuesOk(|script|, lo, t) && AtMostOne(script, prelude, t)
  {
    DropReply(|script|, lo, s, 0);
    assert s.replies[..0] + s.replies[1..] == s.replies[1..];
    TakenFlight(s, t);
  }

  lemma AcceptedRest(script: seq<Frame>, prelude: nat, tags: seq<nat>, pos: nat, tag: nat, rest: seq<nat>, t: State)
    requires NoTriplets(script, prelude) && tags != [] && tags[0] == tag && rest == tags[1..]
    requires Sorted(tags) && Bounded(tags, Oldest(script, prelude, pos), pos)
    requires Risky(script, prelude, pos) ==> Copies(tags, pos) <= 1
    requires prelude <= pos ==> Stands(script, prelude, pos, tag)
    requires InFlight(t) == rest && t.pos == pos + 1
    requires forall k :: 0 <= k < |t.requests| ==> t.requests[k] < |script|
    ensures QueuesOk(|script|, Oldest(script, prelude, t.pos), t) && AtMostOne(script, prelude, t)
  {
    AcceptedTags(script, prelude, tags, Oldest(script, prelude, pos), pos);
  }

  /** What is left in flight when the oldest reply has been accepted. */
  lemma AcceptedQueues(script: seq<Frame>, prelude: nat, s: State, t: State)
    requires NoTriplets(script, prelude) && s.phase.Waiting? && s.replies != []
    requires QueuesOk(|script|, Oldest(script, prelude, s.pos), s) && AtMostOne(script, prelude, s)
    requires t == s.(replies := s.replies[1..], pos := s.pos + 1, phase := Sending(0))
    requires prelude <= s.pos ==> Stands(script, prelude, s.pos, s.replies[0].tag)
    ensures QueuesOk(|script|, Oldest(script, prelude, t.pos), t) && AtMostOne(script, prelude, t)
  {
    TakenFlight(s, t);
    AcceptedRest(script, prelude, InFlight(s), s.pos, s.replies[0].tag, InFlight(t), t);
  }

  lemma AcceptKeeps(script: seq<Frame>, prelude: nat, s: State, t: State)
    requires ScriptOk(script) && Inv(script, prelude, s) && StartsApart(script, prelude) && NoTriplets(script, prelude)
    requires s.pos < |script| && s.phase.Waiting? && s.replies != []
    requires Accepts(script[s.pos], s.replies[0].status, s.replies[0].counter)
    requires t == s.(replies := s.replies[1..], pos := s.pos + 1, phase := Sending(0))
    ensures Inv(script, prelude, t)
  {
    if prelude <= s.pos {
      AcceptanceIsGenuine(script, prelude, s);
    }
    AcceptedQueues(script, prelude, s, t);
  }

  lemma ReadKeeps(script: seq<Frame>, prelude: nat, s: State, t: State)
    requires ScriptOk(script) && Inv(script, prelude, s) && StartsApart(script, prelude) && NoTriplets(script, prelude)
    requires HostReads(script, s, t) && RiskyOnce(script, prelude, t.pos, t.phase)
    ensures Inv(script, prelude, t)
  {
    if t.pos != s.pos {
      AcceptKeeps(script, prelude, s, t);
    } else {
      SkipKeeps(script, prelude, s, t);
    }
  }

  /** Serving moves the oldest request to the back of the replies: the order in flight is unchanged. */
  lemma MoveToReplies(entries: nat, lo: nat, s: State, r: Reply, g: Flash)
    requires QueuesOk(entries, lo, s) && s.requests != [] && r.tag == s.requests[0]
    ensures QueuesOk(entries, lo, s.(flash := g, requests := s.requests[1..], replies := s.replies + [r]))
    ensures forall k :: 0 <= k < |s.replies| ==> s.replies[k].tag <= r.tag
    ensures lo <= r.tag
  {
    var t := s.(flash := g, requests := s.requests[1..], replies := s.replies + [r]);
    assert InFlight(t) == InFlight(s);
    assert InFlight(s)[|s.replies|] == r.tag;
    forall k | 0 <= k < |s.replies| ensures s.replies[k].tag <= r.tag {
      assert InFlight(s)[k] == s.replies[k].tag;
    }
  }

  lemma ServeKeepsReplies(script: seq<Frame>, prelude: nat, s: State, g: Flash, r: Reply)
    requires ScriptOk(script) && NonInterfering(script) && RepliesOk(script, prelude, s)
    requires r.tag < |script| && r.counter == Counter(script[r.tag]) && Serves(s.flash, script[r.tag], g, r.status)
    requires forall k :: 0 <= k < |s.replies| ==> s.replies[k].tag <= r.tag
    ensures RepliesOk(script, prelude, s.(flash := g, replies := s.replies + [r]))
  {
    forall k | 0 <= k < |s.replies| && s.replies[k].status == ERR_OK
      ensures Promised(script, prelude, g, s.replies[k].tag)
    {
      assert s.replies[k] in s.replies;
      ServeKeepsPromise(script, prelude, s.flash, g, r.tag, s.replies[k].tag, r.status);
    }
    if r.status == ERR_OK {
      ServeMakesPromise(script, prelude, s.flash, g, r.tag);
    }
  }

  lemma ServeKeeps(script: seq<Frame>, prelude: nat, lo: nat, s: State, t: State)
    requires ScriptOk(script) && NonInterfering(script) && Behind(script, prelude, s.pos) <= lo
    requires Consistent(script, prelude, lo, s) && DeviceServes(script, s, t)
    ensures Consistent(script, prelude, lo, t)
  {
    var i := s.requests[0];
    var q := script[i];
    var status :| Serves(s.flash, q, t.flash, status)
      && t == s.(flash := t.flash, requests := s.requests[1..], replies := s.replies + [Reply(i, status, Counter(q))]);
    var r := Reply(i, status, Counter(q));
    MoveToReplies(|script|, lo, s, r, t.flash);
    ServeKeepsReplies(script, prelude, s, t.flash, r);
    ServeKeepsSettled(script, prelude, s.pos, s.flash, t.flash, i, status);
  }

  lemma LostRequestCopies(script: seq<Frame>, prelude: nat, s: State, t: State)
    requires AtMostOne(script, prelude, s) && LosesRequest(s, t)
    ensures AtMostOne(script, prelude, t)
  {
    var k :| 0 <= k < |s.requests| && t == s.(requests := s.requests[..k] + s.requests[k + 1..]);
    DropCopies(s.requests, k, s.pos);
    SplitCopies(s);
    SplitCopies(t);
  }

  lemma DropTag(replies: seq<Reply>, k: nat)
    requires k < |replies|
    ensures Tags(replies[..k] + replies[k + 1..]) == Tags(replies)[..k] + Tags(replies)[k + 1..]
  {
  }

  lemma LostReplyCopies(script: seq<Frame>, prelude: nat, s: State, t: State)
    requires AtMostOne(script, prelude, s) && LosesReply(s, t)
    ensures AtMostOne(script, prelude, t)
  {
    var k :| 0 <= k < |s.replies| && t == s.(replies := s.replies[..k] + s.replies[k + 1..]);
    DropCopies(Tags(s.replies), k, s.pos);
    DropTag(s.replies, k);
    SplitCopies(s);
    SplitCopies(t);
  }

  lemma SplitCopies(s: State)
    ensures Copies(InFlight(s), s.pos) == Copies(Tags(s.replies), s.pos) + Copies(s.requests, s.pos)
  {
  }

  lemma SentCopies(script: seq<Frame>, prelude: nat, s: State, t: State)
    requires AtMostOne(script, prelude, s) && HostSends(script, s, t)
    ensures AtMostOne(script, prelude, t)
  {
    assert InFlight(t) == InFlight(s) + [s.pos];
  }

  lemma ServedCopies(script: seq<Frame>, prelude: nat, s: State, t: State)
    requires ScriptOk(script) && AtMostOne(script, prelude, s) && DeviceServes(script, s, t)
    ensures AtMostOne(script, prelude, t)
  {
    assert InFlight(t) == InFlight(s);
  }

  lemma NextKeeps(script: seq<Frame>, prelude: nat, s: State, t: State)
    requires ScriptOk(script) && NonInterfering(script) && StartsApart(script, prelude) && NoTriplets(script, prelude)
    requires Inv(script, prelude, s) && Next(script, s, t) && RiskyOnce(script, prelude, t.pos, t.phase)
    ensures Inv(script, prelude, t)
  {
    if HostSends(script, s, t) {
      SendKeeps(script, prelude, Oldest(script, prelude, s.pos), s, t);
      SentCopies(script, prelude, s, t);
    } else if HostReads(script, s, t) {
      ReadKeeps(script, prelude, s, t);
    } else if HostTimesOut(script, s, t) {
      assert InFlight(t) == InFlight(s);
    } else if DeviceServes(script, s, t) {
      ServeKeeps(script, prelude, Oldest(script, prelude, s.pos), s, t);
      ServedCopies(script, prelude, s, t);
    } else if LosesRequest(s, t) {
      LoseRequestKeeps(script, prelude, Oldest(script, prelude, s.pos), s, t);
      LostRequestCopies(script, prelude, s, t);
    } else {
      LoseReplyKeeps(script, prelude, Oldest(script, prelude, s.pos), s, t);
      LostReplyCopies(script, prelude, s, t);
    }
  }

  /** Every prefix of a run is a run, and its last state steps to the next one. */
  lemma RunPrefix(script: seq<Frame>, run: seq<State>, n: nat)
    requires ScriptOk(script) && Run(script, run) && 0 < n <= |run|
    ensures Run(script, run[..n])
    ensures n < |run| ==> Next(script, run[n - 1], run[n])
  {
    forall i | 0 <= i < n - 1 ensures StepAt(script, run[..n], i) {
      assert StepAt(script, run, i);
    }
    if n < |run| {
      assert StepAt(script, run, n - 1);
    }
  }

  /**
   Safety over every run in which no risky request was repeated: at every moment, everything the host
   has moved past is in flash. Since it holds at every later moment too, nothing still queued can undo it.
   */
  lemma {:induction false} EveryRunIsSafe(script: seq<Frame>, prelude: nat, run: seq<State>)
    requires ScriptOk(script) && NonInterfering(script) && StartsApart(script, prelude) && NoTriplets(script, prelude)
    requires Run(script, run) && NoRiskyRepeated(script, prelude, run)
    ensures Inv(script, prelude, run[|run| - 1])
    decreases |run|
  {
    var n := |run| - 1;
    if n == 0 {
      assert InFlight(run[0]) == [];
    } else {
      RunPrefix(script, run, n);
      assert forall k :: 0 <= k < n ==> run[..n][k] == run[k];
      EveryRunIsSafe(script, prelude, run[..n]);
      assert RiskyOnce(script, prelude, run[n].pos, run[n].phase);
      NextKeeps(script, prelude, run[n - 1], run[n]);
    }
  }

  lemma NothingRepeated(script: seq<Frame>, prelude: nat, run: seq<State>)
    requires NoneRisky(script, prelude)
    ensures NoRiskyRepeated(script, prelude, run)
  {
  }

  lemma Extend(script: seq<Frame>, run: seq<State>, t: State)
    requires ScriptOk(script) && Run(script, run) && Next(script, run[|run| - 1], t)
    ensures Run(script, run + [t]) && (run + [t])[0] == run[0]
  {
    var longer := run + [t];
    forall i | 0 <= i < |longer| - 1 ensures StepAt(script, longer, i) {
      if i < |run| - 1 {
        assert StepAt(script, run, i);
      }
    }
  }
}
