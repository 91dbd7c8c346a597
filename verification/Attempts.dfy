/**
 How often the UART host sends each request: three times at most, and three times before it gives up.
 Only the ping is sent until a deadline.
 */
module Attempts {
  import opened Service
  import opened Scripts
  import opened UartLink

  /** The step from s to t puts request p on the wire. */
  predicate Sent(s: State, t: State, p: nat) {
    s.pos == p && s.phase.Sending? && t.phase.Waiting? && t.requests == s.requests + [p]
  }

  /** How often a run has sent request p. */
  function Sends(run: seq<State>, p: nat): nat {
    if |run| < 2 then 0
    else Sends(run[..|run| - 1], p) + if Sent(run[|run| - 2], run[|run| - 1], p) then 1 else 0
  }

  /** No state of the run is past request p. */
  ghost predicate NeverPassed(run: seq<State>, p: nat) {
    forall i :: 0 <= i < |run| ==> run[i].pos <= p
  }

  /** The host has raised: the request was sent three times, and no reply was taken for its acknowledgement. */
  ghost predicate GivenUp(script: seq<Frame>, run: seq<State>) {
    && run != []
    && var s := run[|run| - 1];
       && s.phase == Raised && s.pos < |script| && script[s.pos].command != CMD_PING
       && Sends(run, s.pos) == 3 && NeverPassed(run, s.pos)
  }

  /** The ping has not been answered by the deadline. */
  ghost predicate NeverReady(run: seq<State>) {
    run != [] && run[|run| - 1].phase.Sending? && NeverPassed(run, 0)
  }

  /**
   Requests ahead are unsent; the current one was sent once per attempt; those passed between once and three times.
   */
  ghost predicate Counted(script: seq<Frame>, run: seq<State>) {
    && run != []
    && var s := run[|run| - 1];
       && NeverPassed(run, s.pos) && Current(script, run, s.pos, s.phase)
       && (forall p: nat :: p > s.pos ==> Sends(run, p) == 0)
       && (forall p: nat :: p < s.pos ==> Passed(script, run, p))
  }

  ghost predicate Current(script: seq<Frame>, run: seq<State>, p: nat, phase: Phase) {
    match phase
    case Sending(a) => Sends(run, p) == a && (p < |script| && script[p].command != CMD_PING ==> a < 3)
    case Waiting(a) =>
      Sends(run, p) == a + 1 && p < |script| && (script[p].command != CMD_PING ==> a < 3)
    case Raised => Sends(run, p) == 3 && p < |script| && script[p].command != CMD_PING
  }

  ghost predicate Passed(script: seq<Frame>, run: seq<State>, p: nat) {
    p < |script| && 1 <= Sends(run, p) && (script[p].command != CMD_PING ==> Sends(run, p) <= 3)
  }

  lemma {:induction false} SendsOn(run: seq<State>, t: State, p: nat)
    requires run != []
    ensures Sends(run + [t], p) == Sends(run, p) + if Sent(run[|run| - 1], t, p) then 1 else 0
  {
    assert (run + [t])[..|run|] == run;
  }

  /** One more step of the machine. */
  lemma {:induction false} CountedOn(script: seq<Frame>, run: seq<State>, t: State)
    requires ScriptOk(script) && Counted(script, run) && Next(script, run[|run| - 1], t)
    ensures Counted(script, run + [t])
  {
    var s, longer := run[|run| - 1], run + [t];
    forall p: nat ensures Sends(longer, p) == Sends(run, p) + if Sent(s, t, p) then 1 else 0 {
      SendsOn(run, t, p);
    }
    SentOnlyThere(script, s, t);
    assert NeverPassed(longer, t.pos);
    forall p: nat | p < t.pos ensures Passed(script, longer, p) {
      if p < s.pos {
        assert Passed(script, run, p);
      }
    }
  }

  lemma {:induction false} SentOnlyThere(script: seq<Frame>, s: State, t: State)
    requires ScriptOk(script) && Next(script, s, t)
    ensures Sent(s, t, s.pos) <==> s.phase.Sending? && t.phase.Waiting?
    ensures s.phase.Sending? && t.phase.Waiting? ==> t.pos == s.pos < |script| && t.phase.attempt == s.phase.attempt
    ensures t.pos == s.pos || (t.pos == s.pos + 1 && s.pos < |script| && s.phase.Waiting? && t.phase == Sending(0))
    ensures t.pos == s.pos && t.phase != s.phase && !(s.phase.Sending? && t.phase.Waiting?) ==>
              s.pos < |script| && s.phase.Waiting? && t.phase == NextAttempt(script[s.pos], s.phase.attempt)
  {
  }

  /** Whatever the link does: how often each request has been sent. */
  lemma {:induction false} EveryRunIsCounted(script: seq<Frame>, run: seq<State>)
    requires ScriptOk(script) && Run(script, run)
    ensures Counted(script, run)
    decreases |run|
  {
    if |run| > 1 {
      var n := |run| - 1;
      forall i | 0 <= i < n - 1 ensures StepAt(script, run[..n], i) {
        assert StepAt(script, run, i);
      }
      EveryRunIsCounted(script, run[..n]);
      assert StepAt(script, run, n - 1);
      CountedOn(script, run[..n], run[n]);
      assert run[..n] + [run[n]] == run;
    }
  }

  /** A host that raised had sent its request three times. */
  lemma {:induction false} RaisedIsGivenUp(script: seq<Frame>, run: seq<State>)
    requires ScriptOk(script) && Run(script, run) && run[|run| - 1].phase == Raised
    ensures GivenUp(script, run)
  {
    EveryRunIsCounted(script, run);
  }
}
