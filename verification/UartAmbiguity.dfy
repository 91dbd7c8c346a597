/**
 Exactly which segments, and which sessions, every run over the UART gets right.

 The acknowledgement of an erase and of the last chunk carry the same counter. With more
 than one chunk they are never confused; with one chunk they follow each other, and a
 late acknowledgement of a repeated erase passes for the one of the write.
 */
module UartAmbiguity {
  import opened Nor
  import opened FlashOps
  import opened Service
  import opened Segments
  import opened Scripts
  import opened UartLink
  import opened UartSession
  import opened SessionPlan

  // ---- runs that follow a plan ----

  /** Nothing in flight, the next request due. */
  function Rest(f: Flash, pos: nat): State {
    State(f, [], [], pos, Sending(0))
  }

  lemma ServeStep(script: seq<Frame>, s: State, t: State, status: nat)
    requires ScriptOk(script) && s.requests != [] && s.requests[0] < |script|
    requires Serves(s.flash, script[s.requests[0]], t.flash, status)
    requires t == State(t.flash, s.requests[1..],
                        s.replies + [Reply(s.requests[0], status, Counter(script[s.requests[0]]))], s.pos, s.phase)
    ensures DeviceServes(script, s, t)
  {
  }

  /** A request sent, served and acknowledged. */
  lemma GoodSteps(script: seq<Frame>, run: seq<State>, f: Flash, p: nat, g: Flash) returns (longer: seq<State>)
    requires ScriptOk(script) && Run(script, run) && run[|run| - 1] == Rest(f, p) && p < |script|
    requires Serves(f, script[p], g, ERR_OK)
    ensures Run(script, longer) && longer[0] == run[0] && longer[|longer| - 1] == Rest(g, p + 1)
  {
    var ack := Reply(p, ERR_OK, Counter(script[p]));
    var s1 := State(f, [p], [], p, Waiting(0));
    var s2 := State(g, [], [ack], p, Waiting(0));
    assert HostSends(script, Rest(f, p), s1);
    Extend(script, run, s1);
    longer := run + [s1];
    ServeStep(script, s1, s2, ERR_OK);
    Extend(script, longer, s2);
    longer := longer + [s2];
    assert HostReads(script, s2, Rest(g, p + 1));
    Extend(script, longer, Rest(g, p + 1));
    longer := longer + [Rest(g, p + 1)];
  }

  /** Request p is sent, given up and sent again; both copies arrive. */
  lemma SentTwice(script: seq<Frame>, run: seq<State>, f: Flash, p: nat) returns (longer: seq<State>)
    requires ScriptOk(script) && Run(script, run) && run[|run| - 1] == Rest(f, p) && p < |script|
    ensures Run(script, longer) && longer[0] == run[0] && longer[|longer| - 1] == State(f, [p, p], [], p, Waiting(1))
  {
    var s1 := State(f, [p], [], p, Waiting(0));
    var s2 := State(f, [p], [], p, Sending(1));
    var s3 := State(f, [p, p], [], p, Waiting(1));
    assert HostSends(script, Rest(f, p), s1);
    Extend(script, run, s1);
    longer := run + [s1];
    assert HostTimesOut(script, s1, s2);
    Extend(script, longer, s2);
    longer := longer + [s2];
    assert HostSends(script, s2, s3);
    Extend(script, longer, s3);
    longer := longer + [s3];
  }

  /** The first acknowledgement ends request p; the second copy is still to be served. */
  lemma FirstOfTwo(script: seq<Frame>, run: seq<State>, f: Flash, p: nat, g: Flash) returns (longer: seq<State>)
    requires ScriptOk(script) && Run(script, run) && run[|run| - 1] == State(f, [p, p], [], p, Waiting(1))
    requires p < |script|
    requires Serves(f, script[p], g, ERR_OK) && Serves(g, script[p], g, ERR_OK)
    ensures Run(script, longer) && longer[0] == run[0]
    ensures longer[|longer| - 1] == State(g, [], [Reply(p, ERR_OK, Counter(script[p]))], p + 1, Sending(0))
  {
    var ack := Reply(p, ERR_OK, Counter(script[p]));
    var s0, s4 := run[|run| - 1], State(g, [p], [ack], p, Waiting(1));
    var s5 := State(g, [p], [], p + 1, Sending(0));
    var s6 := State(g, [], [ack], p + 1, Sending(0));
    ServeStep(script, s0, s4, ERR_OK);
    Extend(script, run, s4);
    longer := run + [s4];
    assert HostReads(script, s4, s5);
    Extend(script, longer, s5);
    longer := longer + [s5];
    ServeStep(script, s5, s6, ERR_OK);
    Extend(script, longer, s6);
    longer := longer + [s6];
  }

  /** The second acknowledgement ends the next request, which is itself lost. */
  lemma SecondOfTwo(script: seq<Frame>, run: seq<State>, g: Flash, p: nat) returns (longer: seq<State>)
    requires ScriptOk(script) && Run(script, run) && Twin(script, 0, p)
    requires run[|run| - 1] == State(g, [], [Reply(p, ERR_OK, Counter(script[p]))], p + 1, Sending(0))
    ensures Run(script, longer) && longer[0] == run[0] && longer[|longer| - 1] == Rest(g, p + 2)
  {
    var s6 := run[|run| - 1];
    var s7 := State(g, [p + 1], s6.replies, p + 1, Waiting(0));
    var s8 := State(g, [p + 1], [], p + 2, Sending(0));
    assert HostSends(script, s6, s7);
    Extend(script, run, s7);
    longer := run + [s7];
    assert HostReads(script, s7, s8);
    Extend(script, longer, s8);
    longer := longer + [s8];
    assert Rest(g, p + 2) == s8.(requests := s8.requests[..0] + s8.requests[0 + 1..]);
    assert LosesRequest(s8, Rest(g, p + 2));
    Extend(script, longer, Rest(g, p + 2));
    longer := longer + [Rest(g, p + 2)];
  }

  /** Every plan is followed by some run, the request after `bad` being taken for done. */
  lemma {:induction false} PlanRun(script: seq<Frame>, fs: seq<Flash>, bad: nat, n: nat) returns (run: seq<State>)
    requires ScriptOk(script) && Plan(script, fs, bad) && Twin(script, 0, bad) && n <= |script| && n != bad + 1
    ensures Run(script, run) && run[|run| - 1] == Rest(fs[n], n) && run[0].flash == fs[0]
    decreases n
  {
    if n == 0 {
      run := [Rest(fs[0], 0)];
    } else if n == bad + 2 {
      assert PlanStep(script, fs, bad, bad) && PlanStep(script, fs, bad, bad + 1);
      run := PlanRun(script, fs, bad, bad);
      run := SentTwice(script, run, fs[bad], bad);
      run := FirstOfTwo(script, run, fs[bad], bad, fs[bad + 1]);
      run := SecondOfTwo(script, run, fs[bad + 1], bad);
    } else {
      assert PlanStep(script, fs, bad, n - 1);
      run := PlanRun(script, fs, bad, n - 1);
      run := GoodSteps(script, run, fs[n - 1], n - 1, fs[n]);
    }
  }

  /** A plan without a bad request is followed by some run too. */
  lemma {:induction false} SoundRun(script: seq<Frame>, fs: seq<Flash>, n: nat) returns (run: seq<State>)
    requires ScriptOk(script) && GoodPlan(script, fs) && n <= |script|
    ensures Run(script, run) && run[|run| - 1] == Rest(fs[n], n) && run[0].flash == fs[0]
    decreases n
  {
    if n == 0 {
      run := [Rest(fs[0], 0)];
    } else {
      run := SoundRun(script, fs, n - 1);
      assert Good(fs[n - 1], script[n - 1], fs[n]);
      run := GoodSteps(script, run, fs[n - 1], n - 1, fs[n]);
    }
  }

  // ---- one segment ----

  /** Whenever the host gets through the segment's requests, the segment is in flash. */
  ghost predicate EveryRunWrites(seg: Segment, chunk: nat)
    requires Fits(seg) && 0 < chunk <= DATA_MAX && ScriptOk(Script(seg, chunk))
  {
    forall run: seq<State> :: Run(Script(seg, chunk), run) && run[|run| - 1].pos == |Script(seg, chunk)| ==>
      InFlash(run[|run| - 1].flash, seg)
  }

  /** The exact condition, which the host could check before it starts. */
  lemma WritesExactlyWhenUnambiguous(seg: Segment, chunk: nat)
    requires Fits(seg) && 0 < chunk <= DATA_MAX
    ensures ScriptOk(Script(seg, chunk))
    ensures EveryRunWrites(seg, chunk) <==> Unambiguous(seg, chunk)
  {
    ScriptBelongs(seg, chunk);
    if Unambiguous(seg, chunk) {
      ScriptIsNeverRisky(seg, chunk);
      forall run: seq<State> | Run(Script(seg, chunk), run) && run[|run| - 1].pos == |Script(seg, chunk)|
        ensures InFlash(run[|run| - 1].flash, seg)
      {
        NothingRepeated(Script(seg, chunk), 0, run);
        SafeRun(seg, chunk, run);
      }
    } else {
      var run := MistakenRun(seg, chunk, Erased(seq(CAPACITY, (_: nat) => BLANK), 0, 0));
      assert !InFlash(run[|run| - 1].flash, seg);
    }
  }

  lemma SingleChunkScript(seg: Segment, chunk: nat)
    requires Fits(seg) && 0 < chunk <= DATA_MAX && |seg.data| <= chunk
    ensures Script(seg, chunk) == [EraseFrame(seg.address, |seg.data|), WriteFrame(seg.address, seg.data)]
    ensures ScriptOk(Script(seg, chunk)) && Twin(Script(seg, chunk), 0, 0)
  {
    ScriptBelongs(seg, chunk);
    PiecesAscend(seg.address, seg.data, chunk);
    TwinInScript(seg, chunk, 0);
    var script := Script(seg, chunk);
    assert |script| == 2 && script[0] == EraseFrame(seg.address, |seg.data|);
    assert script[1] == WriteFrame(seg.address, seg.data);
  }

  /** A twin in a segment's script is its erase, next to its only chunk. */
  lemma TwinIsTheErase(seg: Segment, chunk: nat, i: nat)
    requires Fits(seg) && 0 < chunk <= DATA_MAX && Twin(Script(seg, chunk), 0, i)
    ensures i == 0 && |seg.data| <= chunk && (AllBlank(seg.data) ==> !Risky(Script(seg, chunk), 0, i))
  {
    TwinInScript(seg, chunk, i);
    SingleChunkScript(seg, chunk);
  }

  lemma ScriptIsNeverRisky(seg: Segment, chunk: nat)
    requires Fits(seg) && 0 < chunk <= DATA_MAX && Unambiguous(seg, chunk)
    ensures NoneRisky(Script(seg, chunk), 0)
  {
    forall i: nat ensures !Risky(Script(seg, chunk), 0, i) {
      if Twin(Script(seg, chunk), 0, i) {
        TwinIsTheErase(seg, chunk, i);
      }
    }
  }

  lemma ScriptHasNoTriplets(seg: Segment, chunk: nat)
    requires Fits(seg) && 0 < chunk <= DATA_MAX
    ensures NoTriplets(Script(seg, chunk), 0)
  {
    forall i: nat, j: nat | Twin(Script(seg, chunk), 0, i) && Twin(Script(seg, chunk), 0, j) ensures j != i + 1 {
      TwinIsTheErase(seg, chunk, j);
    }
  }

  /** A segment is in flash after every run that got through without repeating a risky erase. */
  lemma SafeRun(seg: Segment, chunk: nat, run: seq<State>)
    requires Fits(seg) && 0 < chunk <= DATA_MAX && ScriptOk(Script(seg, chunk)) && Run(Script(seg, chunk), run)
    requires NoRiskyRepeated(Script(seg, chunk), 0, run) && run[|run| - 1].pos == |Script(seg, chunk)|
    ensures InFlash(run[|run| - 1].flash, seg)
  {
    var script, last := Script(seg, chunk), run[|run| - 1];
    ScriptNonInterfering(seg, chunk);
    ScriptHasNoTriplets(seg, chunk);
    EveryRunIsSafe(script, 0, run);
    assert Settled(script, 0, last.pos, last.flash);
    ScriptMakesSegment(last.flash, seg, chunk);
  }

  ghost predicate NoEraseRetry(run: seq<State>) {
    forall k :: 0 <= k < |run| && run[k].pos == 0 ==> run[k].phase == Sending(0) || run[k].phase == Waiting(0)
  }

  /** A single-chunk segment is safe on every run in which the erase was not repeated. */
  lemma OneEraseRun(seg: Segment, chunk: nat, run: seq<State>)
    requires Fits(seg) && 0 < chunk <= DATA_MAX && |seg.data| <= chunk
    requires ScriptOk(Script(seg, chunk)) && Run(Script(seg, chunk), run) && NoEraseRetry(run)
    requires run[|run| - 1].pos == |Script(seg, chunk)|
    ensures InFlash(run[|run| - 1].flash, seg)
  {
    SingleChunkScript(seg, chunk);
    assert NoRiskyRepeated(Script(seg, chunk), 0, run);
    SafeRun(seg, chunk, run);
  }

  /** The plan of a single chunk that is never written. */
  lemma MissingChunk(seg: Segment, chunk: nat, f: Flash) returns (fs: seq<Flash>)
    requires Fits(seg) && 0 < chunk <= DATA_MAX && !Unambiguous(seg, chunk)
    ensures Plan(Script(seg, chunk), fs, 0) && fs[0] == f && |fs| == 3 && !InFlash(fs[2], seg)
  {
    SingleChunkScript(seg, chunk);
    var q, w := EraseFrame(seg.address, |seg.data|), WriteFrame(seg.address, seg.data);
    var g := EraseIsGood(f, seg);
    assert GoodPlan([], [f]);
    WriteCanFail(g, seg.address, seg.data);
    AppendBad([], [f], q, w, g);
    assert [] + [q, w] == Script(seg, chunk);
    fs := [f] + [g, g];
    NotBlankIsMissing(g, seg);
  }

  /**
   The erase is sent, times out on the host, is sent again; the first acknowledgement ends
   the erase, the second one ends the write, and the write itself is lost.
   */
  lemma MistakenRun(seg: Segment, chunk: nat, f: Flash) returns (run: seq<State>)
    requires Fits(seg) && 0 < chunk <= DATA_MAX && !Unambiguous(seg, chunk)
    ensures ScriptOk(Script(seg, chunk)) && Run(Script(seg, chunk), run) && run[0].flash == f
    ensures run[|run| - 1].pos == |Script(seg, chunk)|
    ensures run[|run| - 1].requests == [] && run[|run| - 1].replies == []
    ensures !InFlash(run[|run| - 1].flash, seg)
  {
    SingleChunkScript(seg, chunk);
    var fs := MissingChunk(seg, chunk, f);
    run := PlanRun(Script(seg, chunk), fs, 0, 2);
  }

  // ---- sessions ----

  /** Whenever the host gets through the session, every segment is in flash. */
  ghost predicate EverySessionWrites(segs: seq<Segment>, chunk: nat)
    requires Programs(segs, chunk)
  {
    forall run: seq<State>, m: nat ::
      (Run(Session(segs, chunk), run) && run[|run| - 1].pos == |Session(segs, chunk)| && m < |segs|)
      ==> InFlash(run[|run| - 1].flash, segs[m])
  }

  /** Every session can be completed, from any flash contents. */
  lemma SessionCompletes(segs: seq<Segment>, chunk: nat, f: Flash) returns (run: seq<State>)
    requires Programs(segs, chunk)
    ensures Run(Session(segs, chunk), run) && run[0].flash == f && run[|run| - 1].pos == |Session(segs, chunk)|
  {
    var fs := SoundPlan(segs, chunk, |segs|, f);
    run := SoundRun(Session(segs, chunk), fs, |Session(segs, chunk)|);
  }

  /** Segment b of the session can be missing at the end. */
  lemma MistakenSession(segs: seq<Segment>, chunk: nat, b: nat, f: Flash) returns (run: seq<State>)
    requires Programs(segs, chunk) && b < |segs| && !Unambiguous(segs[b], chunk)
    ensures Run(Session(segs, chunk), run) && run[|run| - 1].pos == |Session(segs, chunk)|
    ensures !InFlash(run[|run| - 1].flash, segs[b])
  {
    var script, bad := Session(segs, chunk), Begin(segs, chunk, b);
    var fs := MissingPlan(segs, chunk, b, |segs|, f);
    EraseIsTwin(segs, chunk, b);
    run := PlanRun(script, fs, bad, |script|);
  }

  /** The exact condition for sessions. */
  lemma SessionsWriteExactlyWhenUnambiguous(segs: seq<Segment>, chunk: nat)
    requires Programs(segs, chunk)
    ensures EverySessionWrites(segs, chunk) <==> AllUnambiguous(segs, chunk)
  {
    if AllUnambiguous(segs, chunk) {
      forall run: seq<State>, m: nat |
        Run(Session(segs, chunk), run) && run[|run| - 1].pos == |Session(segs, chunk)| && m < |segs|
        ensures InFlash(run[|run| - 1].flash, segs[m])
      {
        UnambiguousSegmentsAreWritten(segs, chunk, run, |run| - 1, m);
      }
    } else {
      var b :| 0 <= b < |segs| && !Unambiguous(segs[b], chunk);
      var run := MistakenSession(segs, chunk, b, Erased(seq(CAPACITY, (_: nat) => BLANK), 0, 0));
      assert !InFlash(run[|run| - 1].flash, segs[b]);
    }
  }
}
