/**
 The host side as code: the command loop, the segment loop and the whole session, driving
 the anchor through lossy queues. Every execution is a run of the machine in `UartLink`,
 so the run theorems apply to what these methods return.
 */
module UartHost {
  import opened Nor
  import opened FlashOps
  import opened Checksums
  import opened Service
  import opened Segments
  import opened Scripts
  import opened UartLink
  import opened UartSession
  import opened UartAmbiguity
  import opened Layout
  import opened Attempts

  /** Host, link and anchor together. */
  class Bench {
    const anchor: Anchor
    var requests: seq<nat>
    var replies: seq<Reply>
    /** The frames that can occur on the wire; a queued index stands for one of them. */
    const script: seq<Frame>
    var pos: nat
    var phase: Phase
    ghost var run: seq<State>

    ghost function View(): State
      reads this, anchor.chip
    {
      State(anchor.chip.mem, requests, replies, pos, phase)
    }

    ghost predicate Valid()
      reads this, anchor, anchor.chip
    {
      && anchor.Valid() && ScriptOk(script)
      && Run(script, run) && run[|run| - 1] == View()
      && forall k :: 0 <= k < |requests| ==> requests[k] < |script|
    }

    constructor (script: seq<Frame>)
      requires ScriptOk(script)
      ensures Valid() && this.script == script && pos == 0 && phase == Sending(0)
      ensures fresh(anchor) && fresh(anchor.chip) && fresh(anchor.data)
    {
      anchor := new Anchor();
      requests, replies := [], [];
      this.script := script;
      pos, phase := 0, Sending(0);
      new;
      run := [View()];
    }

    /** `ser.write`: queue the frame of the current command. */
    method Send(q: Frame)
      requires Valid() && pos < |script| && script[pos] == q && phase.Sending?
      modifies this
      ensures Valid() && pos == old(pos) && phase == Waiting(old(phase.attempt))
    {
      ghost var s := View();
      requests := requests + [pos];
      phase := Waiting(phase.attempt);
      assert HostSends(script, s, View());
      Extend(script, run, View());
      run := run + [View()];
    }

    /** One thing the world may do: lose a frame, or let the anchor serve its oldest request. */
    method WorldStep()
      requires Valid()
      modifies this, anchor.chip, anchor.data
      ensures Valid() && pos == old(pos) && phase == old(phase)
    {
      ghost var s := View();
      var choice: nat, k: nat := *, *;
      if choice == 0 && k < |requests| {
        requests := requests[..k] + requests[k + 1..];
        assert LosesRequest(s, View());
      } else if choice == 1 && k < |replies| {
        replies := replies[..k] + replies[k + 1..];
        assert LosesReply(s, View());
      } else if |requests| > 0 {
        var tag := requests[0];
        var status, _, counter := anchor.Serve(script[tag]);
        requests := requests[1..];
        replies := replies + [Reply(tag, status, counter)];
        ServeStep(script, s, View(), status);
      } else {
        return;
      }
      Extend(script, run, View());
      run := run + [View()];
    }
  
    /** Any finite amount of time passes. */
    method World()
      requires Valid()
      modifies this, anchor.chip, anchor.data
      ensures Valid() && pos == old(pos) && phase == old(phase)
    {
      var steps: nat := *;
      while steps > 0
        invariant Valid() && pos == old(pos) && phase == old(phase)
      {
        WorldStep();
        steps := steps - 1;
      }
    }

    /** The attempt is given up: deadline passed, or an error status came back. */
    method GiveUp(q: Frame)
      requires Valid() && pos < |script| && script[pos] == q && phase.Waiting?
      modifies this
      ensures Valid() && pos == old(pos) && phase == NextAttempt(q, old(phase.attempt))
    {
      ghost var s := View();
      phase := NextAttempt(q, phase.attempt);
      assert HostTimesOut(script, s, View());
      Extend(script, run, View());
      run := run + [View()];
    }

    /** Take the oldest reply and judge it. */
    method TakeReply(q: Frame) returns (accepted: bool)
      requires Valid() && pos < |script| && script[pos] == q && phase.Waiting? && replies != []
      modifies this
      ensures Valid()
      ensures accepted ==> pos == old(pos) + 1 && phase == Sending(0)
      ensures !accepted ==> pos == old(pos)
      ensures !accepted && !phase.Waiting? ==> phase == NextAttempt(q, old(phase.attempt))
      ensures phase.Waiting? ==> phase == old(phase)
    {
      ghost var s := View();
      var r := replies[0];
      replies := replies[1..];
      accepted := false;
      if r.status != ERR_OK {
        phase := NextAttempt(q, phase.attempt);
      } else if r.counter == Counter(q) {
        pos, phase, accepted := pos + 1, Sending(0), true;
      }
      assert HostReads(script, s, View());
      Extend(script, run, View());
      run := run + [View()];
    }

    /** One attempt: send the frame, then read replies until accepted, refused or out of time. */
    method Attempt(q: Frame) returns (accepted: bool)
      requires Valid() && pos < |script| && script[pos] == q && phase.Sending?
      modifies this, anchor.chip, anchor.data
      ensures Valid()
      ensures accepted ==> pos == old(pos) + 1 && phase == Sending(0)
      ensures !accepted ==> pos == old(pos) && phase == NextAttempt(q, old(phase.attempt))
    {
      Send(q);
      var polls: nat := *;
      while polls > 0
        invariant Valid() && pos == old(pos) && phase == Waiting(old(phase.attempt))
      {
        World();
        if replies != [] {
          accepted := TakeReply(q);
          if accepted || !phase.Waiting? { return; }
        }
        polls := polls - 1;
      }
      GiveUp(q);
      accepted := false;
    }

    /** `uart_flash_anchor_command` with `attempts = 3`: true on return, false when it raises. */
    method Command(q: Frame) returns (ok: bool)
      requires Valid() && pos < |script| && script[pos] == q && phase == Sending(0) && q.command != CMD_PING
      modifies this, anchor.chip, anchor.data
      ensures Valid()
      ensures ok ==> pos == old(pos) + 1 && phase == Sending(0) && 1 <= Sends(run, old(pos)) <= 3
      ensures !ok ==> pos == old(pos) && phase == Raised && Sends(run, pos) == 3 && GivenUp(script, run)
    {
      var attempt := 0;
      ok := false;
      while attempt < ATTEMPTS && !ok
        invariant Valid() && attempt <= ATTEMPTS
        invariant !ok ==> pos == old(pos) && phase == if attempt < ATTEMPTS then Sending(attempt) else Raised
        invariant ok ==> pos == old(pos) + 1 && phase == Sending(0)
      {
        ok := Attempt(q);
        World();
        attempt := attempt + 1;
      }
      EveryRunIsCounted(script, run);
      assert ok ==> Passed(script, run, old(pos));
    }

    /** `uart_flash_anchor_ping_until_ready`: single attempts until the deadline. */
    method PingUntilReady() returns (ok: bool)
      requires Valid() && pos < |script| && script[pos] == PingFrame() && phase == Sending(0)
      modifies this, anchor.chip, anchor.data
      ensures Valid()
      ensures ok ==> pos == old(pos) + 1 && phase == Sending(0)
      ensures !ok ==> pos == old(pos) && phase.Sending?
    {
      var tries: nat := *;
      ok := false;
      while tries > 0 && !ok
        invariant Valid()
        invariant !ok ==> pos == old(pos) && phase.Sending?
        invariant ok ==> pos == old(pos) + 1 && phase == Sending(0)
      {
        ok := Attempt(PingFrame());
        tries := tries - 1;
      }
    }

    /** `uart_anchor_flash_program_segment` with UART acknowledgements. */
    method ProgramSegment(seg: Segment, chunk: nat) returns (ok: bool)
      requires Valid() && phase == Sending(0)
      requires Fits(seg) && 0 < chunk <= DATA_MAX && Occurs(Script(seg, chunk), script, pos)
      modifies this, anchor.chip, anchor.data
      ensures Valid()
      ensures ok ==> pos == old(pos) + |Script(seg, chunk)| && phase == Sending(0)
      ensures !ok ==> GivenUp(script, run) && old(pos) <= pos < old(pos) + |Script(seg, chunk)|
    {
      ghost var start := pos;
      assert script[start + 0] == Script(seg, chunk)[0];
      ok := Command(EraseFrame(seg.address, |seg.data|));
      if !ok { return; }
      var written := 0;
      ghost var k := 0;
      assert seg.data[0..] == seg.data;
      while written < |seg.data|
        invariant AtChunk(seg, chunk, written, k)
        invariant Valid() && ok && pos == start + 1 + k && phase == Sending(0)
      {
        var n := if |seg.data| - written > chunk then chunk else |seg.data| - written;
        ChunkTurn(seg, chunk, written, k, n);
        assert script[start + (1 + k)] == Script(seg, chunk)[1 + k];
        ok := Command(WriteFrame(seg.address + written, seg.data[written..written + n]));
        if !ok { return; }
        written := written + n;
        k := k + 1;
      }
    }
  }

  /** `written` bytes are the first k chunks of the segment. */
  ghost predicate AtChunk(seg: Segment, chunk: nat, written: nat, k: nat)
    requires 0 < chunk
  {
    && written <= |seg.data| && k <= |Pieces(seg.address, seg.data, chunk)|
    && Pieces(seg.address + written, seg.data[written..], chunk) == Pieces(seg.address, seg.data, chunk)[k..]
  }

  /** The loop sends the next request of the script and moves on by one chunk. */
  lemma ChunkTurn(seg: Segment, chunk: nat, written: nat, k: nat, n: nat)
    requires Fits(seg) && 0 < chunk <= DATA_MAX && AtChunk(seg, chunk, written, k) && written < |seg.data|
    requires n == if |seg.data| - written > chunk then chunk else |seg.data| - written
    ensures 1 + k < |Script(seg, chunk)|
    ensures Script(seg, chunk)[1 + k] == WriteFrame(seg.address + written, seg.data[written..written + n])
    ensures AtChunk(seg, chunk, written + n, k + 1)
  {
    var pieces, rest := Pieces(seg.address, seg.data, chunk), seg.data[written..];
    NextPiece(seg.address + written, rest, chunk, n);
    assert rest[..n] == seg.data[written..written + n] && rest[n..] == seg.data[written + n..];
    assert pieces[k] == pieces[k..][0];
    assert pieces[k + 1..] == pieces[k..][1..];
  }

  /** The loop's slice is the next piece. */
  lemma NextPiece(address: nat, data: seq<Byte>, chunk: nat, n: nat)
    requires 0 < chunk && data != [] && n == if |data| > chunk then chunk else |data|
    ensures Pieces(address, data, chunk) != []
    ensures Pieces(address, data, chunk)[0] == Piece(address, data[..n])
    ensures Pieces(address, data, chunk)[1..] == Pieces(address + n, data[n..], chunk)
  {
    if |data| <= chunk {
      assert data[..n] == data && data[n..] == [];
    }
  }

  /** Flashing one segment: a return without exception means the segment is in flash. */
  method FlashOneSegment(seg: Segment, chunk: nat) returns (ok: bool, bench: Bench)
    requires Fits(seg) && 0 < chunk <= DATA_MAX
    ensures bench.Valid()
    ensures ok && Unambiguous(seg, chunk) ==> InFlash(bench.anchor.chip.mem, seg)
    ensures !ok ==> GivenUp(bench.script, bench.run)
  {
    ScriptBelongs(seg, chunk);
    bench := new Bench(Script(seg, chunk));
    ok := bench.ProgramSegment(seg, chunk);
    if ok && Unambiguous(seg, chunk) {
      WritesExactlyWhenUnambiguous(seg, chunk);
    }
  }

  /** `frames` sit in `script` from index `at` on. */
  ghost predicate Occurs(frames: seq<Frame>, script: seq<Frame>, at: nat) {
    at + |frames| <= |script| && forall k :: 0 <= k < |frames| ==> script[at + k] == frames[k]
  }

  lemma OccursInPrefix(head: seq<Frame>, frames: seq<Frame>, script: seq<Frame>)
    requires head + frames <= script
    ensures Occurs(frames, script, |head|)
  {
    forall k | 0 <= k < |frames| ensures script[|head| + k] == frames[k] {
      assert script[|head| + k] == (head + frames)[|head| + k];
    }
  }

  /** Each segment finds its own requests next in the script. */
  lemma SegmentIsNext(segs: seq<Segment>, chunk: nat, m: nat)
    requires Programs(segs, chunk) && m < |segs|
    ensures |Requests(segs, chunk, m + 1)| == |Requests(segs, chunk, m)| + |Script(segs[m], chunk)|
    ensures Occurs(Script(segs[m], chunk), Session(segs, chunk), |Requests(segs, chunk, m)|)
  {
    RequestsPrefix(segs, chunk, m + 1, |segs|);
    OccursInPrefix(Requests(segs, chunk, m), Script(segs[m], chunk), Session(segs, chunk));
  }

  /** One turn of the segment loop. */
  method ProgramNext(bench: Bench, segs: seq<Segment>, chunk: nat, m: nat) returns (ok: bool)
    requires Programs(segs, chunk) && m < |segs| && bench.Valid() && bench.script == Session(segs, chunk)
    requires bench.pos == |Requests(segs, chunk, m)| && bench.phase == Sending(0)
    modifies bench, bench.anchor.chip, bench.anchor.data
    ensures bench.Valid()
    ensures ok ==> bench.pos == |Requests(segs, chunk, m + 1)| && bench.phase == Sending(0)
    ensures !ok ==> GivenUp(bench.script, bench.run)
  {
    SegmentIsNext(segs, chunk, m);
    ok := bench.ProgramSegment(segs[m], chunk);
  }

  /** The segment loop of the session. */
  method ProgramSegments(bench: Bench, segs: seq<Segment>, chunk: nat) returns (ok: bool)
    requires Programs(segs, chunk) && bench.Valid() && bench.script == Session(segs, chunk)
    requires bench.pos == |Requests(segs, chunk, 0)| && bench.phase == Sending(0)
    modifies bench, bench.anchor.chip, bench.anchor.data
    ensures bench.Valid()
    ensures ok ==> bench.pos == |Session(segs, chunk)|
    ensures !ok ==> GivenUp(bench.script, bench.run)
  {
    ok := true;
    for m := 0 to |segs|
      invariant ok && bench.Valid() && bench.phase == Sending(0)
      invariant bench.pos == |Requests(segs, chunk, m)|
    {
      ok := ProgramNext(bench, segs, chunk, m);
      if !ok { return; }
    }
  }

  /**
   The session proper: ping, read the id, program every segment. A return means that every segment is in
   flash, unless the erase of a single-chunk segment, not all 0xFF, had to be repeated.
   */
  method FlashSession(segs: seq<Segment>, chunk: nat) returns (ok: bool, bench: Bench)
    requires Programs(segs, chunk)
    ensures bench.Valid() && bench.script == Session(segs, chunk) && (ok ==> bench.pos == |bench.script|)
    ensures !ok ==> NeverReady(bench.run) || GivenUp(bench.script, bench.run)
    ensures ok && NoRiskyRepeated(bench.script, PRELUDE, bench.run) ==>
              forall m :: 0 <= m < |segs| ==> InFlash(bench.anchor.chip.mem, segs[m])
  {
    RequestsPrefix(segs, chunk, 0, |segs|);
    bench := new Bench(Session(segs, chunk));
    assert bench.script[0] == PingFrame() && bench.script[1] == ReadIdFrame();
    ok := bench.PingUntilReady();
    if !ok {
      EveryRunIsCounted(bench.script, bench.run);
      return;
    }
    ok := bench.Command(ReadIdFrame());
    if !ok { return; }
    ok := ProgramSegments(bench, segs, chunk);
    if !ok { return; }
    if NoRiskyRepeated(bench.script, PRELUDE, bench.run) {
      forall m | 0 <= m < |segs| ensures InFlash(bench.anchor.chip.mem, segs[m]) {
        SessionWritesEverySegment(segs, chunk, bench.run, |bench.run| - 1, m);
      }
    }
  }

  /** How the whole thing ended. */
  datatype Outcome = Refused | Failed | Flashed

  lemma ListPrograms(m0: seq<seq<Byte>>, lp: seq<Byte>, d0: seq<Byte>, chunk: nat)
    requires |m0| == 4 || m0 == []
    requires forall seg :: seg in FlashList(m0, lp, d0) ==> Fits(seg)
    requires PairwiseDisjoint(FlashList(m0, lp, d0)) && 0 < chunk <= DATA_MAX
    ensures Programs(FlashList(m0, lp, d0), chunk)
  {
    FlashListIsInOrder(m0, lp, d0);
  }

  /**
   `flash_firmware_over_uart_anchor` from the build outputs on: list, overlap check, chunk size, session.
   A return means that every segment is in flash if all are unambiguous, and in any case if no
   single-chunk erase was repeated.
   */
  method FlashFirmware(m0: seq<seq<Byte>>, lp: seq<Byte>, d0: seq<Byte>, chunk: int)
    returns (outcome: Outcome, bench: Bench)
    requires |m0| == 4 || m0 == []
    requires forall seg :: seg in FlashList(m0, lp, d0) ==> Fits(seg)
    ensures outcome.Refused? <==>
              FlashList(m0, lp, d0) == [] || !PairwiseDisjoint(FlashList(m0, lp, d0)) || chunk < 1 || chunk > DATA_MAX
    ensures outcome.Flashed? && AllUnambiguous(FlashList(m0, lp, d0), chunk) ==>
              && ImagesIn(bench.anchor.chip.mem, m0, lp, d0)
              && forall seg :: seg in FlashList(m0, lp, d0) ==> InFlash(bench.anchor.chip.mem, seg)
    ensures outcome.Flashed? && NoRiskyRepeated(bench.script, PRELUDE, bench.run) ==>
              && ImagesIn(bench.anchor.chip.mem, m0, lp, d0)
              && forall seg :: seg in FlashList(m0, lp, d0) ==> InFlash(bench.anchor.chip.mem, seg)
    ensures outcome.Failed? ==> NeverReady(bench.run) || GivenUp(bench.script, bench.run)
  {
    var segs := FlashList(m0, lp, d0);
    var disjoint := ValidateNoOverlap(segs);
    if segs == [] || !disjoint || chunk < 1 || chunk > DATA_MAX {
      bench := new Bench([]);
      return Refused, bench;
    }
    ListPrograms(m0, lp, d0, chunk);
    var ok;
    ok, bench := FlashSession(segs, chunk);
    outcome := if ok then Flashed else Failed;
    if ok && AllUnambiguous(segs, chunk) {
      UnambiguousIsNeverRisky(segs, chunk);
      NothingRepeated(bench.script, PRELUDE, bench.run);
    }
    if ok && NoRiskyRepeated(bench.script, PRELUDE, bench.run) {
      ListedImagesAreIn(bench.anchor.chip.mem, m0, lp, d0);
    }
  }
}
