/**
 The JTAG mailbox: the stub's main loop one store at a time, and a host that halts the core
 between any two stores, reads or writes the mailbox, and lets it go on.
 */
module Mailbox {
  import opened MachineWord
  import opened Nor
  import opened FlashOps
  import opened Checksums
  import opened Service

  const MAGIC: nat := 0x4A544746
  const READY: nat := 0x52454144
  const BUSY: nat := 0x42555359
  const DONE: nat := 0x444F4E45
  const ERROR: nat := 0x45525221

  const CMD_NONE: nat := 0

  datatype Box = Box(magic: nat, command: nat, status: nat, address: nat, length: nat,
                     checksum: bv32, result: nat, counter: nat)

  const ZEROED: Box := Box(0, 0, 0, 0, 0, 0, 0, 0)

  /** What the host asks for, with the contents of the data window. */
  datatype Request = Request(command: nat, address: nat, length: nat, checksum: bv32, window: seq<Byte>)

  ghost predicate Askable(q: Request) {
    q.command != CMD_NONE && q.address < WORD && q.length < WORD && |q.window| == DATA_MAX
  }

  datatype Pc =
    | Boot(store: nat)
    | Poll
    | Start(store: nat, command: nat)
    | Execute(command: nat)
    | Report(command: nat, outcome: nat)
    | Clear(command: nat)
    | Finish(command: nat)

  datatype Host =
    | Booting
    | Ready
    | Waiting(request: Request, before: Flash)

  datatype State = State(box: Box, window: seq<Byte>, pc: Pc, flash: Flash, host: Host)

  ghost predicate Initial(s: State) {
    s.box == ZEROED && |s.window| == DATA_MAX && s.pc == Boot(0) && s.host == Booting
  }

  // ---- the stub ----

  /** What executing `command` on the mailbox words and the data window may do. */
  ghost predicate Outcome(f: Flash, command: nat, address: nat, length: nat, sum: bv32, window: seq<Byte>,
                          g: Flash, result: nat) {
    if command == CMD_READ_ID then g == f
    else if command == CMD_ERASE then ServesErase(f, address, length, g, result)
    else if command == CMD_WRITE_VERIFY then
      if length > DATA_MAX || length > |window| then result == ERR_BAD_LENGTH && g == f
      else ServesWrite(f, address, window[..length], sum, g, result)
    else result == ERR_BAD_COMMAND && g == f
  }

  /** What a command has done: refused without effect, or carried out if its result is 0. */
  lemma OutcomeExactly(f: Flash, command: nat, address: nat, length: nat, sum: bv32, window: seq<Byte>, g: Flash,
                       result: nat)
    requires |window| == DATA_MAX && Outcome(f, command, address, length, sum, window, g, result)
    ensures command == 1 ==> g == f
    ensures command == 2 && length == 0 ==> result == 2 && g == f
    ensures command == 3 && (length == 0 || length > 4096) ==> result == 2 && g == f
    ensures command == 3 && 0 < length <= 4096 && Checksum(window[..length]) != sum ==> result == 3 && g == f
    ensures command != 1 && command != 2 && command != 3 ==> result == 1 && g == f
    ensures command == 3 && result == 0 ==> length <= 4096 && ReadBack(g, address, length) == window[..length]
    ensures command == 2 && result == 0 && address + length <= CAPACITY ==>
              SectorsErased(f, g, address, address + length)
  {
    if command == 2 && result == 0 && address + length <= CAPACITY {
      EraseSpanCovers(address, length);
      SpanIsSectors(f, address, length, g);
    }
  }

  function Booted(b: Box, store: nat): Box
    requires store < 5
  {
    if store == 0 then b.(magic := MAGIC)
    else if store == 1 then b.(command := CMD_NONE)
    else if store == 2 then b.(result := ERR_OK)
    else if store == 3 then b.(counter := 0)
    else b.(status := READY)
  }

  function Started(b: Box, store: nat): Box
    requires store < 3
  {
    if store == 0 then b.(status := BUSY)
    else if store == 1 then b.(result := ERR_OK)
    else b.(counter := 0)
  }

  function FinalStatus(command: nat, result: nat): nat {
    if result == ERR_OK || command == CMD_READ_ID then DONE else ERROR
  }

  ghost predicate StubStep(s: State, t: State) {
    match s.pc
    case Boot(k) => k < 5 && t == s.(box := Booted(s.box, k), pc := if k == 4 then Poll else Boot(k + 1))
    case Poll => t == if s.box.command == CMD_NONE then s else s.(pc := Start(0, s.box.command))
    case Start(k, command) =>
      k < 3 && t == s.(box := Started(s.box, k), pc := if k == 2 then Execute(command) else Start(k + 1, command))
    case Execute(command) =>
      // progress shown in the counter word, or the end of the work
      || t == s.(box := s.box.(counter := t.box.counter))
      || (&& t.pc.Report? && t.pc.command == command
          && Outcome(s.flash, command, s.box.address, s.box.length, s.box.checksum, s.window, t.flash, t.pc.outcome)
          && t == s.(flash := t.flash, pc := t.pc))
    case Report(command, outcome) => t == s.(box := s.box.(result := outcome), pc := Clear(command))
    case Clear(command) => t == s.(box := s.box.(command := CMD_NONE), pc := Finish(command))
    case Finish(command) => t == s.(box := s.box.(status := FinalStatus(command, s.box.result)), pc := Poll)
  }

  // ---- the host, always with the core halted ----

  /** `wait_for_jtag_flash_stub` is satisfied. */
  ghost predicate SeesStub(s: State, t: State) {
    && s.host == Booting && s.box.magic == MAGIC && (s.box.status == READY || s.box.status == DONE)
    && t == s.(host := Ready)
  }

  function Issued(s: State, q: Request): State {
    s.(box := s.box.(status := READY, address := q.address, length := q.length, checksum := q.checksum,
                     result := 0, counter := 0, command := q.command),
       window := q.window,
       host := Waiting(q, s.flash))
  }

  ghost predicate Issues(s: State, t: State) {
    s.host == Ready && exists q :: Askable(q) && t == Issued(s, q)
  }

  /** A poll that finds DONE or ERROR. */
  ghost predicate Answered(s: State) {
    s.host.Waiting? && (s.box.status == DONE || s.box.status == ERROR)
  }

  ghost predicate Observes(s: State, t: State) {
    Answered(s) && t == s.(host := Ready)
  }

  /**
   The retry a command gets when its deadline has passed: the exception text quotes the result
   word, and a quoted verify error is retried whatever the status word says.
   */
  ghost predicate RetriesAfterTimeout(s: State, t: State) {
    && s.host.Waiting? && s.box.result == ERR_VERIFY
    && exists q :: Askable(q) && t == Issued(s, q)
  }

  /** Every step except a retry issued while the stub is busy. */
  ghost predicate CarefulNext(s: State, t: State) {
    StubStep(s, t) || SeesStub(s, t) || Issues(s, t) || Observes(s, t)
    || (RetriesAfterTimeout(s, t) && s.box.status != BUSY)
  }

  ghost predicate Next(s: State, t: State) {
    CarefulNext(s, t) || RetriesAfterTimeout(s, t)
  }

  ghost predicate Steps(run: seq<State>, careful: bool, i: nat)
    requires i < |run| - 1
  {
    if careful then CarefulNext(run[i], run[i + 1]) else Next(run[i], run[i + 1])
  }

  ghost predicate Run(run: seq<State>, careful: bool) {
    run != [] && Initial(run[0]) && forall i :: 0 <= i < |run| - 1 ==> Steps(run, careful, i)
  }

  // ---- the invariant ----

  /** The mailbox carries request q. */
  predicate Carries(b: Box, window: seq<Byte>, q: Request) {
    b.address == q.address && b.length == q.length && b.checksum == q.checksum && window == q.window
  }

  /** `result` is what request q, issued on flash `f`, has produced, leaving flash `g`. */
  ghost predicate Answer(f: Flash, q: Request, g: Flash, result: nat) {
    Outcome(f, q.command, q.address, q.length, q.checksum, q.window, g, result)
  }

  ghost predicate WaitingInv(s: State, q: Request, before: Flash) {
    && Askable(q) && Carries(s.box, s.window, q)
    && match s.pc
       case Boot(_) => false
       case Poll =>
         || (s.box.command == q.command && s.box.status == READY && s.box.result == 0 && s.flash == before)
         || (s.box.command == CMD_NONE && s.box.status == FinalStatus(q.command, s.box.result)
             && Answer(before, q, s.flash, s.box.result))
       case Start(k, command) =>
         k < 3 && command == q.command && s.box.command == q.command && s.flash == before
         && s.box.result == 0 && s.box.status == if k == 0 then READY else BUSY
       case Execute(command) =>
         command == q.command && s.flash == before && s.box.status == BUSY && s.box.result == 0
       case Report(command, outcome) =>
         command == q.command && s.box.status == BUSY && s.box.result == 0 && Answer(before, q, s.flash, outcome)
       case Clear(command) =>
         command == q.command && s.box.status == BUSY && Answer(before, q, s.flash, s.box.result)
       case Finish(command) =>
         command == q.command && s.box.status == BUSY && s.box.command == CMD_NONE
         && Answer(before, q, s.flash, s.box.result)
  }

  ghost predicate Inv(s: State) {
    && |s.window| == DATA_MAX
    && match s.host
       case Booting =>
         && s.box.command == CMD_NONE
         && ((s.pc.Boot? && s.pc.store < 5 && s.box.status == 0) || (s.pc == Poll && s.box.status == READY))
       case Ready => s.pc == Poll && s.box.command == CMD_NONE
       case Waiting(q, before) => WaitingInv(s, q, before)
  }

  lemma CarefulNextKeeps(s: State, t: State)
    requires Inv(s) && CarefulNext(s, t)
    ensures Inv(t)
  {
    if StubStep(s, t) {
    } else if Issues(s, t) || RetriesAfterTimeout(s, t) {
      var q :| Askable(q) && t == Issued(s, q);
    }
  }

  lemma {:induction false} CarefulRunKeeps(run: seq<State>, j: nat)
    requires Run(run, true) && j < |run|
    ensures Inv(run[j])
    decreases j
  {
    if j > 0 {
      CarefulRunKeeps(run, j - 1);
      assert Steps(run, true, j - 1);
      CarefulNextKeeps(run[j - 1], run[j]);
    }
  }

  /**
   Mailbox safety over every careful run: a DONE or ERROR the host finds belongs to the request it
   last wrote, the result word is that request's result, the flash went from what it was at the time
   of writing to what the request made of it, and DONE means success.
   */
  lemma AnswersBelong(run: seq<State>, j: nat)
    requires Run(run, true) && j < |run| && Answered(run[j])
    ensures var s := run[j];
            && Answer(s.host.before, s.host.request, s.flash, s.box.result)
            && s.box.status == FinalStatus(s.host.request.command, s.box.result)
  {
    CarefulRunKeeps(run, j);
  }

  // ---- the retry that is not careful ----

  lemma Extend(run: seq<State>, t: State)
    requires Run(run, false) && Next(run[|run| - 1], t)
    ensures Run(run + [t], false)
  {
    var longer := run + [t];
    forall i | 0 <= i < |longer| - 1 ensures Steps(longer, false, i) {
      if i < |run| - 1 {
        assert Steps(run, false, i);
      }
    }
  }

  /** Boot the stub and let the host see it. */
  lemma BootRun(f: Flash, window: seq<Byte>) returns (run: seq<State>)
    requires |window| == DATA_MAX
    ensures Run(run, false)
    ensures run[|run| - 1] == State(Box(MAGIC, CMD_NONE, READY, 0, 0, 0, 0, 0), window, Poll, f, Ready)
  {
    var s0 := State(ZEROED, window, Boot(0), f, Booting);
    var s1 := s0.(box := s0.box.(magic := MAGIC), pc := Boot(1));
    var s4 := s1.(pc := Boot(4));
    run := [s0];
    Extend(run, s1); run := run + [s1];
    Extend(run, s1.(pc := Boot(2))); run := run + [s1.(pc := Boot(2))];
    Extend(run, s1.(pc := Boot(3))); run := run + [s1.(pc := Boot(3))];
    Extend(run, s4); run := run + [s4];
    var s5 := s4.(box := s4.box.(status := READY), pc := Poll);
    Extend(run, s5); run := run + [s5];
    Extend(run, s5.(host := Ready)); run := run + [s5.(host := Ready)];
  }

  /** The host writes q; the stub runs up to the end of the work. */
  lemma WorkRun(run: seq<State>, q: Request, g: Flash, outcome: nat) returns (longer: seq<State>)
    requires Run(run, false) && Askable(q)
    requires run[|run| - 1].host == Ready && run[|run| - 1].pc == Poll
    requires Outcome(run[|run| - 1].flash, q.command, q.address, q.length, q.checksum, q.window, g, outcome)
    ensures Run(longer, false)
    ensures var s := run[|run| - 1];
            longer[|longer| - 1] == State(Box(s.box.magic, q.command, BUSY, q.address, q.length, q.checksum, 0, 0),
                                          q.window, Report(q.command, outcome), g, Waiting(q, s.flash))
  {
    var s := run[|run| - 1];
    var s1 := Issued(s, q);
    assert Issues(s, s1);
    Extend(run, s1); longer := run + [s1];
    var s2 := s1.(pc := Start(0, q.command));
    Extend(longer, s2); longer := longer + [s2];
    var s3 := s1.(box := s1.box.(status := BUSY), pc := Start(1, q.command));
    Extend(longer, s3); longer := longer + [s3];
    Extend(longer, s3.(pc := Start(2, q.command))); longer := longer + [s3.(pc := Start(2, q.command))];
    Extend(longer, s3.(pc := Execute(q.command))); longer := longer + [s3.(pc := Execute(q.command))];
    var s4 := s3.(pc := Report(q.command, outcome), flash := g);
    Extend(longer, s4); longer := longer + [s4];
  }

  /**
   A write that fails verification is caught by the deadline between the result store and the status
   store. The retry clears the result word; the stub then removes the new command unread and reports
   DONE for it.
   */
  lemma FalseDone(q: Request, f: Flash, g: Flash) returns (run: seq<State>)
    requires Askable(q) && Outcome(f, q.command, q.address, q.length, q.checksum, q.window, g, ERR_VERIFY)
    ensures Run(run, false) && Answered(run[|run| - 1])
    ensures var s := run[|run| - 1];
            && s.box.status == DONE && s.box.result == ERR_OK && s.box.command == CMD_NONE && s.pc == Poll
            && s.host == Waiting(q, g) && s.flash == g
  {
    var booted := BootRun(f, q.window);
    var worked := WorkRun(booted, q, g, ERR_VERIFY);
    var s := worked[|worked| - 1];
    var s1 := s.(box := s.box.(result := ERR_VERIFY), pc := Clear(q.command));
    Extend(worked, s1); run := worked + [s1];
    var s2 := Issued(s1, q);
    assert RetriesAfterTimeout(s1, s2);
    Extend(run, s2); run := run + [s2];
    var s3 := s2.(box := s2.box.(command := CMD_NONE), pc := Finish(q.command));
    Extend(run, s3); run := run + [s3];
    var s4 := s3.(box := s3.box.(status := DONE), pc := Poll);
    Extend(run, s4); run := run + [s4];
  }

  /** A careful run is a run. */
  lemma CarefulIsRun(run: seq<State>)
    requires Run(run, true)
    ensures Run(run, false)
  {
    forall i | 0 <= i < |run| - 1 ensures Steps(run, false, i) {
      assert Steps(run, true, i);
    }
  }

  /**
   Wherever a careful run has got to: if the stub is busy and the result word quotes a verify error, a retry,
   whatever it asks for, can be answered DONE with result OK without ever being executed.
   */
  lemma BusyRetryMisleads(run: seq<State>, q: Request) returns (tail: seq<State>)
    requires Run(run, true) && run[|run| - 1].host.Waiting? && Askable(q)
    requires run[|run| - 1].box.result == ERR_VERIFY && run[|run| - 1].box.status == BUSY
    ensures tail != [] && tail[0] == Issued(run[|run| - 1], q) && Follows(tail) && Run(run + tail, false)
    ensures forall k :: 0 <= k < |tail| ==> !tail[k].pc.Execute? && tail[k].flash == run[|run| - 1].flash
    ensures var s := tail[|tail| - 1];
            && Answered(s) && s.host == Waiting(q, s.flash) && s.box.status == DONE && s.box.result == ERR_OK
  {
    CarefulRunKeeps(run, |run| - 1);
    CarefulIsRun(run);
    var s := run[|run| - 1];
    var s0 := Issued(s, q);
    tail := [s0];
    assert RetriesAfterTimeout(s, s0);
    Extend(run, s0);
    var command := s.pc.command;
    if s.pc.Clear? {
      var s1 := s0.(box := s0.box.(command := CMD_NONE), pc := Finish(command));
      Extend(run + tail, s1);
      assert run + tail + [s1] == run + (tail + [s1]);
      tail := tail + [s1];
    }
    var e := tail[|tail| - 1];
    var s2 := e.(box := e.box.(status := DONE), pc := Poll);
    Extend(run + tail, s2);
    assert run + tail + [s2] == run + (tail + [s2]);
    tail := tail + [s2];
  }

  /** Careful steps throughout. */
  ghost predicate Follows(tail: seq<State>) {
    forall i :: 0 <= i < |tail| - 1 ==> Steps(tail, true, i)
  }

  /** However things go on carefully after a retry from this state, answers belong to their commands. */
  ghost predicate RetryIsSafe(s: State) {
    forall q: Request, tail: seq<State> ::
      (Askable(q) && tail != [] && tail[0] == Issued(s, q) && Follows(tail) && Answered(tail[|tail| - 1]))
      ==> (var t := tail[|tail| - 1]; Answer(t.host.before, t.host.request, t.flash, t.box.result))
  }

  lemma {:induction false} FollowsKeeps(tail: seq<State>, j: nat)
    requires Follows(tail) && j < |tail| && Inv(tail[0])
    ensures Inv(tail[j])
    decreases j
  {
    if j > 0 {
      FollowsKeeps(tail, j - 1);
      assert Steps(tail, true, j - 1);
      CarefulNextKeeps(tail[j - 1], tail[j]);
    }
  }

  /** A command quoted with a verify error can be retried safely if and only if the stub is not busy. */
  lemma RetryWhileBusyIsTheOnlyHole(run: seq<State>)
    requires Run(run, true) && run[|run| - 1].host.Waiting? && run[|run| - 1].box.result == ERR_VERIFY
    ensures RetryIsSafe(run[|run| - 1]) <==> run[|run| - 1].box.status != BUSY
  {
    var s := run[|run| - 1];
    CarefulRunKeeps(run, |run| - 1);
    if s.box.status != BUSY {
      forall q: Request, tail: seq<State> |
        Askable(q) && tail != [] && tail[0] == Issued(s, q) && Follows(tail) && Answered(tail[|tail| - 1])
        ensures var t := tail[|tail| - 1]; Answer(t.host.before, t.host.request, t.flash, t.box.result)
      {
        assert RetriesAfterTimeout(s, tail[0]);
        CarefulNextKeeps(s, tail[0]);
        FollowsKeeps(tail, |tail| - 1);
      }
    } else {
      // an erase of nothing is never answered OK when it is executed
      var q := Request(CMD_ERASE, 0, 0, 0, s.window);
      var tail := BusyRetryMisleads(run, q);
      var t := tail[|tail| - 1];
      assert !Answer(t.host.before, t.host.request, t.flash, t.box.result);
    }
  }
}
