/**
 Flashing through the mailbox: the stub executed store by store, the host's command, blank-check and
 segment loops with their retries, and what a whole flashing leaves in the chip. Every execution is
 recorded as a play of `MailboxSession`, retries of a busy stub included.
 */
module JtagHost {
  import opened MachineWord
  import opened Nor
  import opened FlashOps
  import opened Checksums
  import opened Service
  import opened Mailbox
  import opened Segments
  import opened Layout
  import opened MailboxSession
  import opened MailboxSafety

  /** How a command ended for the host. */
  datatype Reply = Finished(result: nat) | Failed(result: nat) | TimedOut(status: nat, result: nat)

  /** The reply is what the host reads in the mailbox. */
  predicate Reads(r: Reply, b: Box) {
    match r
    case Finished(x) => b.status == DONE && x == b.result
    case Failed(x) => b.status == ERROR && x == b.result
    case TimedOut(status, x) => status == b.status && x == b.result
  }

  // ---- stretches in which only the stub runs ----

  ghost predicate StepOf(trail: seq<State>, i: nat)
    requires i < |trail| - 1
  {
    StubStep(trail[i], trail[i + 1])
  }

  ghost predicate Trail(trail: seq<State>) {
    trail != [] && forall i :: 0 <= i < |trail| - 1 ==> StepOf(trail, i)
  }

  lemma {:induction false} TrailOn(trail: seq<State>, onward: seq<State>)
    requires Trail(trail) && Trail(onward) && onward[0] == trail[|trail| - 1]
    ensures Trail(trail + onward[1..])
  {
    var all := trail + onward[1..];
    forall i | 0 <= i < |all| - 1 ensures StepOf(all, i) {
      if i < |trail| - 1 {
        assert StepOf(trail, i);
      } else {
        assert StepOf(onward, i - (|trail| - 1));
      }
    }
  }

  /** Stub steps are careful steps. */
  lemma {:induction false} TrailKeeps(trail: seq<State>, j: nat)
    requires Trail(trail) && Inv(trail[0]) && j < |trail|
    ensures Inv(trail[j])
    decreases j
  {
    if j > 0 {
      TrailKeeps(trail, j - 1);
      assert StepOf(trail, j - 1);
      CarefulNextKeeps(trail[j - 1], trail[j]);
    }
  }

  /** The scene s while the stub goes along the trail. */
  ghost function Scenes(s: Scene, trail: seq<State>): (scenes: seq<Scene>)
    ensures |scenes| == |trail|
  {
    seq(|trail|, (i: nat) requires i < |trail| => s.(m := trail[i]))
  }

  /** The host writes its command. */
  lemma {:induction false} PlayIssued(segs: seq<Segment>, chunk: nat, play: seq<Scene>, s: Scene, t: Scene)
    requires Play(segs, chunk, play) && s == play[|play| - 1] && Going(segs, chunk, s) && s.m.host == Ready
    requires t == s.(m := Mailbox.Issued(s.m, Ask(segs[s.k], chunk, s.task, s.m.window)))
    ensures Play(segs, chunk, play + [t])
  {
    assert HostIssues(segs, chunk, s, t);
    PlayOn(segs, chunk, play, t);
  }

  /** The stub goes along a trail. */
  lemma {:induction false} PlayAlong(segs: seq<Segment>, chunk: nat, play: seq<Scene>, s: Scene, trail: seq<State>,
                                     j: nat)
    requires Trail(trail) && j < |trail| && trail[0].host.Waiting? && s.ending == Running
    requires Play(segs, chunk, play + [s.(m := trail[0])])
    ensures Play(segs, chunk, play + Scenes(s, trail)[..j + 1]) && trail[j].host.Waiting?
    decreases j
  {
    var scenes := Scenes(s, trail);
    if j == 0 {
      assert scenes[..1] == [s.(m := trail[0])];
    } else {
      PlayAlong(segs, chunk, play, s, trail, j - 1);
      assert StepOf(trail, j - 1);
      var so := play + scenes[..j];
      assert so[|so| - 1] == scenes[j - 1];
      assert StubRuns(scenes[j - 1], scenes[j]);
      PlayOn(segs, chunk, so, scenes[j]);
      assert play + scenes[..j + 1] == so + [scenes[j]];
    }
  }

  lemma {:induction false} PlayServed(segs: seq<Segment>, chunk: nat, play: seq<Scene>, s: Scene, trail: seq<State>)
    returns (longer: seq<Scene>)
    requires Play(segs, chunk, play) && s == play[|play| - 1] && Going(segs, chunk, s) && s.m.host == Ready
    requires Trail(trail) && trail[0] == Mailbox.Issued(s.m, Ask(segs[s.k], chunk, s.task, s.m.window))
    ensures Play(segs, chunk, longer) && longer[0] == play[0]
    ensures longer[|longer| - 1] == s.(m := trail[|trail| - 1]) && trail[|trail| - 1].host.Waiting?
  {
    PlayIssued(segs, chunk, play, s, s.(m := trail[0]));
    PlayAlong(segs, chunk, play, s, trail, |trail| - 1);
    longer := play + Scenes(s, trail)[..|trail|];
  }

  /** A flashing so far. */
  datatype Log = Log(job: Job, play: seq<Scene>) {
    ghost predicate Valid() {
      job.Ok() && Play(job.segs, job.chunk, play) && job == JobOf(job.segs, job.chunk, play[0])
    }

    ghost function Now(): Scene
      requires play != []
    {
      play[|play| - 1]
    }
  }

  type Flashing = l: Log | l.Valid() ghost witness Sample()

  ghost function Sample(): (l: Log)
    ensures l.Valid()
  {
    var window, flash := Blanks(DATA_MAX), Erased(seq(CAPACITY, (_: nat) => BLANK), 0, 0);
    Log(Job([Segment(0, [0])], 1, window, flash),
        [Scene(State(ZEROED, window, Poll, flash, Ready), 0, Erase(1), Running, 0)])
  }

  /** The flashing is at this task of segment k. */
  ghost predicate Live(segs: seq<Segment>, s: Scene, k: nat, task: Task) {
    s.ending == Running && s.k == k && s.task == task && k < |segs| && TaskOk(segs[k], task)
  }

  /** M0 core running the stub, with its mailbox and data window, and the record of the flashing. */
  class Target {
    const chip: Chip
    const data: array<Byte>
    var box: Box
    var pc: Pc
    ghost var host: Host
    ghost var log: Flashing

    ghost function View(): State
      reads this, chip, data
    {
      State(box, data[..], pc, chip.mem, host)
    }

    ghost predicate Fit()
      reads this, chip, data
    {
      && chip.Valid() && data.Length == DATA_MAX && box.address < WORD && box.length < WORD
      && (pc.Boot? ==> pc.store < 5) && (pc.Start? ==> pc.store < 3)
    }

    /** No command is outstanding: the stub polls an empty mailbox. */
    ghost predicate Idle()
      reads this, chip, data
    {
      Fit() && host == Ready && pc == Poll && box.command == CMD_NONE
    }

    /** Mailbox zeroed, stub loaded, program counter set to its entry. */
    constructor ()
      ensures Fit() && Inv(View()) && host == Booting && fresh(chip) && fresh(data)
    {
      chip := new Chip();
      data := new Byte[DATA_MAX];
      box := ZEROED;
      pc := Boot(0);
      host := Booting;
    }

    /** The work of one command. */
    method Execute(command: nat) returns (result: nat)
      requires chip.Valid() && data.Length == DATA_MAX && box.address < WORD && box.length < WORD
      modifies chip
      ensures chip.Valid()
      ensures Outcome(old(chip.mem), command, box.address, box.length, box.checksum, data[..], chip.mem, result)
    {
      if command == CMD_READ_ID {
        var id := chip.ReadChipId();
        result := id as nat;
      } else if command == CMD_ERASE {
        if box.length == 0 {
          result := ERR_BAD_LENGTH;
        } else {
          var ok, done := chip.EraseRange(box.address, box.length);
          result := if ok then ERR_OK else ERR_TIMEOUT;
          assert Erases(old(chip.mem), box.address, box.length, chip.mem, result, done);
        }
      } else if command == CMD_WRITE_VERIFY {
        result := ExecuteWrite();
      } else {
        result := ERR_BAD_COMMAND;
      }
    }

    method ExecuteWrite() returns (result: nat)
      requires chip.Valid() && data.Length == DATA_MAX
      modifies chip
      ensures chip.Valid()
      ensures Outcome(old(chip.mem), CMD_WRITE_VERIFY, box.address, box.length, box.checksum, data[..], chip.mem,
                      result)
    {
      var n := box.length;
      if n == 0 || n > DATA_MAX { return ERR_BAD_LENGTH; }
      assert data[..][..n] == data[..n];
      var sum := ChecksumData(data, n);
      if sum != box.checksum { return ERR_CHECKSUM; }
      ghost var done;
      result, done := chip.ProgramVerify(data, box.address, n);
      assert data[..done] == data[..n][..done];
      assert Writes(old(chip.mem), box.address, data[..n], chip.mem, result, done);
    }

    /** One step of the stub, from one store to the next. */
    method Step()
      requires Fit()
      modifies this`box, this`pc, chip
      ensures Fit() && StubStep(old(View()), View())
    {
      match pc
      case Boot(k) => box, pc := Booted(box, k), if k == 4 then Poll else Boot(k + 1);
      case Poll =>
        if box.command != CMD_NONE { pc := Start(0, box.command); }
      case Start(k, command) =>
        box, pc := Started(box, k), if k == 2 then Pc.Execute(command) else Start(k + 1, command);
      case Execute(command) =>
        var progress: bool := *;
        if progress {
          var c: nat := *;
          box := box.(counter := c);
        } else {
          var outcome := Execute(command);
          pc := Report(command, outcome);
        }
      case Report(command, outcome) => box, pc := box.(result := outcome), Clear(command);
      case Clear(command) => box, pc := box.(command := CMD_NONE), Finish(command);
      case Finish(command) => box, pc := box.(status := FinalStatus(command, box.result)), Poll;
    }

    /** The core runs for a while and is halted between two stores. */
    method Resume() returns (ghost trail: seq<State>)
      requires Fit()
      modifies this`box, this`pc, chip
      ensures Fit() && Trail(trail) && trail[0] == old(View()) && trail[|trail| - 1] == View()
    {
      var steps: nat := *;
      trail := [View()];
      while steps > 0
        invariant Fit() && Trail(trail) && trail[0] == old(View()) && trail[|trail| - 1] == View()
      {
        ghost var s := View();
        Step();
        assert StepOf([s, View()], 0);
        TrailOn(trail, [s, View()]);
        trail := trail + [s, View()][1..];
        steps := steps - 1;
      }
    }

    /** `wait_for_jtag_flash_stub` */
    method WaitForStub() returns (ok: bool)
      requires Fit() && Inv(View()) && host == Booting
      modifies this, chip
      ensures Fit() && Inv(View()) && if ok then Idle() else host == Booting
    {
      var polls: nat := *;
      while polls > 0
        invariant Fit() && Inv(View()) && host == Booting
      {
        if box.magic == MAGIC && (box.status == READY || box.status == DONE) {
          ghost var s := View();
          host := Ready;
          assert SeesStub(s, View());
          CarefulNextKeeps(s, View());
          return true;
        }
        ghost var trail := Resume();
        TrailKeeps(trail, |trail| - 1);
        polls := polls - 1;
      }
      ok := false;
    }

    /** `load_image` into the data window, core halted. */
    method Load(chunk: seq<Byte>)
      requires Fit() && |chunk| <= DATA_MAX
      modifies data
      ensures Fit() && data[..] == MailboxSession.Load(old(data[..]), chunk)
    {
      var i := 0;
      while i < |chunk|
        invariant 0 <= i <= |chunk|
        invariant forall j :: 0 <= j < i ==> data[j] == chunk[j]
        invariant forall j :: i <= j < data.Length ==> data[j] == old(data[j])
      {
        data[i] := chunk[i];
        i := i + 1;
      }
    }

    /**
     `run_jtag_flash_command`. The stub takes steps until the host finds DONE or ERROR or gives up; if the
     stub was idle before, what is returned or raised is about this very command.
     */
    method RunCommand(command: nat, address: nat, length: nat, checksum: bv32)
      returns (r: Reply, ghost trail: seq<State>)
      requires Fit() && host == Ready && command != CMD_NONE && address < WORD && length < WORD
      modifies this`box, this`pc, this`host, chip
      ensures Fit() && Reads(r, box) && Trail(trail) && trail[|trail| - 1] == View()
      ensures trail[0] == Mailbox.Issued(old(View()), Request(command, address, length, checksum, data[..]))
      ensures host == Waiting(Request(command, address, length, checksum, data[..]), old(chip.mem))
      ensures old(Idle()) ==> Inv(View())
      ensures old(Idle()) && !r.TimedOut? ==>
                && pc == Poll && box.command == CMD_NONE
                && Outcome(old(chip.mem), command, address, length, checksum, data[..], chip.mem, r.result)
                && FinalStatus(command, r.result) == if r.Finished? then DONE else ERROR
    {
      ghost var q := Request(command, address, length, checksum, data[..]);
      ghost var s := View();
      ghost var before := chip.mem;
      box := box.(status := READY, address := address, length := length, checksum := checksum,
                  result := 0, counter := 0, command := command);
      host := Waiting(q, before);
      assert View() == Mailbox.Issued(s, q);
      if old(Idle()) {
        assert Issues(s, View());
        CarefulNextKeeps(s, View());
      }
      trail := [View()];
      var polls: nat := *;
      while polls > 0
        invariant Fit() && host == Waiting(q, before) && (old(Idle()) ==> Inv(View()))
        invariant Trail(trail) && trail[0] == Mailbox.Issued(s, q) && trail[|trail| - 1] == View()
      {
        trail := RunOn(trail);
        if box.status == DONE || box.status == ERROR {
          return if box.status == DONE then Finished(box.result) else Failed(box.result), trail;
        }
        polls := polls - 1;
      }
      trail := RunOn(trail);
      r := TimedOut(box.status, box.result);
    }

    /** The core resumed and halted again. */
    method RunOn(ghost trail: seq<State>) returns (ghost longer: seq<State>)
      requires Fit() && Trail(trail) && trail[|trail| - 1] == View()
      modifies this`box, this`pc, chip
      ensures Fit() && Trail(longer) && longer[0] == trail[0] && longer[|longer| - 1] == View()
      ensures old(Inv(View())) ==> Inv(View())
    {
      ghost var onward := Resume();
      TrailOn(trail, onward);
      longer := trail + onward[1..];
      if Inv(onward[0]) {
        TrailKeeps(onward, |onward| - 1);
      }
    }

    // ---- the record of the flashing ----

    ghost predicate InSession()
      reads this, chip, data
    {
      Fit() && log.Now().m == View()
    }

    /** The host is about to issue the command of the task. */
    ghost predicate At(k: nat, task: Task)
      reads this, chip, data
    {
      InSession() && Live(log.job.segs, log.Now(), k, task) && host == Ready
    }

    /** The command of the task has failed or timed out. */
    ghost predicate Pending(k: nat, task: Task, r: Reply)
      reads this, chip, data
    {
      InSession() && Live(log.job.segs, log.Now(), k, task) && host.Waiting? && !r.Finished? && Reads(r, box)
    }

    /** Segment k is finished. */
    ghost predicate Done(k: nat)
      reads this, chip, data
    {
      && InSession() && host == Ready && log.Now().k == k + 1 && log.Now().task == Erase(1)
      && k < |log.job.segs| && log.Now().ending == (if k + 1 == |log.job.segs| then Ending.Complete else Running)
    }

    /** The place after a task that was answered DONE. */
    ghost predicate After(k: nat, task: Task)
      reads this, chip, data
      requires k < |log.job.segs| && TaskOk(log.job.segs[k], task)
    {
      if LastChunk(log.job.segs[k], log.job.chunk, task) then Done(k)
      else At(k, Following(log.job.segs[k], log.job.chunk, task))
    }

    /** The host has raised: not on a verify error with attempts left. */
    ghost predicate Aborted()
      reads this, chip, data
    {
      && InSession() && log.Now().ending == Raised && host.Waiting?
      && !(box.result == ERR_VERIFY && CanRetry(log.Now().task))
    }

    /** The contents are known exactly: no busy retry so far, or no erase that could pass for a write. */
    ghost predicate Exact()
      reads this
    {
      log.job.Exact(log.Now().busy)
    }

    /** At most one busy retry so far, or no exposed segment. */
    ghost predicate Safe()
      reads this
    {
      Sheltered(log.job, log.Now())
    }

    ghost method Record(trail: seq<State>)
      requires Fit() && Going(log.job.segs, log.job.chunk, log.Now()) && log.Now().m.host == Ready
      requires Trail(trail) && trail[|trail| - 1] == View()
      requires trail[0] == Mailbox.Issued(log.Now().m,
                                          Ask(log.job.segs[log.Now().k], log.job.chunk, log.Now().task,
                                              log.Now().m.window))
      modifies this`log
      ensures InSession() && log.job == old(log.job) && log.Now() == old(log.Now()).(m := View()) && host.Waiting?
    {
      ghost var play := PlayServed(log.job.segs, log.job.chunk, log.play, log.Now(), trail);
      log := Log(log.job, play);
    }

    ghost method Accept(k: nat, task: Task)
      requires InSession() && Live(log.job.segs, log.Now(), k, task) && host.Waiting? && box.status == DONE
      modifies this`log, this`host
      ensures InSession() && log.job == old(log.job)
      ensures log.Now() == Accepted(log.job.segs, log.job.chunk, old(log.Now()))
      ensures After(k, task)
    {
      ghost var t := Accepted(log.job.segs, log.job.chunk, log.Now());
      assert HostAccepts(log.job.segs, log.job.chunk, log.Now(), t);
      host := Ready;
      Proceed(t);
    }

    ghost method Proceed(t: Scene)
      requires Move(log.job.segs, log.job.chunk, log.Now(), t)
      modifies this`log
      ensures log.job == old(log.job) && log.Now() == t
    {
      PlayOn(log.job.segs, log.job.chunk, log.play, t);
      log := Log(log.job, log.play + [t]);
    }

    ghost method Abort()
      requires InSession() && log.Now().ending == Running && host.Waiting?
      requires !(box.result == ERR_VERIFY && CanRetry(log.Now().task))
      modifies this`log
      ensures Aborted() && log.job == old(log.job) && log.Now().busy == old(log.Now()).busy
    {
      ghost var t := log.Now().(ending := Raised);
      assert HostRaises(log.Now(), t);
      Proceed(t);
    }

    /**
     After an exception: the caller tries again exactly when the text quotes a verify error and attempts are
     left, whether or not the stub is still busy.
     */
    method Recover(r: Reply, attempt: nat, ghost k: nat, ghost task: Task) returns (again: bool)
      requires Pending(k, task, r) && !task.Erase? && attempt == task.attempt
      modifies this`host, this`log
      ensures log.job == old(log.job) && (again <==> r.result == ERR_VERIFY && attempt < 3)
      ensures again ==>
                At(k, Retry(task)) && log.Now().busy == old(log.Now()).busy + (if box.status == BUSY then 1 else 0)
      ensures !again ==> Aborted() && log.Now().busy == old(log.Now()).busy
    {
      again := r.result == ERR_VERIFY && attempt < 3;
      if again {
        ghost var s := log.Now();
        ghost var t := s.(m := s.m.(host := Ready), task := Retry(task),
                          busy := s.busy + if box.status == BUSY then 1 else 0);
        assert HostRetries(log.job.segs, log.job.chunk, s, t);
        host := Ready;
        Proceed(t);
      } else {
        Abort();
      }
    }

    /** `erase_segment`; its exceptions are not caught. */
    method EraseSegment(seg: Segment, ghost k: nat, ghost a: nat) returns (r: Reply)
      requires At(k, Erase(a)) && seg == log.job.segs[k]
      modifies this`box, this`pc, this`host, this`log, chip
      ensures InSession() && log.job == old(log.job) && log.Now().busy == old(log.Now()).busy
      ensures if r.Finished? then At(k, Following(seg, log.job.chunk, Erase(a))) else Aborted()
      ensures r.Finished? && Exact() ==> chip.mem == Erased(old(chip.mem), ZoneBase(seg), ZoneEnd(seg) - ZoneBase(seg))
    {
      ghost var was := log;
      ZoneOnChip(seg);
      ghost var trail;
      r, trail := RunCommand(CMD_ERASE, EraseAddress(seg), EraseLength(seg), 0);
      Record(trail);
      if r.Finished? {
        Accept(k, Erase(a));
        if Exact() {
          EraseAnswered(was, log, k, Erase(a));
        }
      } else {
        Abort();
      }
    }

    /** `load_image`, then the command: the flashing goes on to wherever the host stops waiting. */
    method Transmit(address: nat, chunk: seq<Byte>, ghost k: nat, ghost task: Task) returns (r: Reply)
      requires At(k, task) && !task.Erase?
      requires address == Place(log.job.segs[k], task) && chunk == Payload(log.job.segs[k], log.job.chunk, task)
      modifies this`box, this`pc, this`host, this`log, chip, data
      ensures InSession() && log.job == old(log.job) && log.Now() == old(log.Now()).(m := View())
      ensures Reads(r, box) && host.Waiting? && host.before == old(chip.mem)
    {
      OnChip(log.job.segs, log.job.chunk, k, task);
      ghost var s, window := log.Now(), data[..];
      Load(chunk);
      var sum := ChecksumWord(chunk);
      ghost var trail;
      r, trail := RunCommand(CMD_WRITE_VERIFY, address, |chunk|, sum);
      AskedSo(log.job.segs[k], log.job.chunk, task, window, address, chunk);
      Record(trail);
    }

    /** One WRITE_VERIFY of `chunk`, a blank check or data. */
    method WriteOnce(address: nat, chunk: seq<Byte>, ghost k: nat, ghost task: Task) returns (r: Reply)
      requires At(k, task) && !task.Erase?
      requires address == Place(log.job.segs[k], task) && chunk == Payload(log.job.segs[k], log.job.chunk, task)
      modifies this`box, this`pc, this`host, this`log, chip, data
      ensures InSession() && log.job == old(log.job) && log.Now().busy == old(log.Now()).busy
      ensures if r.Finished? then After(k, task) else Pending(k, task, r)
      ensures r.Finished? && Safe() ==> ReadBack(chip.mem, address, |chunk|) == chunk
      ensures r.Finished? && Exact() ==> chip.mem == Programmed(old(chip.mem), address, chunk)
      ensures !r.Finished? && Safe() && r.result == ERR_VERIFY ==> chip.mem == Programmed(old(chip.mem), address, chunk)
    {
      ghost var was := log;
      r := Transmit(address, chunk, k, task);
      if r.Finished? {
        Accept(k, task);
        if Safe() {
          AnswerReads(was, log, k, task);
        }
        if Exact() {
          WriteAnswered(was, log, k, task);
        }
      } else if Safe() && r.result == ERR_VERIFY {
        WriteFailed(log, k, task);
      }
    }

    /** The chunk's attempt loop: up to three tries, repeated on a quoted verify error. */
    method WriteChunk(address: nat, chunk: seq<Byte>, ghost k: nat, ghost w: nat) returns (ok: bool)
      requires At(k, Write(w, 1))
      requires address == Place(log.job.segs[k], Write(w, 1))
      requires chunk == Payload(log.job.segs[k], log.job.chunk, Write(w, 1))
      modifies this`box, this`pc, this`host, this`log, chip, data
      ensures InSession() && log.job == old(log.job) && log.Now().busy >= old(log.Now()).busy
      ensures if ok then After(k, Write(w, 1)) else Aborted()
      ensures ok && Exact() ==> chip.mem == Programmed(old(chip.mem), address, chunk)
    {
      ghost var was := log;
      var attempt := 1;
      while true
        invariant 1 <= attempt <= 3 && log.job == was.job && At(k, Write(w, attempt))
        invariant log.Now().busy >= was.Now().busy
        decreases 3 - attempt
      {
        var r := WriteOnce(address, chunk, k, Write(w, attempt));
        if r.Finished? {
          if Exact() {
            WriteAnswered(was, log, k, Write(w, 1));
          }
          return true;
        }
        var again := Recover(r, attempt, k, Write(w, attempt));
        if !again { return false; }
        attempt := attempt + 1;
      }
    }

    /** `blank_check_segment`: write 0xFF over the whole segment. */
    method BlankCheck(seg: Segment, chunk: nat, ghost k: nat, ghost a: nat) returns (r: Reply, ghost c: nat)
      requires At(k, Check(a, 0)) && seg == log.job.segs[k] && chunk == log.job.chunk
      modifies this`box, this`pc, this`host, this`log, chip, data
      ensures InSession() && log.job == old(log.job) && log.Now().busy == old(log.Now()).busy
      ensures if r.Finished? then At(k, Write(0, 1)) else c < |seg.data| && Pending(k, Check(a, c), r)
      ensures Exact() && (r.Finished? || r.result == ERR_VERIFY) ==> chip.mem == old(chip.mem)
      ensures Safe() && r.Finished? ==> BlankRange(chip.mem, seg.address, |seg.data|)
    {
      var checked := 0;
      r, c := Finished(ERR_OK), 0;
      while checked < |seg.data|
        invariant 0 <= checked <= |seg.data| && r.Finished? && log.job == old(log.job)
        invariant At(k, if checked < |seg.data| then Check(a, checked) else Write(0, 1))
        invariant log.Now().busy == old(log.Now()).busy
        invariant Exact() ==> chip.mem == old(chip.mem)
      {
        var n := if chunk < |seg.data| - checked then chunk else |seg.data| - checked;
        var blank := Blanks(n);
        ProgramBlanks(chip.mem, seg.address + checked, n);
        c := checked;
        r := WriteOnce(seg.address + checked, blank, k, Check(a, checked));
        ExactIsSafe(log.job, log.Now());
        if !r.Finished? { return; }
        checked := checked + n;
      }
      if Safe() {
        CheckedBlank(log, k);
      }
    }

    /** The LP core's segment: erase and blank-check, up to three times. */
    method EraseAndCheck(seg: Segment, chunk: nat, ghost k: nat) returns (ok: bool)
      requires At(k, Erase(1)) && seg == log.job.segs[k] && chunk == log.job.chunk && IsLp(seg)
      modifies this`box, this`pc, this`host, this`log, chip, data
      ensures InSession() && log.job == old(log.job) && log.Now().busy >= old(log.Now()).busy
      ensures if ok then At(k, Write(0, 1)) else Aborted()
      ensures ok && Exact() ==> chip.mem == Erased(old(chip.mem), ZoneBase(seg), ZoneEnd(seg) - ZoneBase(seg))
    {
      ghost var was := log;
      var attempt := 1;
      while true
        invariant 1 <= attempt <= 3 && log.job == was.job && At(k, Erase(attempt)) && log.Now().busy >= was.Now().busy
        decreases 3 - attempt
      {
        var e := EraseSegment(seg, k, attempt);
        if !e.Finished? { return false; }
        ghost var c;
        var r;
        r, c := BlankCheck(seg, chunk, k, attempt);
        if r.Finished? {
          if Exact() {
            ErasedAnswered(was, log, k, seg);
          }
          return true;
        }
        var again := Recover(r, attempt, k, Check(attempt, c));
        if !again { return false; }
        attempt := attempt + 1;
      }
    }

    /** The chunk loop: one big program of the segment's data. */
    method WriteSegment(seg: Segment, chunk: nat, ghost k: nat) returns (ok: bool)
      requires At(k, Write(0, 1)) && seg == log.job.segs[k] && chunk == log.job.chunk
      modifies this`box, this`pc, this`host, this`log, chip, data
      ensures InSession() && log.job == old(log.job) && log.Now().busy >= old(log.Now()).busy
      ensures if ok then Done(k) else Aborted()
      ensures ok && Exact() ==> chip.mem == Programmed(old(chip.mem), seg.address, seg.data)
    {
      ghost var was := log;
      var written := 0;
      while written < |seg.data|
        invariant 0 <= written <= |seg.data| && log.job == was.job && log.Now().busy >= was.Now().busy
        invariant if written < |seg.data| then At(k, Write(written, 1)) else Done(k)
      {
        var n := if chunk < |seg.data| - written then chunk else |seg.data| - written;
        ok := WriteChunk(seg.address + written, seg.data[written..written + n], k, written);
        if !ok { return; }
        written := written + n;
      }
      if Exact() {
        SegmentAnswered(was, log, k, seg);
      }
      ok := true;
    }

    /** `jtag_flash_program_segment` */
    method ProgramSegment(seg: Segment, chunk: nat, ghost k: nat) returns (ok: bool)
      requires At(k, Erase(1)) && seg == log.job.segs[k] && chunk == log.job.chunk
      modifies this`box, this`pc, this`host, this`log, chip, data
      ensures InSession() && log.job == old(log.job) && log.Now().busy >= old(log.Now()).busy
      ensures if ok then Done(k) else Aborted()
      ensures ok && Exact() ==> chip.mem == Flashed(old(chip.mem), seg)
    {
      if seg.address == LP_OFFSET {
        ok := EraseAndCheck(seg, chunk, k);
        if !ok { return; }
      } else {
        var e := EraseSegment(seg, k, 1);
        if !e.Finished? { return false; }
      }
      ok := WriteSegment(seg, chunk, k);
    }

    /**
     The segment loop of `flash_firmware_over_jtag`. When it returns normally every segment is in flash, if a
     busy stub was retried at most once or no segment is exposed; and the contents are exactly those of
     flashing one segment after the other, if no busy stub was retried or no erase can pass for a write.
     */
    method FlashAll(segs: seq<Segment>, chunk: nat) returns (ok: bool)
      requires Idle() && Setup(segs, chunk)
      modifies this, chip, data
      ensures if ok then InSession() && log.Now().ending == Ending.Complete else Aborted()
      ensures ok ==> log.job == Job(segs, chunk, old(data[..]), old(chip.mem))
      ensures ok && (log.Now().busy <= 1 || !Exposed(segs, chunk, old(data[..]))) ==> AllInFlash(chip.mem, segs)
      ensures ok && (log.Now().busy == 0 || !Crossable(segs, chunk, old(data[..]))) ==>
                chip.mem == FlashedAll(old(chip.mem), segs, |segs|)
    {
      log := Log(Job(segs, chunk, data[..], chip.mem), [Scene(View(), 0, Erase(1), Running, 0)]);
      var n := 0;
      while n < |segs|
        invariant 0 <= n <= |segs| && InSession() && log.job == Job(segs, chunk, old(data[..]), old(chip.mem))
        invariant if n == |segs| then Done(n - 1) else At(n, Erase(1))
      {
        ok := ProgramSegment(segs[n], chunk, n);
        if !ok { return; }
        n := n + 1;
      }
      FlashingWritesEverySegment(segs, chunk, log.play);
      ok := true;
    }
  }

  /**
   `flash_firmware_over_jtag` from the build outputs to the last segment: overlap check, zeroed mailbox,
   stub start, chip id, every segment.
   */
  method FlashFirmware(m0: seq<seq<Byte>>, lp: seq<Byte>, d0: seq<Byte>, chunk: int) returns (ok: bool, target: Target)
    requires |m0| == 4 || m0 == []
    requires forall seg :: seg in FlashList(m0, lp, d0) ==> Fits(seg)
    ensures ok ==> 1 <= chunk <= DATA_MAX && Setup(FlashList(m0, lp, d0), chunk) && target.InSession()
    ensures ok ==> (var segs, busy, window := FlashList(m0, lp, d0), target.log.Now().busy, target.log.job.window;
                    && (busy <= 1 || !Exposed(segs, chunk, window) ==>
                          ImagesIn(target.chip.mem, m0, lp, d0) && AllInFlash(target.chip.mem, segs))
                    && (busy == 0 || !Crossable(segs, chunk, window) ==>
                          target.chip.mem == FlashedAll(target.log.job.start, segs, |segs|)))
    ensures !ok ==>
              || FlashList(m0, lp, d0) == [] || chunk < 1 || chunk > DATA_MAX
              || !PairwiseDisjoint(FlashList(m0, lp, d0))
              || target.host == Booting || (target.host.Waiting? && target.host.request.command == CMD_READ_ID)
              || target.Aborted()
  {
    target := new Target();
    var segs := FlashList(m0, lp, d0);
    if segs == [] || chunk < 1 || chunk > DATA_MAX { return false, target; }
    FlashListIsInOrder(m0, lp, d0);
    var disjoint := ValidateNoOverlap(segs);
    if !disjoint { return false, target; }
    var ready := target.WaitForStub();
    if !ready { return false, target; }
    ghost var trail;
    var id;
    id, trail := target.RunCommand(CMD_READ_ID, 0, 0, 0);
    if !id.Finished? { return false, target; }
    target.host := Ready;
    ok := target.FlashAll(segs, chunk);
    if ok && (target.log.Now().busy <= 1 || !Exposed(segs, chunk, target.log.job.window)) {
      EachIn(target.chip.mem, segs);
      ListedImagesAreIn(target.chip.mem, m0, lp, d0);
    }
  }

  lemma EachIn(f: Flash, segs: seq<Segment>)
    requires AllInFlash(f, segs)
    ensures forall seg :: seg in segs ==> InFlash(f, seg)
  {
  }

  // ---- what one command leaves, from the invariant at both ends ----

  /** The contents are what the flashing so far has made them. */
  ghost predicate ExactAt(job: Job, s: Scene)
    requires job.Ok()
  {
    if s.ending == Running then
      && Going(job.segs, job.chunk, s) && s.m.host == Ready
      && ExactFacts(FlashedAll(job.start, job.segs, s.k), job.segs[s.k], job.chunk, s.task, s.m.flash)
    else s.ending == Ending.Complete && s.k == |job.segs| && s.m.flash == FlashedAll(job.start, job.segs, s.k)
  }

  lemma {:induction false} Settled(l: Flashing)
    requires l.job.Exact(l.Now().busy) && l.Now().ending != Raised && l.Now().m.host == Ready
    ensures ExactAt(l.job, l.Now())
  {
    ExactIsSafe(l.job, l.Now());
    PlayKeeps(l.job, l.play, |l.play| - 1);
  }

  lemma {:induction false} EraseLeg(job: Job, s: Scene, t: Scene)
    requires job.Ok() && ExactAt(job, s) && ExactAt(job, t) && s.ending == t.ending == Running && s.k == t.k
    requires s.task.Erase? && t.task == Following(job.segs[s.k], job.chunk, s.task)
    ensures t.m.flash == Cleared(s.m.flash, job.segs[s.k])
  {
    var seg, base := job.segs[s.k], FlashedAll(job.start, job.segs, s.k);
    ClearedZone(base, seg);
    if t.task.Write? {
      WrittenNone(base, seg, t.m.flash);
    }
  }

  lemma {:induction false} ExactIsFacts(job: Job, s: Scene, base: Flash)
    requires job.Ok() && ExactAt(job, s) && s.ending == Running && base == FlashedAll(job.start, job.segs, s.k)
    ensures ExactFacts(base, job.segs[s.k], job.chunk, s.task, s.m.flash)
  {
  }

  lemma {:induction false} ExactIsAll(job: Job, s: Scene, k: nat)
    requires job.Ok() && ExactAt(job, s) && s.task == Erase(1) && k + 1 == s.k <= |job.segs|
    ensures s.m.flash == Flashed(FlashedAll(job.start, job.segs, k), job.segs[k])
  {
  }

  /** A blank check changes nothing. */
  lemma {:induction false} CheckLeg(base: Flash, seg: Segment, chunk: nat, task: Task, f: Flash, g: Flash)
    requires Fits(seg) && TaskOk(seg, task) && task.Check? && 0 < chunk && ExactFacts(base, seg, chunk, task, f)
    requires TaskOk(seg, Following(seg, chunk, task)) && ExactFacts(base, seg, chunk, Following(seg, chunk, task), g)
    ensures g == Programmed(f, Place(seg, task), Payload(seg, chunk, task))
  {
    ProgramBlanks(f, seg.address + task.checked, Size(seg, chunk, task.checked));
    if Following(seg, chunk, task).Write? {
      WrittenNone(base, seg, g);
    }
  }

  /** A chunk is programmed, whatever part of it was there already. */
  lemma {:induction false} ChunkLeg(base: Flash, seg: Segment, chunk: nat, task: Task, f: Flash, g: Flash, h: Flash,
                                    w: nat, n: nat)
    requires Fits(seg) && TaskOk(seg, task) && task.Write? && 0 < chunk && ExactFacts(base, seg, chunk, task, f)
    requires w == task.written && n == Size(seg, chunk, w) && WrittenTo(base, seg, w + n, g)
    requires h == Programmed(f, seg.address + w, seg.data[w..w + n])
    ensures g == h
  {
    ChunkExact(base, seg, chunk, task, f, h, w, n);
    SameWritten(base, seg, w + n, g, h);
  }

  lemma {:induction false} SameWritten(base: Flash, seg: Segment, d: nat, f: Flash, g: Flash)
    requires Fits(seg) && WrittenTo(base, seg, d, f) && WrittenTo(base, seg, d, g)
    ensures f == g
  {
  }

  lemma {:induction false} FlashedIsWritten(base: Flash, seg: Segment, g: Flash)
    requires Fits(seg) && g == Flashed(base, seg)
    ensures WrittenTo(base, seg, |seg.data|, g)
  {
    assert seg.data[..|seg.data|] == seg.data;
  }

  lemma {:induction false} WrittenAt(job: Job, s: Scene, t: Scene, base: Flash, w: nat, n: nat)
    requires job.Ok() && ExactAt(job, s) && ExactAt(job, t) && s.ending == Running && s.task.Write? && Next(job, s, t)
    requires base == FlashedAll(job.start, job.segs, s.k) && w == s.task.written
    requires n == Size(job.segs[s.k], job.chunk, w)
    ensures WrittenTo(base, job.segs[s.k], w + n, t.m.flash)
  {
    if LastChunk(job.segs[s.k], job.chunk, s.task) {
      ExactIsAll(job, t, s.k);
      FlashedIsWritten(base, job.segs[s.k], t.m.flash);
    } else {
      ExactIsFacts(job, t, base);
    }
  }

  lemma {:induction false} WriteLeg(job: Job, s: Scene, t: Scene)
    requires job.Ok() && ExactAt(job, s) && ExactAt(job, t) && s.ending == Running && !s.task.Erase? && Next(job, s, t)
    ensures t.m.flash == Programmed(s.m.flash, Place(job.segs[s.k], s.task), Payload(job.segs[s.k], job.chunk, s.task))
  {
    var seg, base := job.segs[s.k], FlashedAll(job.start, job.segs, s.k);
    ExactIsFacts(job, s, base);
    if s.task.Check? {
      ExactIsFacts(job, t, base);
      CheckLeg(base, seg, job.chunk, s.task, s.m.flash, t.m.flash);
    } else {
      var w, n := s.task.written, Size(seg, job.chunk, s.task.written);
      WrittenAt(job, s, t, base, w, n);
      ChunkLegAt(base, seg, job.chunk, s.task, s.m.flash, t.m.flash, w, n);
    }
  }

  lemma {:induction false} ChunkLegAt(base: Flash, seg: Segment, chunk: nat, task: Task, f: Flash, g: Flash, w: nat,
                                      n: nat)
    requires Fits(seg) && TaskOk(seg, task) && task.Write? && 0 < chunk && ExactFacts(base, seg, chunk, task, f)
    requires w == task.written && n == Size(seg, chunk, w) && WrittenTo(base, seg, w + n, g)
    ensures g == Programmed(f, Place(seg, task), Payload(seg, chunk, task))
  {
    ChunkLeg(base, seg, chunk, task, f, g, Programmed(f, seg.address + w, seg.data[w..w + n]), w, n);
  }

  /** t is where DONE leads from s. */
  ghost predicate Next(job: Job, s: Scene, t: Scene)
    requires job.Ok() && s.k < |job.segs| && TaskOk(job.segs[s.k], s.task)
  {
    var a := Accepted(job.segs, job.chunk, s);
    t.k == a.k && t.task == a.task && t.ending == a.ending && t.busy >= s.busy && t.m.host == Ready
  }

  /** What was answered DONE is there. */
  ghost predicate There(seg: Segment, chunk: nat, task: Task, f: Flash)
    requires TaskOk(seg, task) && 0 < chunk && !task.Erase?
  {
    if task.Check? then ZoneBlank(f, seg) else PrefixIn(f, seg, task.written + Size(seg, chunk, task.written))
  }

  lemma {:induction false} ThereReads(seg: Segment, chunk: nat, task: Task, f: Flash)
    requires Fits(seg) && TaskOk(seg, task) && 0 < chunk && !task.Erase? && There(seg, chunk, task, f)
    ensures var p := Payload(seg, chunk, task); ReadBack(f, Place(seg, task), |p|) == p
  {
    if task.Check? {
      BlankReads(seg, f, task.checked, Payload(seg, chunk, task));
    } else {
      ChunkReads(f, seg, task.written, Size(seg, chunk, task.written));
    }
  }

  lemma {:induction false} ThereNext(job: Job, s: Scene, t: Scene)
    requires job.Ok() && s.k < |job.segs| && TaskOk(job.segs[s.k], s.task) && !s.task.Erase? && s.ending == Running
    requires Next(job, s, t) && SceneInv(job, t)
    ensures There(job.segs[s.k], job.chunk, s.task, t.m.flash)
  {
    if LastChunk(job.segs[s.k], job.chunk, s.task) {
      assert Earlier(job.segs, s.k + 1, t.m.flash);
      InFlashIsPrefix(t.m.flash, job.segs[s.k]);
    }
  }

  lemma {:induction false} InFlashIsPrefix(f: Flash, seg: Segment)
    requires InFlash(f, seg)
    ensures PrefixIn(f, seg, |seg.data|)
  {
    forall i | 0 <= i < |seg.data| ensures CellAt(f, seg.address, i) == seg.data[i] {
      assert ReadBack(f, seg.address, |seg.data|)[i] == seg.data[i];
    }
  }

  // ---- the same about flashings ----

  /** Two ends of a command that was answered DONE. */
  ghost predicate Answers(was: Flashing, now: Flashing, k: nat, task: Task) {
    && was.job == now.job && Live(was.job.segs, was.Now(), k, task) && was.Now().m.host == Ready
    && Next(was.job, was.Now(), now.Now())
  }

  lemma {:induction false} EraseAnswered(was: Flashing, now: Flashing, k: nat, task: Task)
    requires Answers(was, now, k, task) && task.Erase? && now.job.Exact(now.Now().busy)
    ensures now.Now().m.flash == Cleared(was.Now().m.flash, was.job.segs[k])
  {
    Settled(was);
    Settled(now);
    EraseLeg(was.job, was.Now(), now.Now());
  }

  lemma {:induction false} WriteAnswered(was: Flashing, now: Flashing, k: nat, task: Task)
    requires Answers(was, now, k, task) && !task.Erase? && now.job.Exact(now.Now().busy)
    ensures now.Now().m.flash
         == Programmed(was.Now().m.flash, Place(was.job.segs[k], task), Payload(was.job.segs[k], was.job.chunk, task))
  {
    Settled(was);
    Settled(now);
    WriteLeg(was.job, was.Now(), now.Now());
  }

  /** All chunks of a segment. */
  lemma {:induction false} SegmentAnswered(was: Flashing, now: Flashing, k: nat, seg: Segment)
    requires was.job == now.job && now.job.Exact(now.Now().busy) && was.Now().busy <= now.Now().busy
    requires Live(was.job.segs, was.Now(), k, Write(0, 1)) && was.Now().m.host == Ready && seg == was.job.segs[k]
    requires now.Now().k == k + 1 && now.Now().task == Erase(1) && now.Now().ending != Raised
    requires now.Now().m.host == Ready
    ensures now.Now().m.flash == Programmed(was.Now().m.flash, seg.address, seg.data)
  {
    var base := FlashedAll(was.job.start, was.job.segs, k);
    Settled(was);
    Settled(now);
    ExactIsFacts(was.job, was.Now(), base);
    ExactIsAll(now.job, now.Now(), k);
    WrittenNone(base, seg, was.Now().m.flash);
  }

  /** Erase and blank check, however often. */
  lemma {:induction false} ErasedAnswered(was: Flashing, now: Flashing, k: nat, seg: Segment)
    requires was.job == now.job && now.job.Exact(now.Now().busy) && was.Now().busy <= now.Now().busy
    requires Live(was.job.segs, was.Now(), k, Erase(1)) && was.Now().m.host == Ready && seg == was.job.segs[k]
    requires Live(now.job.segs, now.Now(), k, Write(0, 1)) && now.Now().m.host == Ready
    ensures now.Now().m.flash == Cleared(was.Now().m.flash, seg)
  {
    var base := FlashedAll(was.job.start, was.job.segs, k);
    Settled(was);
    Settled(now);
    ExactIsFacts(was.job, was.Now(), base);
    ExactIsFacts(now.job, now.Now(), base);
    WrittenNone(base, seg, now.Now().m.flash);
  }

  lemma {:induction false} WrittenNone(base: Flash, seg: Segment, f: Flash)
    requires Fits(seg) && WrittenTo(base, seg, 0, f)
    ensures f == Cleared(base, seg)
  {
    assert seg.data[..0] == [];
    assert Programmed(Cleared(base, seg), seg.address, []) == Cleared(base, seg);
  }

  lemma {:induction false} AnswerReads(was: Flashing, now: Flashing, k: nat, task: Task)
    requires Answers(was, now, k, task) && !task.Erase? && Sheltered(now.job, now.Now())
    ensures var p := Payload(was.job.segs[k], was.job.chunk, task);
            ReadBack(now.Now().m.flash, Place(was.job.segs[k], task), |p|) == p
  {
    PlayKeeps(now.job, now.play, |now.play| - 1);
    ThereNext(was.job, was.Now(), now.Now());
    ThereReads(was.job.segs[k], was.job.chunk, task, now.Now().m.flash);
  }

  lemma {:induction false} WriteFailed(now: Flashing, k: nat, task: Task)
    requires Live(now.job.segs, now.Now(), k, task) && now.Now().m.host.Waiting? && !task.Erase?
    requires Sheltered(now.job, now.Now()) && now.Now().m.box.result == ERR_VERIFY
    ensures now.Now().m.flash
         == Programmed(now.Now().m.host.before, Place(now.job.segs[k], task),
                       Payload(now.job.segs[k], now.job.chunk, task))
  {
    PlayKeeps(now.job, now.play, |now.play| - 1);
    VerifyLeg(now.job, now.Now());
  }

  lemma {:induction false} VerifyLeg(job: Job, t: Scene)
    requires job.Ok() && SceneInv(job, t) && t.ending == Running && t.m.host.Waiting? && !t.task.Erase?
    requires t.m.box.result == ERR_VERIFY
    ensures t.m.flash
            == Programmed(t.m.host.before, Place(job.segs[t.k], t.task), Payload(job.segs[t.k], job.chunk, t.task))
  {
    var q, before := t.m.host.request, t.m.host.before;
    if t.busy >= 1 && Crossed(t, q, before) {
      CrossedNeverRetried(job, t, q, before);
    }
    PayloadServed(job.segs[t.k], job.chunk, t.task, t.m.window, before, t.m.flash, ERR_VERIFY);
  }

  lemma {:induction false} AskedSo(seg: Segment, chunk: nat, task: Task, window: seq<Byte>, address: nat, p: seq<Byte>)
    requires TaskOk(seg, task) && !task.Erase? && 0 < chunk <= DATA_MAX == |window|
    requires address == Place(seg, task) && p == Payload(seg, chunk, task)
    ensures Ask(seg, chunk, task, window)
         == Request(CMD_WRITE_VERIFY, address, |p|, Checksum(p), MailboxSession.Load(window, p))
  {
  }

  lemma {:induction false} OnChip(segs: seq<Segment>, chunk: nat, k: nat, task: Task)
    requires Setup(segs, chunk) && k < |segs| && TaskOk(segs[k], task) && !task.Erase?
    ensures Place(segs[k], task) < CAPACITY
  {
  }

  lemma {:induction false} ExactIsSafe(job: Job, s: Scene)
    requires job.Ok()
    ensures job.Exact(s.busy) ==> Sheltered(job, s)
  {
    ExposedIsCrossable(job.segs, job.chunk, job.window);
  }

  /** A finished blank check of the LP core's segment. */
  lemma {:induction false} CheckedBlank(l: Flashing, k: nat)
    requires Live(l.job.segs, l.Now(), k, Write(0, 1)) && l.Now().m.host == Ready && IsLp(l.job.segs[k])
    requires Sheltered(l.job, l.Now())
    ensures BlankRange(l.Now().m.flash, l.job.segs[k].address, |l.job.segs[k].data|)
  {
    PlayKeeps(l.job, l.play, |l.play| - 1);
    ZoneIsBlank(l.Now().m.flash, l.job.segs[k]);
  }

  lemma {:induction false} ZoneIsBlank(f: Flash, seg: Segment)
    requires Fits(seg) && ZoneBlank(f, seg)
    ensures BlankRange(f, seg.address, |seg.data|)
  {
    ZoneOnChip(seg);
    forall i | 0 <= i < |seg.data| ensures CellAt(f, seg.address, i) == BLANK {
      assert f[seg.address + i] == BLANK;
    }
  }

  ghost predicate BlankRange(f: Flash, address: int, n: nat) {
    forall k :: 0 <= k < n ==> CellAt(f, address, k) == BLANK
  }

  /** One 0xFF write. */
  method BlankStep(chip: Chip, data: array<Byte>, address: nat, n: nat) returns (ok: bool)
    requires chip.Valid() && data.Length == DATA_MAX && 0 < n <= DATA_MAX
    requires forall i :: 0 <= i < n ==> data[i] == BLANK
    modifies chip
    ensures chip.Valid() && chip.mem == old(chip.mem) && chip.faults >= old(chip.faults)
    ensures ok ==> BlankRange(chip.mem, address, n)
    ensures chip.faults == old(chip.faults) ==> (ok <==> BlankRange(chip.mem, address, n))
  {
    var status, done := chip.ProgramVerify(data, address, n);
    ProgramBlank(old(chip.mem), address, data[..done]);
    BlankProgrammable(chip.mem, address, data[..n]);
    if status == ERR_OK {
      forall k | 0 <= k < n ensures CellAt(chip.mem, address, k) == BLANK {
        assert ReadBack(chip.mem, address, n)[k] == data[..n][k];
      }
    }
    ok := status == ERR_OK;
  }

  lemma BlankSplit(f: Flash, address: int, m: nat, n: nat)
    ensures BlankRange(f, address, m + n) <==> BlankRange(f, address, m) && BlankRange(f, address + m, n)
  {
    var rest := address + m;
    if BlankRange(f, address, m + n) {
      forall k | 0 <= k < n ensures CellAt(f, rest, k) == BLANK {
        assert CellAt(f, address, m + k) == BLANK;
      }
    }
    if BlankRange(f, address, m) && BlankRange(f, rest, n) {
      forall k | 0 <= k < m + n ensures CellAt(f, address, k) == BLANK {
        if k >= m { assert CellAt(f, rest, k - m) == BLANK; }
      }
    }
  }

  /**
   The blank check against the stub's own routine: a sweep of 0xFF writes never changes the flash and,
   unless the controller times out, passes exactly when the whole range is erased.
   */
  method BlankSweep(chip: Chip, data: array<Byte>, seg: Segment, chunk: nat) returns (ok: bool)
    requires chip.Valid() && data.Length == DATA_MAX && Fits(seg) && 0 < chunk <= DATA_MAX
    modifies chip, data
    ensures chip.mem == old(chip.mem)
    ensures ok ==> BlankRange(chip.mem, seg.address, |seg.data|)
    ensures chip.faults == old(chip.faults) ==> (ok <==> BlankRange(chip.mem, seg.address, |seg.data|))
    ensures chip.faults >= old(chip.faults)
  {
    forall i | 0 <= i < data.Length { data[i] := BLANK; }
    var checked := 0;
    while checked < |seg.data|
      invariant 0 <= checked <= |seg.data| && chip.Valid() && chip.mem == old(chip.mem)
      invariant forall i :: 0 <= i < data.Length ==> data[i] == BLANK
      invariant BlankRange(chip.mem, seg.address, checked) && chip.faults >= old(chip.faults)
    {
      var n := if chunk < |seg.data| - checked then chunk else |seg.data| - checked;
      ok := BlankStep(chip, data, seg.address + checked, n);
      BlankSplit(chip.mem, seg.address, checked, n);
      BlankSplit(chip.mem, seg.address, checked + n, |seg.data| - checked - n);
      if !ok { return; }
      checked := checked + n;
    }
    ok := true;
  }

  /** 0xFF can be programmed only where 0xFF already is. */
  lemma BlankProgrammable(f: Flash, address: int, blank: seq<Byte>)
    requires forall k :: 0 <= k < |blank| ==> blank[k] == BLANK
    ensures Programmable(f, address, blank) <==> BlankRange(f, address, |blank|)
  {
    forall k | 0 <= k < |blank|
      ensures CellAt(f, address, k) & blank[k] == blank[k] <==> CellAt(f, address, k) == BLANK
    {
      AndBlank(CellAt(f, address, k));
    }
  }

  lemma AndBlank(x: Byte)
    ensures x & BLANK == x
  {
  }

  lemma ProgramBlank(f: Flash, address: int, blank: seq<Byte>)
    requires forall k :: 0 <= k < |blank| ==> blank[k] == BLANK
    ensures Programmed(f, address, blank) == f
  {
    var g := Programmed(f, address, blank);
    forall c | 0 <= c < CAPACITY ensures g[c] == f[c] {
    }
  }
}
