/**
 What a flashing through the mailbox leaves in the chip, retries of a busy stub included: with at most
 one of them every segment is in flash whenever the host returns, and with any number of them unless
 a segment is exposed.
 */
module MailboxSafety {
  import opened Nor
  import opened FlashOps
  import opened Checksums
  import opened Service
  import opened Segments
  import opened Layout
  import opened Mailbox
  import opened MailboxSession

  /** Segments, chunk size, and what RAM window and flash held at the start. */
  datatype Job = Job(segs: seq<Segment>, chunk: nat, window: seq<Byte>, start: Flash)
  {
    ghost predicate Ok() {
      Setup(segs, chunk) && |window| == DATA_MAX
    }

    ghost predicate IsExposed()
      requires Ok()
    {
      Exposed(segs, chunk, window)
    }

    /** No busy stub was retried, or no erase could pass for a write. */
    ghost predicate Exact(busy: nat)
      requires Ok()
    {
      busy == 0 || !Crossable(segs, chunk, window)
    }
  }

  // ---- the flash at each point of the host's way ----

  ghost predicate Earlier(segs: seq<Segment>, k: nat, f: Flash)
    requires k <= |segs|
  {
    forall j :: 0 <= j < k ==> InFlash(f, segs[j])
  }

  /** The current segment: its zone blank once erased, its written part in place, the rest writable. */
  ghost predicate SegFacts(seg: Segment, task: Task, spoilt: bool, f: Flash)
    requires TaskOk(seg, task)
  {
    match task
    case Erase(a) => a > 1 ==> IsLp(seg) && ZoneBlank(f, seg)
    case Check(_, _) => ZoneBlank(f, seg)
    case Write(w, a) =>
      PrefixIn(f, seg, w) && (Takes(f, seg) || spoilt) && (IsLp(seg) && w == 0 && a == 1 ==> ZoneBlank(f, seg))
  }

  /** A segment may not be writable only after a busy retry, and only if some segment is exposed. */
  ghost predicate Spoilt(job: Job, busy: nat)
    requires job.Ok()
  {
    busy >= 1 && job.IsExposed()
  }

  /** The contents, when they are known exactly; base is what the earlier segments left. */
  ghost predicate ExactFacts(base: Flash, seg: Segment, chunk: nat, task: Task, f: Flash)
    requires Fits(seg) && TaskOk(seg, task) && 0 < chunk
  {
    match task
    case Erase(a) => f == if a == 1 then base else Cleared(base, seg)
    case Check(_, _) => f == Cleared(base, seg)
    case Write(w, a) => WrittenTo(base, seg, if a == 1 then w else w + Size(seg, chunk, w), f)
  }

  ghost predicate WrittenTo(base: Flash, seg: Segment, d: int, f: Flash)
    requires Fits(seg)
  {
    0 <= d <= |seg.data| && f == Programmed(Cleared(base, seg), seg.address, seg.data[..d])
  }

  ghost predicate Facts(job: Job, k: nat, task: Task, busy: nat, f: Flash)
    requires job.Ok() && k < |job.segs| && TaskOk(job.segs[k], task)
  {
    && Earlier(job.segs, k, f) && SegFacts(job.segs[k], task, Spoilt(job, busy), f)
    && (job.Exact(busy) ==> ExactFacts(FlashedAll(job.start, job.segs, k), job.segs[k], job.chunk, task, f))
  }

  /** All segments up to k in flash, and the contents known exactly where they can be. */
  ghost predicate Through(job: Job, k: nat, busy: nat, f: Flash)
    requires job.Ok() && k <= |job.segs|
  {
    Earlier(job.segs, k, f) && (job.Exact(busy) ==> f == FlashedAll(job.start, job.segs, k))
  }

  /** The facts for the place the host goes to after DONE. */
  ghost predicate NextFacts(job: Job, k: nat, task: Task, busy: nat, f: Flash)
    requires job.Ok() && k < |job.segs| && TaskOk(job.segs[k], task)
  {
    if LastChunk(job.segs[k], job.chunk, task) then Through(job, k + 1, busy, f)
    else Facts(job, k, Following(job.segs[k], job.chunk, task), busy, f)
  }

  lemma {:induction false} OneMore(segs: seq<Segment>, k: nat, f: Flash)
    requires k < |segs| && Earlier(segs, k, f) && PrefixIn(f, segs[k], |segs[k].data|)
    ensures Earlier(segs, k + 1, f)
  {
    AllIn(f, segs[k]);
  }

  /** At the start of a segment nothing is asked of it. */
  lemma {:induction false} ThroughIsFacts(job: Job, k: nat, busy: nat, f: Flash)
    requires job.Ok() && k < |job.segs| && Through(job, k, busy, f)
    ensures Facts(job, k, Erase(1), busy, f)
  {
  }

  // ---- effects of commands that were answered DONE ----

  lemma {:induction false} EraseDone(job: Job, k: nat, task: Task, busy: nat, f: Flash, g: Flash)
    requires job.Ok() && k < |job.segs| && TaskOk(job.segs[k], task) && task.Erase?
    requires Facts(job, k, task, busy, f) && g == Cleared(f, job.segs[k])
    ensures NextFacts(job, k, task, busy, g)
  {
    var seg := job.segs[k];
    ClearedZone(f, seg);
    ClearedZone(FlashedAll(job.start, job.segs, k), seg);
    EarlierKept(job.segs, job.chunk, k, f, g);
    BlankZoneTakes(g, seg);
    if job.Exact(busy) && !IsLp(seg) {
      NothingWritten(FlashedAll(job.start, job.segs, k), seg, g);
    }
  }

  lemma {:induction false} NothingWritten(base: Flash, seg: Segment, g: Flash)
    requires Fits(seg) && g == Cleared(base, seg)
    ensures WrittenTo(base, seg, 0, g)
  {
    assert seg.data[..0] == [];
    assert Programmed(g, seg.address, []) == g;
  }

  /** A blank check, or an erase in its place, changes nothing. */
  lemma {:induction false} CheckDone(job: Job, k: nat, task: Task, busy: nat, f: Flash)
    requires job.Ok() && k < |job.segs| && TaskOk(job.segs[k], task) && task.Check?
    requires Facts(job, k, task, busy, f)
    ensures NextFacts(job, k, task, busy, f)
  {
    var seg := job.segs[k];
    BlankZoneTakes(f, seg);
    if job.Exact(busy) {
      NothingWritten(FlashedAll(job.start, job.segs, k), seg, f);
    }
  }

  /** A chunk programmed over a written prefix that may reach into it. */
  lemma {:induction false} ChunkOver(base: Flash, seg: Segment, d: nat, w: nat, n: nat, f: Flash, g: Flash)
    requires Fits(seg) && w <= d <= w + n <= |seg.data| && WrittenTo(base, seg, d, f)
    requires g == Programmed(f, seg.address + w, seg.data[w..w + n])
    ensures WrittenTo(base, seg, w + n, g)
  {
    var c := Cleared(base, seg);
    var h := Programmed(c, seg.address, seg.data[..w + n]);
    forall x | 0 <= x < CAPACITY ensures g[x] == h[x] {
      PrefixCell(c, seg, d, f, x);
      PrefixCell(c, seg, w + n, h, x);
      StretchCell(f, seg, w, n, g, x);
      if seg.address <= x < seg.address + w + n {
        AndTwice(c[x], seg.data[x - seg.address]);
      }
    }
  }

  lemma {:induction false} PrefixCell(c: Flash, seg: Segment, d: nat, f: Flash, x: nat)
    requires Fits(seg) && d <= |seg.data| && x < CAPACITY && f == Programmed(c, seg.address, seg.data[..d])
    ensures f[x] == if seg.address <= x < seg.address + d then c[x] & seg.data[x - seg.address] else c[x]
  {
    assert seg.data[..d] == seg.data[0..0 + d];
    StretchCell(c, seg, 0, d, f, x);
  }

  lemma {:induction false} StretchCell(f: Flash, seg: Segment, w: nat, n: nat, g: Flash, x: nat)
    requires Fits(seg) && w + n <= |seg.data| && x < CAPACITY
    requires g == Programmed(f, seg.address + w, seg.data[w..w + n])
    ensures g[x] == if seg.address + w <= x < seg.address + w + n then f[x] & seg.data[x - seg.address] else f[x]
  {
    WithinIsInterval(x, seg.address + w, n);
    if seg.address + w <= x < seg.address + w + n {
      assert Offset(x, seg.address + w) == x - seg.address - w;
    }
  }

  lemma {:induction false} AllWritten(job: Job, k: nat, f: Flash)
    requires job.Ok() && k < |job.segs|
    requires WrittenTo(FlashedAll(job.start, job.segs, k), job.segs[k], |job.segs[k].data|, f)
    ensures f == FlashedAll(job.start, job.segs, k + 1)
  {
    var seg := job.segs[k];
    assert seg.data[..|seg.data|] == seg.data;
  }

  /** The chunk is in flash, however that came about. */
  lemma {:induction false} WriteDone(job: Job, k: nat, task: Task, busy: nat, f: Flash)
    requires job.Ok() && k < |job.segs| && TaskOk(job.segs[k], task) && task.Write?
    requires Earlier(job.segs, k, f) && (Takes(f, job.segs[k]) || Spoilt(job, busy))
    requires PrefixIn(f, job.segs[k], task.written + Size(job.segs[k], job.chunk, task.written))
    requires job.Exact(busy) ==> WrittenTo(FlashedAll(job.start, job.segs, k), job.segs[k],
                                     task.written + Size(job.segs[k], job.chunk, task.written), f)
    ensures NextFacts(job, k, task, busy, f)
  {
    var seg, w := job.segs[k], task.written;
    var n := Size(seg, job.chunk, w);
    if w + n == |seg.data| {
      OneMore(job.segs, k, f);
      if job.Exact(busy) {
        AllWritten(job, k, f);
      }
    }
  }

  /** What a chunk's write leaves, whether it verified or not. */
  lemma {:induction false} ChunkProgrammed(job: Job, k: nat, task: Task, busy: nat, f: Flash, g: Flash, w: nat, n: nat)
    requires job.Ok() && k < |job.segs| && TaskOk(job.segs[k], task) && task.Write? && w == task.written
    requires Earlier(job.segs, k, f) && SegFacts(job.segs[k], task, Spoilt(job, busy), f)
    requires Applied(f, g, job.segs[k], w, n)
    ensures Earlier(job.segs, k, g) && PrefixIn(g, job.segs[k], w) && (Takes(g, job.segs[k]) || Spoilt(job, busy))
    ensures Takes(f, job.segs[k]) ==> PrefixIn(g, job.segs[k], w + n)
    ensures HasChunk(g, job.segs[k], w, n) ==> PrefixIn(g, job.segs[k], w + n)
  {
    ChunkWritten(f, job.segs[k], w, n, g);
    EarlierKept(job.segs, job.chunk, k, f, g);
  }

  lemma {:induction false} ChunkExact(base: Flash, seg: Segment, chunk: nat, task: Task, f: Flash, g: Flash, w: nat,
                                      n: nat)
    requires Fits(seg) && TaskOk(seg, task) && task.Write? && 0 < chunk && w == task.written && n == Size(seg, chunk, w)
    requires ExactFacts(base, seg, chunk, task, f) && g == Programmed(f, seg.address + w, seg.data[w..w + n])
    ensures WrittenTo(base, seg, w + n, g)
  {
    ChunkOver(base, seg, if task.attempt == 1 then w else w + n, w, n, f, g);
  }

  // ---- stub and host ----

  /** A command the stub may have read before the host wrote the one it waits for. */
  predicate Echo(command: nat, k: nat, task: Task) {
    || (command == CMD_WRITE_VERIFY && (task.Write? || (task == Erase(1) && k > 0)))
    || (command == CMD_ERASE && task.Check? && task.checked == 0)
  }

  /** The effect the host waits for is there already. */
  ghost predicate Granted(seg: Segment, chunk: nat, task: Task, f: Flash)
    requires TaskOk(seg, task) && 0 < chunk
  {
    match task
    case Erase(a) => a > 1
    case Check(_, _) => false
    case Write(w, a) => a > 1 && PrefixIn(f, seg, w + Size(seg, chunk, w))
  }

  /**
   The stub while the host waits for nothing: polling; about to start a command already answered; or busy, given up.
   */
  ghost predicate ReadyInv(job: Job, s: Scene)
    requires job.Ok() && s.k < |job.segs| && TaskOk(job.segs[s.k], s.task)
  {
    match s.m.pc
    case Poll => true
    case Start(j, c) => j == 0 && s.busy >= 1 && Echo(c, s.k, s.task)
    case Clear(_) => s.busy >= 1 && Granted(job.segs[s.k], job.chunk, s.task, s.m.flash)
    case Finish(_) => s.busy >= 1 && Granted(job.segs[s.k], job.chunk, s.task, s.m.flash)
    case _ => false
  }

  /** The stub executes `actual` with the parameters of q. */
  ghost predicate Serving(m: State, q: Request, before: Flash, actual: nat) {
    match m.pc
    case Poll =>
      || (m.box.command == q.command == actual && m.box.status == READY && m.box.result == 0 && m.flash == before)
      || (&& m.box.command == CMD_NONE && m.box.status == FinalStatus(actual, m.box.result)
          && Ans(before, actual, q, m.flash, m.box.result))
    case Start(j, c) =>
      j < 3 && c == actual && m.box.result == 0 && m.flash == before && m.box.status == (if j == 0 then READY else BUSY)
    case Execute(c) => c == actual && m.box.result == 0 && m.flash == before && m.box.status == BUSY
    case Report(c, o) => c == actual && m.box.result == 0 && m.box.status == BUSY && Ans(before, actual, q, m.flash, o)
    case Clear(c) => c == actual && m.box.status == BUSY && Ans(before, actual, q, m.flash, m.box.result)
    case Finish(c) =>
      c == actual && m.box.status == BUSY && m.box.command == CMD_NONE && Ans(before, actual, q, m.flash, m.box.result)
    case Boot(_) => false
  }

  ghost predicate Ans(f: Flash, actual: nat, q: Request, g: Flash, result: nat) {
    Outcome(f, actual, q.address, q.length, q.checksum, q.window, g, result)
  }

  /** The stub is ending an earlier command and will report DONE; q may be executed after that. */
  ghost predicate Stale(m: State, q: Request, before: Flash) {
    && m.flash == before && m.box.result == 0
    && match m.pc
       case Clear(_) => m.box.status == READY && m.box.command == q.command
       case Finish(_) => m.box.status == READY && (m.box.command == CMD_NONE || m.box.command == q.command)
       case Poll => m.box.status == DONE && (m.box.command == CMD_NONE || m.box.command == q.command)
       case Start(j, c) => j == 0 && c == q.command && m.box.status == DONE
       case _ => false
  }

  ghost predicate WaitInv(job: Job, s: Scene, q: Request, before: Flash)
    requires job.Ok() && s.k < |job.segs| && TaskOk(job.segs[s.k], s.task) && |s.m.window| == DATA_MAX
  {
    && q == Ask(job.segs[s.k], job.chunk, s.task, s.m.window) && Carries(s.m.box, s.m.window, q)
    && Facts(job, s.k, s.task, s.busy, before)
    && (|| Serving(s.m, q, before, q.command)
        || (s.busy >= 1 && Crossed(s, q, before))
        || (s.busy >= 1 && Stale(s.m, q, before) && Granted(job.segs[s.k], job.chunk, s.task, before)))
  }

  /** The stub executes the other command with q's parameters. */
  ghost predicate Crossed(s: Scene, q: Request, before: Flash) {
    Serving(s.m, q, before, Other(q.command)) && Echo(Other(q.command), s.k, s.task)
  }

  function Other(command: nat): nat {
    if command == CMD_ERASE then CMD_WRITE_VERIFY else CMD_ERASE
  }

  /** The window as the loads so far have left it: `was` at the start of the segment, `last` at its end. */
  ghost predicate WindowOk(was: seq<Byte>, last: seq<Byte>, seg: Segment, chunk: nat, task: Task, window: seq<Byte>)
    requires TaskOk(seg, task) && Fits(seg) && 0 < chunk <= |window|
  {
    match task
    case Erase(a) => if a == 1 then window == was else SameFrom(window, was, Size(seg, chunk, 0))
    case Check(_, _) => SameFrom(window, was, Size(seg, chunk, 0))
    case Write(w, _) => Loaded(window, seg, chunk, w) == last
  }

  /** The window when segment k is begun. */
  ghost function Was(job: Job, k: nat): (w: seq<Byte>)
    requires job.Ok() && k <= |job.segs|
    ensures |w| == DATA_MAX
  {
    WindowAt(job.segs, job.chunk, job.window, k)
  }

  ghost predicate WindowIn(job: Job, k: nat, task: Task, window: seq<Byte>)
    requires job.Ok() && k < |job.segs| && TaskOk(job.segs[k], task) && |window| == DATA_MAX
  {
    WindowOk(Was(job, k), Was(job, k + 1), job.segs[k], job.chunk, task, window)
  }

  ghost predicate SceneInv(job: Job, s: Scene)
    requires job.Ok()
  {
    match s.ending
    case Raised => true
    case Complete => s.k == |job.segs| && s.m.host == Ready && Through(job, |job.segs|, s.busy, s.m.flash)
    case Running =>
      && Going(job.segs, job.chunk, s) && WindowIn(job, s.k, s.task, s.m.window)
      && match s.m.host
         case Booting => false
         case Ready => Facts(job, s.k, s.task, s.busy, s.m.flash) && ReadyInv(job, s)
         case Waiting(q, before) => WaitInv(job, s, q, before)
  }

  /** At most one retry of a busy stub, or no exposed segment. */
  ghost predicate Sheltered(job: Job, s: Scene)
    requires job.Ok()
  {
    s.busy <= 1 || !job.IsExposed()
  }

  // ---- the window ----

  lemma {:induction false} AskAgain(seg: Segment, chunk: nat, task: Task, window: seq<Byte>)
    requires TaskOk(seg, task) && 0 < chunk <= DATA_MAX == |window|
    ensures var q := Ask(seg, chunk, task, window); |q.window| == DATA_MAX && Ask(seg, chunk, task, q.window) == q
  {
    LoadTwice(window, Payload(seg, chunk, task));
  }

  lemma {:induction false} WindowIssued(was: seq<Byte>, last: seq<Byte>, seg: Segment, chunk: nat, task: Task,
                                        window: seq<Byte>)
    requires TaskOk(seg, task) && Fits(seg) && 0 < chunk <= DATA_MAX == |window|
    requires WindowOk(was, last, seg, chunk, task, window)
    ensures WindowOk(was, last, seg, chunk, task, Ask(seg, chunk, task, window).window)
  {
    if task.Write? {
      LoadTwice(window, seg.data[task.written..task.written + Size(seg, chunk, task.written)]);
    }
  }

  /** The window holds the chunk that is being written. */
  predicate Holds(seg: Segment, chunk: nat, task: Task, window: seq<Byte>)
    requires TaskOk(seg, task) && 0 < chunk <= |window|
  {
    task.Write? ==> (var w := task.written; var n := Size(seg, chunk, w); window[..n] == seg.data[w..w + n])
  }

  lemma {:induction false} Asked(seg: Segment, chunk: nat, task: Task, window: seq<Byte>)
    requires TaskOk(seg, task) && 0 < chunk <= DATA_MAX == |window| && Ask(seg, chunk, task, window).window == window
    ensures Holds(seg, chunk, task, window)
  {
  }

  lemma {:induction false} Reloaded(window: seq<Byte>, p: seq<Byte>)
    requires |p| <= |window| && window[..|p|] == p
    ensures Load(window, p) == window
  {
  }

  /** The chunk at w is in the window already. */
  lemma {:induction false} LoadedOn(window: seq<Byte>, seg: Segment, chunk: nat, w: nat, n: nat)
    requires w < |seg.data| && 0 < chunk <= |window| && n == Size(seg, chunk, w) && window[..n] == seg.data[w..w + n]
    ensures Loaded(window, seg, chunk, w) == if w + n == |seg.data| then window else Loaded(window, seg, chunk, w + n)
  {
    Reloaded(window, seg.data[w..w + n]);
  }

  lemma {:induction false} WindowErased(was: seq<Byte>, last: seq<Byte>, seg: Segment, chunk: nat, task: Task,
                                        window: seq<Byte>)
    requires TaskOk(seg, task) && Fits(seg) && 0 < chunk <= |window| == |was| && !task.Write?
    requires WindowOk(was, last, seg, chunk, task, window) && last == Loaded(was, seg, chunk, 0)
    ensures WindowOk(was, last, seg, chunk, Following(seg, chunk, task), window)
  {
    LoadedSame(window, was, seg, chunk);
  }

  lemma {:induction false} WindowWritten(last: seq<Byte>, seg: Segment, chunk: nat, w: nat, n: nat, window: seq<Byte>)
    requires w < |seg.data| && 0 < chunk <= |window| && n == Size(seg, chunk, w) && window[..n] == seg.data[w..w + n]
    requires Loaded(window, seg, chunk, w) == last
    ensures w + n < |seg.data| ==> Loaded(window, seg, chunk, w + n) == last
    ensures w + n == |seg.data| ==> window == last
  {
    LoadedOn(window, seg, chunk, w, n);
  }

  lemma {:induction false} WindowAccepted(was: seq<Byte>, last: seq<Byte>, seg: Segment, chunk: nat, task: Task,
                                          window: seq<Byte>)
    requires TaskOk(seg, task) && Fits(seg) && 0 < chunk <= |window| == |was| && task.Write?
    requires WindowOk(was, last, seg, chunk, task, window) && Holds(seg, chunk, task, window)
    ensures !LastChunk(seg, chunk, task) ==> WindowOk(was, last, seg, chunk, Following(seg, chunk, task), window)
    ensures LastChunk(seg, chunk, task) ==> window == last
  {
    WindowWritten(last, seg, chunk, task.written, Size(seg, chunk, task.written), window);
  }

  lemma {:induction false} WindowRetried(was: seq<Byte>, last: seq<Byte>, seg: Segment, chunk: nat, task: Task,
                                         window: seq<Byte>)
    requires TaskOk(seg, task) && Fits(seg) && 0 < chunk <= |window| && CanRetry(task)
    requires WindowOk(was, last, seg, chunk, task, window)
    ensures WindowOk(was, last, seg, chunk, Retry(task), window)
  {
  }

  // ---- each step keeps it ----

  lemma {:induction false} ServingStep(m: State, n: State, q: Request, before: Flash, actual: nat)
    requires Serving(m, q, before, actual) && Carries(m.box, m.window, q) && StubStep(m, n)
    ensures Serving(n, q, before, actual) && Carries(n.box, n.window, q) && n.host == m.host && n.window == m.window
  {
  }

  lemma {:induction false} StaleStep(m: State, n: State, q: Request, before: Flash)
    requires Stale(m, q, before) && Carries(m.box, m.window, q) && StubStep(m, n) && q.command != CMD_NONE
    ensures Stale(n, q, before) || Serving(n, q, before, q.command)
    ensures Carries(n.box, n.window, q) && n.host == m.host && n.window == m.window
  {
  }

  lemma {:induction false} StubKeeps(job: Job, s: Scene, t: Scene)
    requires job.Ok() && SceneInv(job, s) && StubRuns(s, t)
    ensures SceneInv(job, t)
  {
    var q, before := s.m.host.request, s.m.host.before;
    if Serving(s.m, q, before, q.command) {
      ServingStep(s.m, t.m, q, before, q.command);
    } else if s.busy >= 1 && Crossed(s, q, before) {
      ServingStep(s.m, t.m, q, before, Other(q.command));
    } else {
      StaleStep(s.m, t.m, q, before);
    }
  }

  lemma {:induction false} IssueKeeps(job: Job, s: Scene, t: Scene)
    requires job.Ok() && SceneInv(job, s) && HostIssues(job.segs, job.chunk, s, t)
    ensures SceneInv(job, t)
  {
    var seg := job.segs[s.k];
    var q := Ask(seg, job.chunk, s.task, s.m.window);
    AskAgain(seg, job.chunk, s.task, s.m.window);
    WindowIssued(Was(job, s.k), Was(job, s.k + 1), seg, job.chunk, s.task, s.m.window);
    match s.m.pc
    case Poll => assert Serving(t.m, q, s.m.flash, q.command);
    case Start(_, c) =>
      assert Serving(t.m, q, s.m.flash, c);
      assert c == q.command || c == Other(q.command);
    case Clear(_) => assert Stale(t.m, q, s.m.flash);
    case Finish(_) => assert Stale(t.m, q, s.m.flash);
  }

  /** Where a task writes. */
  function Place(seg: Segment, task: Task): nat
    requires TaskOk(seg, task) && !task.Erase?
  {
    seg.address + if task.Check? then task.checked else task.written
  }

  /** The payload of a blank check or a chunk has been applied. */
  lemma {:induction false} PayloadServed(seg: Segment, chunk: nat, task: Task, window: seq<Byte>, f: Flash, g: Flash,
                                         result: nat)
    requires TaskOk(seg, task) && !task.Erase? && 0 < chunk <= DATA_MAX == |window|
    requires Ask(seg, chunk, task, window).window == window
    requires Ans(f, CMD_WRITE_VERIFY, Ask(seg, chunk, task, window), g, result)
    requires result == ERR_OK || result == ERR_VERIFY
    ensures var p := Payload(seg, chunk, task);
            && g == Programmed(f, Place(seg, task), p)
            && (result == ERR_OK ==> ReadBack(g, Place(seg, task), |p|) == p)
  {
    var p := Payload(seg, chunk, task);
    assert Load(window, p) == window;
    WriteEffect(f, Place(seg, task), p, window, g, result);
  }

  /** The command that writes a chunk, spelt out. */
  lemma {:induction false} ChunkAsked(seg: Segment, chunk: nat, task: Task, window: seq<Byte>, q: Request, w: nat,
                                      n: nat)
    requires TaskOk(seg, task) && task.Write? && 0 < chunk <= DATA_MAX == |window|
    requires q == Ask(seg, chunk, task, window) && w == task.written && n == Size(seg, chunk, w)
    ensures q.command == CMD_WRITE_VERIFY && q.address == seg.address + w && q.length == n && |q.window| == DATA_MAX
    ensures q.checksum == Checksum(seg.data[w..w + n]) && q.window[..n] == seg.data[w..w + n]
  {
  }

  /** What the stub's answer to a chunk says about the flash. */
  lemma {:induction false} ChunkAnswered(seg: Segment, chunk: nat, task: Task, window: seq<Byte>, base: Flash, f: Flash,
                                         g: Flash, result: nat, w: nat, n: nat)
    requires Fits(seg) && TaskOk(seg, task) && task.Write? && 0 < chunk <= DATA_MAX == |window|
    requires w == task.written && n == Size(seg, chunk, w) && (result == ERR_OK || result == ERR_VERIFY)
    requires Ans(f, CMD_WRITE_VERIFY, Ask(seg, chunk, task, window), g, result)
    ensures Applied(f, g, seg, w, n) && (result == ERR_OK ==> HasChunk(g, seg, w, n))
    ensures ExactFacts(base, seg, chunk, task, f) ==> WrittenTo(base, seg, w + n, g)
  {
    var q := Ask(seg, chunk, task, window);
    ChunkAsked(seg, chunk, task, window, q, w, n);
    WriteEffect(f, seg.address + w, seg.data[w..w + n], q.window, g, result);
    ProgrammedIsApplied(f, seg, w, n, g);
    if result == ERR_OK {
      ReadBackHasChunk(g, seg, w, n);
    }
    if ExactFacts(base, seg, chunk, task, f) {
      ChunkExact(base, seg, chunk, task, f, g, w, n);
    }
  }

  lemma {:induction false} ChunkServed(job: Job, k: nat, task: Task, busy: nat, f: Flash, g: Flash, w: nat, n: nat)
    requires job.Ok() && k < |job.segs| && TaskOk(job.segs[k], task) && task.Write? && Facts(job, k, task, busy, f)
    requires w == task.written && n == Size(job.segs[k], job.chunk, w)
    requires Applied(f, g, job.segs[k], w, n) && HasChunk(g, job.segs[k], w, n)
    requires job.Exact(busy) ==> WrittenTo(FlashedAll(job.start, job.segs, k), job.segs[k], w + n, g)
    ensures NextFacts(job, k, task, busy, g)
  {
    ChunkProgrammed(job, k, task, busy, f, g, w, n);
    WriteDone(job, k, task, busy, g);
  }

  lemma {:induction false} CheckServed(job: Job, k: nat, task: Task, window: seq<Byte>, f: Flash, g: Flash, result: nat)
    requires job.Ok() && k < |job.segs| && TaskOk(job.segs[k], task) && |window| == DATA_MAX && task.Check?
    requires Ask(job.segs[k], job.chunk, task, window).window == window && (result == ERR_OK || result == ERR_VERIFY)
    requires Ans(f, CMD_WRITE_VERIFY, Ask(job.segs[k], job.chunk, task, window), g, result)
    ensures g == f
  {
    var seg := job.segs[k];
    PayloadServed(seg, job.chunk, task, window, f, g, result);
    ProgramBlanks(f, Place(seg, task), Size(seg, job.chunk, task.checked));
  }

  lemma {:induction false} ChunkDone(job: Job, k: nat, task: Task, busy: nat, window: seq<Byte>, f: Flash, g: Flash,
                                     w: nat, n: nat)
    requires job.Ok() && k < |job.segs| && TaskOk(job.segs[k], task) && |window| == DATA_MAX && task.Write?
    requires w == task.written && n == Size(job.segs[k], job.chunk, w) && Facts(job, k, task, busy, f)
    requires Ans(f, CMD_WRITE_VERIFY, Ask(job.segs[k], job.chunk, task, window), g, ERR_OK)
    ensures NextFacts(job, k, task, busy, g)
  {
    ChunkAnswered(job.segs[k], job.chunk, task, window, FlashedAll(job.start, job.segs, k), f, g, ERR_OK, w, n);
    ChunkServed(job, k, task, busy, f, g, w, n);
  }

  /** A command executed with the host's parameters and answered OK brings the next facts about. */
  lemma {:induction false} ServedDone(job: Job, k: nat, task: Task, busy: nat, window: seq<Byte>, f: Flash, g: Flash)
    requires job.Ok() && k < |job.segs| && TaskOk(job.segs[k], task) && |window| == DATA_MAX
    requires Ask(job.segs[k], job.chunk, task, window).window == window && Facts(job, k, task, busy, f)
    requires var q := Ask(job.segs[k], job.chunk, task, window); Ans(f, q.command, q, g, ERR_OK)
    ensures NextFacts(job, k, task, busy, g)
  {
    match task
    case Erase(_) =>
      EraseEffect(f, job.segs[k], 0, window, g, ERR_OK);
      EraseDone(job, k, task, busy, f, g);
    case Check(_, _) =>
      CheckServed(job, k, task, window, f, g, ERR_OK);
      CheckDone(job, k, task, busy, f);
    case Write(w, _) => ChunkDone(job, k, task, busy, window, f, g, w, Size(job.segs[k], job.chunk, w));
  }

  /** The other command executed in its place and answered OK does so too, or spoils an exposed segment. */
  lemma {:induction false} CrossedDone(job: Job, k: nat, task: Task, busy: nat, window: seq<Byte>, f: Flash, g: Flash)
    requires job.Ok() && k < |job.segs| && TaskOk(job.segs[k], task) && |window| == DATA_MAX && busy >= 1
    requires Ask(job.segs[k], job.chunk, task, window).window == window && Facts(job, k, task, busy, f)
    requires WindowIn(job, k, task, window)
    requires var q := Ask(job.segs[k], job.chunk, task, window);
             Echo(Other(q.command), k, task) && Ans(f, Other(q.command), q, g, ERR_OK)
    ensures NextFacts(job, k, task, busy, g)
  {
    var seg := job.segs[k];
    var q, p := Ask(seg, job.chunk, task, window), Payload(seg, job.chunk, task);
    if task.Check? {
      EraseInBlankZone(f, seg, |p|, q.checksum, window, g, ERR_OK);
      CheckDone(job, k, task, busy, f);
    } else {
      WriteForErase(f, seg, window, g, ERR_OK);
      SpoiltOrNot(job, k, busy, f, g, window[..|seg.data|]);
    }
  }

  /** After the window was written instead of an erase, the data still fits, or the segment was exposed. */
  lemma {:induction false} SpoiltOrNot(job: Job, k: nat, busy: nat, f: Flash, g: Flash, z: seq<Byte>)
    requires job.Ok() && 0 < k < |job.segs| && busy >= 1 && !IsLp(job.segs[k]) && |job.segs[k].data| <= DATA_MAX
    requires z == Remnant(job.segs, job.chunk, job.window, k) && Checksum(z) == 0
    requires Facts(job, k, Erase(1), busy, f)
    requires g == Programmed(f, job.segs[k].address, z) && ReadBack(g, job.segs[k].address, |z|) == z
    ensures Facts(job, k, Write(0, 1), busy, g)
  {
    var seg := job.segs[k];
    assert CrossableAt(job.segs, job.chunk, job.window, k);
    ZoneOnChip(seg);
    ProgramOnlyInside(f, seg.address, z, g, ZoneBase(seg), ZoneEnd(seg));
    EarlierKept(job.segs, job.chunk, k, f, g);
    if Covered(seg.data, z) {
      forall i | 0 <= i < |seg.data| ensures CellAt(g, seg.address, i) & seg.data[i] == seg.data[i] {
        assert ReadBack(g, seg.address, |z|)[i] == z[i];
      }
    } else {
      assert ExposedAt(job.segs, job.chunk, job.window, k);
    }
  }

  /** A retried command whose effect was there already. */
  lemma {:induction false} GrantedDone(job: Job, k: nat, task: Task, busy: nat, f: Flash)
    requires job.Ok() && k < |job.segs| && TaskOk(job.segs[k], task) && busy >= 1
    requires Facts(job, k, task, busy, f) && Granted(job.segs[k], job.chunk, task, f)
    ensures NextFacts(job, k, task, busy, f)
  {
    if task.Write? {
      WriteDone(job, k, task, busy, f);
    }
  }

  /** From the facts about the next place to the invariant there. */
  lemma {:induction false} AcceptedLast(job: Job, t: Scene)
    requires job.Ok() && 0 < t.k <= |job.segs| && t.task == Erase(1) && |t.m.window| == DATA_MAX && t.m.host == Ready
    requires t.ending == (if t.k == |job.segs| then Complete else Running)
    requires t.m.window == Was(job, t.k) && Through(job, t.k, t.busy, t.m.flash) && AtRest(t)
    ensures SceneInv(job, t)
  {
    if t.k < |job.segs| {
      ThroughIsFacts(job, t.k, t.busy, t.m.flash);
      ReadyAt(job, t);
    }
  }

  lemma {:induction false} WindowNext(job: Job, k: nat, task: Task, window: seq<Byte>)
    requires job.Ok() && k < |job.segs| && TaskOk(job.segs[k], task) && |window| == DATA_MAX
    requires WindowIn(job, k, task, window) && Holds(job.segs[k], job.chunk, task, window)
    ensures LastChunk(job.segs[k], job.chunk, task) ==> window == Was(job, k + 1)
    ensures !LastChunk(job.segs[k], job.chunk, task) ==>
              WindowIn(job, k, Following(job.segs[k], job.chunk, task), window)
  {
    if task.Write? {
      WindowAccepted(Was(job, k), Was(job, k + 1), job.segs[k], job.chunk, task, window);
    } else {
      WindowErased(Was(job, k), Was(job, k + 1), job.segs[k], job.chunk, task, window);
    }
  }

  lemma {:induction false} AcceptedOn(job: Job, s: Scene, t: Scene, next: Task)
    requires job.Ok() && Going(job.segs, job.chunk, s) && TaskOk(job.segs[s.k], next)
    requires t.k == s.k && t.task == next && t.ending == Running && t.busy == s.busy && t.m == s.m.(host := Ready)
    requires AtRest(t)
    requires WindowIn(job, s.k, next, s.m.window) && Facts(job, s.k, next, s.busy, s.m.flash)
    ensures SceneInv(job, t)
  {
    ReadyAt(job, t);
  }

  lemma {:induction false} AcceptedInv(job: Job, s: Scene, t: Scene)
    requires job.Ok() && Going(job.segs, job.chunk, s) && t == Accepted(job.segs, job.chunk, s) && AtRest(t)
    requires WindowIn(job, s.k, s.task, s.m.window) && Holds(job.segs[s.k], job.chunk, s.task, s.m.window)
    requires NextFacts(job, s.k, s.task, s.busy, s.m.flash)
    ensures SceneInv(job, t)
  {
    WindowNext(job, s.k, s.task, s.m.window);
    if LastChunk(job.segs[s.k], job.chunk, s.task) {
      NextIsThrough(job, s.k, s.task, s.busy, s.m.flash);
      AcceptedLast(job, t);
    } else {
      var next := Following(job.segs[s.k], job.chunk, s.task);
      NextIsFacts(job, s.k, s.task, s.busy, s.m.flash, next);
      AcceptedOn(job, s, t, next);
    }
  }

  lemma {:induction false} NextIsThrough(job: Job, k: nat, task: Task, busy: nat, f: Flash)
    requires job.Ok() && k < |job.segs| && TaskOk(job.segs[k], task) && LastChunk(job.segs[k], job.chunk, task)
    requires NextFacts(job, k, task, busy, f)
    ensures Through(job, k + 1, busy, f)
  {
  }

  lemma {:induction false} NextIsFacts(job: Job, k: nat, task: Task, busy: nat, f: Flash, next: Task)
    requires job.Ok() && k < |job.segs| && TaskOk(job.segs[k], task) && !LastChunk(job.segs[k], job.chunk, task)
    requires NextFacts(job, k, task, busy, f) && next == Following(job.segs[k], job.chunk, task)
    ensures TaskOk(job.segs[k], next) && Facts(job, k, next, busy, f)
  {
  }

  /** The stub polls, or is about to start a command that may have been read earlier. */
  ghost predicate AtRest(t: Scene) {
    t.m.pc == Poll || (t.busy >= 1 && t.m.pc.Start? && t.m.pc.store == 0 && Echo(t.m.pc.command, t.k, t.task))
  }

  lemma {:induction false} ReadyAt(job: Job, t: Scene)
    requires job.Ok() && Going(job.segs, job.chunk, t) && WindowIn(job, t.k, t.task, t.m.window) && t.m.host == Ready
    requires Facts(job, t.k, t.task, t.busy, t.m.flash)
    requires AtRest(t)
    ensures SceneInv(job, t)
  {
  }

  lemma {:induction false} AcceptKeeps(job: Job, s: Scene, t: Scene)
    requires job.Ok() && SceneInv(job, s) && HostAccepts(job.segs, job.chunk, s, t)
    ensures SceneInv(job, t)
  {
    var q, before := s.m.host.request, s.m.host.before;
    if Serving(s.m, q, before, q.command) {
      ServedDone(job, s.k, s.task, s.busy, s.m.window, before, s.m.flash);
    } else if s.busy >= 1 && Crossed(s, q, before) {
      CrossedDone(job, s.k, s.task, s.busy, s.m.window, before, s.m.flash);
    } else {
      GrantedDone(job, s.k, s.task, s.busy, before);
    }
    Asked(job.segs[s.k], job.chunk, s.task, s.m.window);
    AcceptedInv(job, s, t);
  }

  /** A verify error: the chunk has been applied all the same. */
  lemma {:induction false} ChunkFailed(job: Job, k: nat, task: Task, busy: nat, f: Flash, g: Flash, w: nat, n: nat)
    requires job.Ok() && k < |job.segs| && TaskOk(job.segs[k], task) && task.Write? && Facts(job, k, task, busy, f)
    requires w == task.written && n == Size(job.segs[k], job.chunk, w) && Applied(f, g, job.segs[k], w, n)
    requires job.Exact(busy) ==> WrittenTo(FlashedAll(job.start, job.segs, k), job.segs[k], w + n, g)
    ensures Facts(job, k, Retry(task), busy, g)
    ensures Takes(f, job.segs[k]) ==> Granted(job.segs[k], job.chunk, Retry(task), g)
  {
    ChunkProgrammed(job, k, task, busy, f, g, w, n);
  }

  lemma {:induction false} VerifyFailed(job: Job, k: nat, task: Task, busy: nat, window: seq<Byte>, f: Flash, g: Flash)
    requires job.Ok() && k < |job.segs| && TaskOk(job.segs[k], task) && |window| == DATA_MAX && CanRetry(task)
    requires Ask(job.segs[k], job.chunk, task, window).window == window && Facts(job, k, task, busy, f)
    requires var q := Ask(job.segs[k], job.chunk, task, window); Ans(f, q.command, q, g, ERR_VERIFY)
    ensures Facts(job, k, Retry(task), busy, g)
    ensures (task.Write? ==> Takes(f, job.segs[k])) ==> Granted(job.segs[k], job.chunk, Retry(task), g)
  {
    if task.Check? {
      CheckServed(job, k, task, window, f, g, ERR_VERIFY);
    } else {
      var w := task.written;
      var n := Size(job.segs[k], job.chunk, w);
      ChunkAnswered(job.segs[k], job.chunk, task, window, FlashedAll(job.start, job.segs, k), f, g, ERR_VERIFY, w, n);
      ChunkFailed(job, k, task, busy, f, g, w, n);
    }
  }

  /** A crossed command never ends in a verify error that is retried. */
  lemma {:induction false} CrossedNeverRetried(job: Job, s: Scene, q: Request, before: Flash)
    requires job.Ok() && SceneInv(job, s) && s.ending == Running && s.m.host == Waiting(q, before)
    requires Crossed(s, q, before)
    requires CanRetry(s.task)
    ensures s.m.box.result != ERR_VERIFY
  {
    var seg := job.segs[s.k];
    if s.task.Check? && Ans(before, CMD_ERASE, q, s.m.flash, s.m.box.result) {
      EraseInBlankZone(before, seg, q.length, q.checksum, q.window, s.m.flash, s.m.box.result);
    }
  }

  lemma {:induction false} MoreBusy(job: Job, k: nat, task: Task, busy: nat, more: nat, f: Flash)
    requires job.Ok() && k < |job.segs| && TaskOk(job.segs[k], task) && busy <= more && Facts(job, k, task, busy, f)
    ensures Facts(job, k, task, more, f)
  {
  }

  lemma {:induction false} RetryKeeps(job: Job, s: Scene, t: Scene)
    requires job.Ok() && SceneInv(job, s) && HostRetries(job.segs, job.chunk, s, t) && Sheltered(job, t)
    ensures SceneInv(job, t)
  {
    var q, before := s.m.host.request, s.m.host.before;
    if s.busy >= 1 && Crossed(s, q, before) {
      CrossedNeverRetried(job, s, q, before);
    }
    assert Serving(s.m, q, before, q.command);
    assert Ans(before, q.command, q, s.m.flash, ERR_VERIFY);
    VerifyFailed(job, s.k, s.task, s.busy, s.m.window, before, s.m.flash);
    WindowRetried(Was(job, s.k), Was(job, s.k + 1), job.segs[s.k], job.chunk, s.task, s.m.window);
    MoreBusy(job, s.k, t.task, s.busy, t.busy, s.m.flash);
  }

  lemma {:induction false} MoveKeeps(job: Job, s: Scene, t: Scene)
    requires job.Ok() && SceneInv(job, s) && Move(job.segs, job.chunk, s, t) && Sheltered(job, t)
    ensures SceneInv(job, t) && s.busy <= t.busy
  {
    if HostIssues(job.segs, job.chunk, s, t) {
      IssueKeeps(job, s, t);
    } else if StubRuns(s, t) {
      StubKeeps(job, s, t);
    } else if HostAccepts(job.segs, job.chunk, s, t) {
      AcceptKeeps(job, s, t);
    } else if HostRetries(job.segs, job.chunk, s, t) {
      RetryKeeps(job, s, t);
    }
  }

  // ---- whole flashings ----

  function JobOf(segs: seq<Segment>, chunk: nat, s: Scene): Job {
    Job(segs, chunk, s.m.window, s.m.flash)
  }

  lemma {:induction false} OpeningInv(job: Job, s: Scene)
    requires Setup(job.segs, job.chunk) && Opening(s) && job == JobOf(job.segs, job.chunk, s)
    ensures job.Ok() && SceneInv(job, s)
  {
  }

  lemma {:induction false} BusyGrows(segs: seq<Segment>, chunk: nat, s: Scene, t: Scene)
    requires Move(segs, chunk, s, t)
    ensures s.busy <= t.busy
  {
  }

  /** Every state of every flashing, up to the second retry of a busy stub if a segment is exposed. */
  lemma {:induction false} PlayKeeps(job: Job, play: seq<Scene>, j: nat)
    requires job.Ok() && Play(job.segs, job.chunk, play) && job == JobOf(job.segs, job.chunk, play[0]) && j < |play|
    requires Sheltered(job, play[j])
    ensures SceneInv(job, play[j])
    decreases j
  {
    if j == 0 {
      OpeningInv(job, play[0]);
    } else {
      assert MoveAt(job.segs, job.chunk, play, j - 1);
      BusyGrows(job.segs, job.chunk, play[j - 1], play[j]);
      PlayKeeps(job, play, j - 1);
      MoveKeeps(job, play[j - 1], play[j]);
    }
  }

  /**
   A flashing that completes leaves every segment in flash if a busy stub was retried at most once, or
   if no segment is exposed. Nothing else has changed if no busy stub was retried, or if no erase could
   pass for a write.
   */
  lemma {:induction false} FlashingWritesEverySegment(segs: seq<Segment>, chunk: nat, play: seq<Scene>)
    requires Setup(segs, chunk) && Play(segs, chunk, play) && play[|play| - 1].ending == Complete
    ensures var s, window := play[|play| - 1], play[0].m.window;
            && (s.busy <= 1 || !Exposed(segs, chunk, window) ==> AllInFlash(s.m.flash, segs))
            && (s.busy == 0 || !Crossable(segs, chunk, window) ==>
                  s.m.flash == FlashedAll(play[0].m.flash, segs, |segs|))
  {
    var s, job := play[|play| - 1], JobOf(segs, chunk, play[0]);
    if Sheltered(job, s) {
      PlayKeeps(job, play, |play| - 1);
    }
    ExposedIsCrossable(segs, chunk, job.window);
  }

  lemma {:induction false} ExposedIsCrossable(segs: seq<Segment>, chunk: nat, window: seq<Byte>)
    requires Setup(segs, chunk) && |window| == DATA_MAX
    ensures Exposed(segs, chunk, window) ==> Crossable(segs, chunk, window)
  {
  }

  ghost predicate AllInFlash(f: Flash, segs: seq<Segment>) {
    forall i :: 0 <= i < |segs| ==> InFlash(f, segs[i])
  }
}
