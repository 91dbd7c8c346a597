/**
 A whole flashing through the mailbox as a state machine: the stub one store at a time, and the host
 loops that erase, blank-check and write segment by segment. A command that fails, or whose deadline
 passes, is retried when the exception text quotes a verify error, even if the stub is still busy;
 then the stub may answer the retry without having executed it, or execute one command with the
 parameters of another. The core runs only while the host waits.
 */
module MailboxSession {
  import opened Nor
  import opened FlashOps
  import opened Checksums
  import opened Service
  import opened Segments
  import opened Layout
  import opened Mailbox

  // ---- what the host is doing ----

  datatype Task =
    | Erase(attempt: nat)
    | Check(attempt: nat, checked: nat)
    | Write(written: nat, attempt: nat)

  datatype Ending = Running | Complete | Raised

  /** Mailbox, stub and flash; the segment and task the host is at; how often it has retried a busy stub. */
  datatype Scene = Scene(m: State, k: nat, task: Task, ending: Ending, busy: nat)

  predicate IsLp(seg: Segment) {
    seg.address == LP_OFFSET
  }

  predicate TaskOk(seg: Segment, task: Task) {
    match task
    case Erase(a) => a >= 1
    case Check(a, c) => IsLp(seg) && a >= 1 && c < |seg.data|
    case Write(w, a) => a >= 1 && w < |seg.data|
  }

  /** Segments as the host lists and checks them. */
  ghost predicate Setup(segs: seq<Segment>, chunk: nat) {
    HostOrder(segs) && PairwiseDisjoint(segs) && segs != [] && 0 < chunk <= DATA_MAX
  }

  /** The length of the chunk that begins at `done`. */
  function Size(seg: Segment, chunk: nat, done: nat): (n: nat)
    requires done < |seg.data| && 0 < chunk
    ensures 0 < n <= chunk && done + n <= |seg.data|
  {
    if chunk < |seg.data| - done then chunk else |seg.data| - done
  }

  function Blanks(n: nat): (b: seq<Byte>)
    ensures |b| == n && AllBlank(b)
  {
    seq(n, (_: nat) => BLANK)
  }

  /** What a task writes; an erase writes nothing. */
  function Payload(seg: Segment, chunk: nat, task: Task): (p: seq<Byte>)
    requires TaskOk(seg, task) && 0 < chunk
    ensures |p| <= chunk && (!task.Erase? ==> |p| > 0)
  {
    match task
    case Erase(_) => []
    case Check(_, c) => Blanks(Size(seg, chunk, c))
    case Write(w, _) => seg.data[w..w + Size(seg, chunk, w)]
  }

  /** `load_image` into the data window. */
  function Load(window: seq<Byte>, p: seq<Byte>): (w: seq<Byte>)
    requires |p| <= |window|
    ensures |w| == |window| && w[..|p|] == p
  {
    p + window[|p|..]
  }

  /** The command of a task, with the window as it is when the command is written. */
  function Ask(seg: Segment, chunk: nat, task: Task, window: seq<Byte>): (q: Request)
    requires TaskOk(seg, task) && 0 < chunk <= DATA_MAX == |window|
  {
    var p := Payload(seg, chunk, task);
    match task
    case Erase(_) => Request(CMD_ERASE, EraseAddress(seg), EraseLength(seg), 0, window)
    case Check(_, c) => Request(CMD_WRITE_VERIFY, seg.address + c, |p|, Checksum(p), Load(window, p))
    case Write(w, _) => Request(CMD_WRITE_VERIFY, seg.address + w, |p|, Checksum(p), Load(window, p))
  }

  /** A failed task may be tried again; an erase never is. */
  predicate CanRetry(task: Task) {
    match task
    case Erase(_) => false
    case Check(a, _) => a < 3
    case Write(_, a) => a < 3
  }

  function Retry(task: Task): Task {
    match task
    case Erase(a) => Erase(a + 1)
    case Check(a, _) => Erase(a + 1)
    case Write(w, a) => Write(w, a + 1)
  }

  /** The task after one that was answered DONE; none after the last chunk of a segment. */
  function Following(seg: Segment, chunk: nat, task: Task): Task
    requires TaskOk(seg, task) && 0 < chunk && !LastChunk(seg, chunk, task)
  {
    match task
    case Erase(a) => if IsLp(seg) then Check(a, 0) else Write(0, 1)
    case Check(a, c) => if c + Size(seg, chunk, c) < |seg.data| then Check(a, c + Size(seg, chunk, c)) else Write(0, 1)
    case Write(w, _) => Write(w + Size(seg, chunk, w), 1)
  }

  predicate LastChunk(seg: Segment, chunk: nat, task: Task)
    requires TaskOk(seg, task) && 0 < chunk
  {
    task.Write? && task.written + Size(seg, chunk, task.written) == |seg.data|
  }

  // ---- steps ----

  ghost predicate Going(segs: seq<Segment>, chunk: nat, s: Scene) {
    Setup(segs, chunk) && s.ending == Running && s.k < |segs| && TaskOk(segs[s.k], s.task) && |s.m.window| == DATA_MAX
  }

  ghost predicate HostIssues(segs: seq<Segment>, chunk: nat, s: Scene, t: Scene) {
    && Going(segs, chunk, s) && s.m.host == Ready
    && t == s.(m := Mailbox.Issued(s.m, Ask(segs[s.k], chunk, s.task, s.m.window)))
  }

  ghost predicate StubRuns(s: Scene, t: Scene) {
    s.ending == Running && s.m.host.Waiting? && StubStep(s.m, t.m) && t == s.(m := t.m)
  }

  /** The host has found DONE. */
  function Accepted(segs: seq<Segment>, chunk: nat, s: Scene): Scene
    requires s.k < |segs| && TaskOk(segs[s.k], s.task) && 0 < chunk
  {
    var m := s.m.(host := Ready);
    if LastChunk(segs[s.k], chunk, s.task)
    then s.(m := m, k := s.k + 1, task := Erase(1), ending := if s.k + 1 == |segs| then Complete else Running)
    else s.(m := m, task := Following(segs[s.k], chunk, s.task))
  }

  ghost predicate HostAccepts(segs: seq<Segment>, chunk: nat, s: Scene, t: Scene) {
    Going(segs, chunk, s) && s.m.host.Waiting? && s.m.box.status == DONE && t == Accepted(segs, chunk, s)
  }

  /** The host has found ERROR, or its deadline has passed; it retries exactly on a quoted verify error. */
  ghost predicate HostRetries(segs: seq<Segment>, chunk: nat, s: Scene, t: Scene) {
    && Going(segs, chunk, s) && s.m.host.Waiting? && s.m.box.result == ERR_VERIFY && CanRetry(s.task)
    && t == s.(m := s.m.(host := Ready), task := Retry(s.task),
               busy := s.busy + if s.m.box.status == BUSY then 1 else 0)
  }

  ghost predicate HostRaises(s: Scene, t: Scene) {
    s.ending == Running && s.m.host.Waiting? && t == s.(ending := Raised)
  }

  ghost predicate Move(segs: seq<Segment>, chunk: nat, s: Scene, t: Scene) {
    || HostIssues(segs, chunk, s, t)
    || StubRuns(s, t)
    || HostAccepts(segs, chunk, s, t)
    || HostRetries(segs, chunk, s, t)
    || HostRaises(s, t)
  }

  /** The stub polls, nothing has been written yet; the command word does not matter. */
  ghost predicate Opening(s: Scene) {
    && s.m.host == Ready && s.m.pc == Poll && |s.m.window| == DATA_MAX
    && s.k == 0 && s.task == Erase(1) && s.ending == Running && s.busy == 0
  }

  ghost predicate MoveAt(segs: seq<Segment>, chunk: nat, play: seq<Scene>, i: nat)
    requires i < |play| - 1
  {
    Move(segs, chunk, play[i], play[i + 1])
  }

  ghost predicate Play(segs: seq<Segment>, chunk: nat, play: seq<Scene>) {
    play != [] && Opening(play[0]) && forall i :: 0 <= i < |play| - 1 ==> MoveAt(segs, chunk, play, i)
  }

  lemma {:induction false} PlayOn(segs: seq<Segment>, chunk: nat, play: seq<Scene>, t: Scene)
    requires Play(segs, chunk, play) && Move(segs, chunk, play[|play| - 1], t)
    ensures Play(segs, chunk, play + [t])
  {
    var longer := play + [t];
    forall i | 0 <= i < |longer| - 1 ensures MoveAt(segs, chunk, longer, i) {
      StillMoves(segs, chunk, play, longer, i);
    }
  }

  lemma {:induction false} StillMoves(segs: seq<Segment>, chunk: nat, play: seq<Scene>, longer: seq<Scene>, i: nat)
    requires Play(segs, chunk, play) && i < |longer| - 1 && |longer| == |play| + 1 && longer[..|play|] == play
    requires Move(segs, chunk, play[|play| - 1], longer[|play|])
    ensures MoveAt(segs, chunk, longer, i)
  {
    assert longer[i] == play[i];
    if i < |play| - 1 {
      assert MoveAt(segs, chunk, play, i);
      assert longer[i + 1] == play[i + 1];
    }
  }

  // ---- the data window ----

  /** The window after the chunks from w on have been loaded one after the other. */
  function Loaded(window: seq<Byte>, seg: Segment, chunk: nat, w: nat): (v: seq<Byte>)
    requires w < |seg.data| && 0 < chunk <= |window|
    ensures |v| == |window|
    decreases |seg.data| - w
  {
    var n := Size(seg, chunk, w);
    var v := Load(window, seg.data[w..w + n]);
    if w + n == |seg.data| then v else Loaded(v, seg, chunk, w + n)
  }

  /** The window when segment k is begun. */
  function WindowAt(segs: seq<Segment>, chunk: nat, window: seq<Byte>, k: nat): (w: seq<Byte>)
    requires 0 < chunk <= |window| && k <= |segs| && forall i :: 0 <= i < |segs| ==> Fits(segs[i])
    ensures |w| == |window|
  {
    if k == 0 then window else Loaded(WindowAt(segs, chunk, window, k - 1), segs[k - 1], chunk, 0)
  }

  predicate SameFrom(v: seq<Byte>, w: seq<Byte>, n: nat) {
    |v| == |w| && forall i :: n <= i < |v| ==> v[i] == w[i]
  }

  lemma {:induction false} LoadTwice(window: seq<Byte>, p: seq<Byte>)
    requires |p| <= |window|
    ensures Load(Load(window, p), p) == Load(window, p)
  {
  }

  /** Loading depends on the old window only where nothing is loaded. */
  lemma {:induction false} LoadedSame(v: seq<Byte>, w: seq<Byte>, seg: Segment, chunk: nat)
    requires 0 < |seg.data| && 0 < chunk <= |v| && SameFrom(v, w, Size(seg, chunk, 0))
    ensures Loaded(v, seg, chunk, 0) == Loaded(w, seg, chunk, 0)
  {
    var p := seg.data[0..0 + Size(seg, chunk, 0)];
    assert Load(v, p) == Load(w, p);
  }

  // ---- where an erase can be answered by something else ----

  /** What the data window holds where the erase of segment k has its length. */
  function Remnant(segs: seq<Segment>, chunk: nat, window: seq<Byte>, k: nat): (z: seq<Byte>)
    requires 0 < chunk <= |window| && k < |segs| && forall i :: 0 <= i < |segs| ==> Fits(segs[i])
    requires |segs[k].data| <= |window|
    ensures |z| == |segs[k].data|
  {
    WindowAt(segs, chunk, window, k)[..|segs[k].data|]
  }

  /**
   The erase of segment k, written while the stub is about to start a write, passes for a write of the
   window: its length fits, and its checksum word, 0, is that of the window.
   */
  ghost predicate CrossableAt(segs: seq<Segment>, chunk: nat, window: seq<Byte>, k: nat)
    requires Setup(segs, chunk) && |window| == DATA_MAX && k < |segs|
  {
    k > 0 && !IsLp(segs[k]) && |segs[k].data| <= DATA_MAX && Checksum(Remnant(segs, chunk, window, k)) == 0
  }

  /** And afterwards the data does not fit any more. */
  ghost predicate ExposedAt(segs: seq<Segment>, chunk: nat, window: seq<Byte>, k: nat)
    requires Setup(segs, chunk) && |window| == DATA_MAX && k < |segs|
  {
    CrossableAt(segs, chunk, window, k) && !Covered(segs[k].data, Remnant(segs, chunk, window, k))
  }

  /** Every bit of `data` is a bit of z. */
  ghost predicate Covered(data: seq<Byte>, z: seq<Byte>)
    requires |data| == |z|
  {
    forall i :: 0 <= i < |data| ==> z[i] & data[i] == data[i]
  }

  ghost predicate Crossable(segs: seq<Segment>, chunk: nat, window: seq<Byte>)
    requires Setup(segs, chunk) && |window| == DATA_MAX
  {
    exists k: nat :: k < |segs| && CrossableAt(segs, chunk, window, k)
  }

  ghost predicate Exposed(segs: seq<Segment>, chunk: nat, window: seq<Byte>)
    requires Setup(segs, chunk) && |window| == DATA_MAX
  {
    exists k: nat :: k < |segs| && ExposedAt(segs, chunk, window, k)
  }

  // ---- what commands do to the flash ----

  /** The segment's zone erased. */
  function Cleared(f: Flash, seg: Segment): Flash
    requires Fits(seg)
  {
    ZoneOnChip(seg);
    Erased(f, ZoneBase(seg), ZoneEnd(seg) - ZoneBase(seg))
  }

  ghost predicate ZoneBlank(f: Flash, seg: Segment) {
    forall c: nat :: ZoneBase(seg) <= c < ZoneEnd(seg) && c < CAPACITY ==> f[c] == BLANK
  }

  /** The first n bytes of the segment are in flash. */
  ghost predicate PrefixIn(f: Flash, seg: Segment, n: nat)
    requires n <= |seg.data|
  {
    HasChunk(f, seg, 0, n)
  }

  ghost predicate HasChunk(f: Flash, seg: Segment, w: nat, n: nat)
    requires w + n <= |seg.data|
  {
    forall i :: w <= i < w + n ==> CellAt(f, seg.address, i) == seg.data[i]
  }

  /** The segment can be written without erasing. */
  ghost predicate Takes(f: Flash, seg: Segment) {
    Programmable(f, seg.address, seg.data)
  }

  ghost predicate SameOutsideZone(f: Flash, g: Flash, seg: Segment) {
    SameOutside(f, g, ZoneBase(seg), ZoneEnd(seg))
  }

  lemma {:induction false} ClearedZone(f: Flash, seg: Segment)
    requires Fits(seg)
    ensures ZoneBlank(Cleared(f, seg), seg) && SameOutsideZone(f, Cleared(f, seg), seg)
    ensures Cleared(Cleared(f, seg), seg) == Cleared(f, seg)
    ensures ZoneBlank(f, seg) ==> Cleared(f, seg) == f
  {
    ZoneOnChip(seg);
    var n := ZoneEnd(seg) - ZoneBase(seg);
    forall c: nat | c < CAPACITY ensures Nor.Within(c, ZoneBase(seg), n) <==> ZoneBase(seg) <= c < ZoneEnd(seg) {
      WithinIsInterval(c, ZoneBase(seg), n);
    }
  }

  lemma {:induction false} BlankZoneTakes(f: Flash, seg: Segment)
    requires Fits(seg) && ZoneBlank(f, seg)
    ensures Takes(f, seg)
  {
    ZoneOnChip(seg);
    forall k | 0 <= k < |seg.data| ensures CellAt(f, seg.address, k) & seg.data[k] == seg.data[k] {
      assert f[seg.address + k] == BLANK;
      BlankAnd(seg.data[k]);
    }
  }

  /** The stub has carried out the erase of a segment. */
  lemma {:induction false} EraseEffect(f: Flash, seg: Segment, sum: bv32, window: seq<Byte>, g: Flash, result: nat)
    requires Fits(seg) && Outcome(f, CMD_ERASE, EraseAddress(seg), EraseLength(seg), sum, window, g, result)
    ensures result != ERR_VERIFY
    ensures result == ERR_OK ==> g == Cleared(f, seg)
  {
    ZoneOnChip(seg);
  }

  /** The stub has carried out a write of `p`, as far as the verify. */
  lemma {:induction false} WriteEffect(f: Flash, address: nat, p: seq<Byte>, window: seq<Byte>, g: Flash, result: nat)
    requires 0 < |p| <= DATA_MAX == |window| && window[..|p|] == p
    requires Outcome(f, CMD_WRITE_VERIFY, address, |p|, Checksum(p), window, g, result)
    requires result == ERR_OK || result == ERR_VERIFY
    ensures g == Programmed(f, address, p)
    ensures result == ERR_OK ==> ReadBack(g, address, |p|) == p
  {
    var done: nat :| Writes(f, address, p, g, result, done);
    assert p[..done] == p;
  }

  /** An erase inside a zone that is blank already, as one that takes the parameters of a blank check. */
  lemma {:induction false} EraseInBlankZone(f: Flash, seg: Segment, n: nat, sum: bv32, window: seq<Byte>, g: Flash,
                                            result: nat)
    requires Fits(seg) && 0 < n <= |seg.data| && ZoneBlank(f, seg)
    requires Outcome(f, CMD_ERASE, seg.address, n, sum, window, g, result)
    ensures result != ERR_VERIFY
    ensures result == ERR_OK ==> g == f
  {
    if result == ERR_OK {
      var base, span := SectorFloor(seg.address), EraseSpan(seg.address, n);
      ZoneOnChip(seg);
      EraseSpanOnChip(seg.address, n);
      SectorsInZone(seg, n);
      forall c: nat | c < CAPACITY ensures g[c] == f[c] {
        WithinIsInterval(c, base, span);
      }
    }
  }

  lemma {:induction false} SectorsInZone(seg: Segment, n: nat)
    requires Fits(seg) && 0 < n <= |seg.data|
    ensures ZoneBase(seg) <= SectorFloor(seg.address) && SectorCeil(seg.address + n) <= ZoneEnd(seg)
  {
    ZoneOnChip(seg);
    if IsLp(seg) {
      BlocksAreSectors(BlockCeil(seg.End()));
    }
  }

  /** A write that takes the parameters of an erase. */
  lemma {:induction false} WriteForErase(f: Flash, seg: Segment, window: seq<Byte>, g: Flash, result: nat)
    requires Fits(seg) && |window| == DATA_MAX
    requires Outcome(f, CMD_WRITE_VERIFY, EraseAddress(seg), EraseLength(seg), 0, window, g, result)
    requires result == ERR_OK
    ensures !IsLp(seg) && |seg.data| <= DATA_MAX && Checksum(window[..|seg.data|]) == 0
    ensures g == Programmed(f, seg.address, window[..|seg.data|])
    ensures ReadBack(g, seg.address, |seg.data|) == window[..|seg.data|]
  {
    ZoneOnChip(seg);
    var p := window[..EraseLength(seg)];
    var done: nat :| Writes(f, EraseAddress(seg), p, g, result, done);
    assert p[..done] == p;
  }

  lemma {:induction false} ProgramOnlyInside(f: Flash, address: nat, p: seq<Byte>, g: Flash, lo: nat, hi: nat)
    requires address + |p| <= CAPACITY && lo <= address && address + |p| <= hi && g == Programmed(f, address, p)
    ensures SameOutside(f, g, lo, hi)
  {
    forall c: nat | c < CAPACITY && !(lo <= c < hi) ensures g[c] == f[c] {
      WithinIsInterval(c, address, |p|);
    }
  }

  lemma {:induction false} ProgramBlanks(f: Flash, address: nat, n: nat)
    ensures Programmed(f, address, Blanks(n)) == f
  {
    var g := Programmed(f, address, Blanks(n));
    forall c | 0 <= c < CAPACITY ensures g[c] == f[c] {
    }
  }

  /** One chunk of the segment programmed: cell by cell. */
  lemma {:induction false} ChunkCells(f: Flash, seg: Segment, w: nat, n: nat, i: nat)
    requires Fits(seg) && w + n <= |seg.data| && i < |seg.data|
    ensures CellAt(Programmed(f, seg.address + w, seg.data[w..w + n]), seg.address, i)
         == if w <= i < w + n then CellAt(f, seg.address, i) & seg.data[i] else CellAt(f, seg.address, i)
  {
    WithinIsInterval(seg.address + i, seg.address + w, n);
    if w <= i < w + n {
      assert Offset(seg.address + i, seg.address + w) == i - w;
    }
  }

  /** g is f with one chunk of the segment programmed. */
  ghost predicate Chunked(f: Flash, g: Flash, seg: Segment, w: nat, n: nat)
    requires w + n <= |seg.data|
  {
    forall i :: 0 <= i < |seg.data| ==>
      CellAt(g, seg.address, i) ==
      if w <= i < w + n then CellAt(f, seg.address, i) & seg.data[i] else CellAt(f, seg.address, i)
  }

  lemma {:induction false} ProgrammedIsChunked(f: Flash, seg: Segment, w: nat, n: nat, g: Flash)
    requires Fits(seg) && w + n <= |seg.data| && g == Programmed(f, seg.address + w, seg.data[w..w + n])
    ensures Chunked(f, g, seg, w, n)
  {
    forall i | 0 <= i < |seg.data|
      ensures CellAt(g, seg.address, i)
           == if w <= i < w + n then CellAt(f, seg.address, i) & seg.data[i] else CellAt(f, seg.address, i)
    {
      ChunkCells(f, seg, w, n, i);
    }
  }

  /** g is f with one chunk programmed, and nothing else touched. */
  ghost predicate Applied(f: Flash, g: Flash, seg: Segment, w: nat, n: nat) {
    w + n <= |seg.data| && Chunked(f, g, seg, w, n) && SameOutsideZone(f, g, seg)
  }

  lemma {:induction false} ProgrammedIsApplied(f: Flash, seg: Segment, w: nat, n: nat, g: Flash)
    requires Fits(seg) && w + n <= |seg.data| && g == Programmed(f, seg.address + w, seg.data[w..w + n])
    ensures Applied(f, g, seg, w, n)
  {
    ProgrammedIsChunked(f, seg, w, n, g);
    ZoneOnChip(seg);
    ProgramOnlyInside(f, seg.address + w, seg.data[w..w + n], g, ZoneBase(seg), ZoneEnd(seg));
  }

  /** Programming a chunk keeps what is written, keeps what can be written, and writes the chunk if it could be. */
  lemma {:induction false} ChunkWritten(f: Flash, seg: Segment, w: nat, n: nat, g: Flash)
    requires w + n <= |seg.data| && PrefixIn(f, seg, w) && Chunked(f, g, seg, w, n)
    ensures PrefixIn(g, seg, w)
    ensures Takes(f, seg) ==> Takes(g, seg) && PrefixIn(g, seg, w + n)
    ensures HasChunk(g, seg, w, n) ==> PrefixIn(g, seg, w + n)
  {
    if Takes(f, seg) {
      forall i | 0 <= i < |seg.data| ensures CellAt(g, seg.address, i) & seg.data[i] == seg.data[i] {
        AndTwice(CellAt(f, seg.address, i), seg.data[i]);
      }
    }
  }

  lemma {:induction false} ReadBackHasChunk(g: Flash, seg: Segment, w: nat, n: nat)
    requires w + n <= |seg.data| && ReadBack(g, seg.address + w, n) == seg.data[w..w + n]
    ensures HasChunk(g, seg, w, n)
  {
    forall i | w <= i < w + n ensures CellAt(g, seg.address, i) == seg.data[i] {
      assert ReadBack(g, seg.address + w, n)[i - w] == seg.data[w..w + n][i - w];
      assert seg.address + w + (i - w) == seg.address + i;
    }
  }

  lemma {:induction false} ChunkReads(g: Flash, seg: Segment, w: nat, n: nat)
    requires w + n <= |seg.data| && PrefixIn(g, seg, w + n)
    ensures ReadBack(g, seg.address + w, n) == seg.data[w..w + n]
  {
    var r := ReadBack(g, seg.address + w, n);
    forall i | 0 <= i < n ensures r[i] == seg.data[w..w + n][i] {
      assert seg.address + w + i == seg.address + (w + i);
      assert CellAt(g, seg.address, w + i) == seg.data[w + i];
    }
  }

  lemma {:induction false} BlankReads(seg: Segment, f: Flash, c: nat, p: seq<Byte>)
    requires Fits(seg) && c + |p| <= |seg.data| && ZoneBlank(f, seg) && AllBlank(p)
    ensures ReadBack(f, seg.address + c, |p|) == p
  {
    ZoneOnChip(seg);
    var r := ReadBack(f, seg.address + c, |p|);
    forall i | 0 <= i < |p| ensures r[i] == p[i] {
      assert Cell(seg.address + c + i) == seg.address + c + i;
      assert f[seg.address + c + i] == BLANK;
    }
  }

  lemma {:induction false} AllIn(f: Flash, seg: Segment)
    requires PrefixIn(f, seg, |seg.data|)
    ensures InFlash(f, seg)
  {
    var r := ReadBack(f, seg.address, |seg.data|);
    forall i | 0 <= i < |seg.data| ensures r[i] == seg.data[i] {
    }
  }

  /** What happens inside a segment's zone leaves the segments before it alone. */
  lemma {:induction false} EarlierKept(segs: seq<Segment>, chunk: nat, k: nat, f: Flash, g: Flash)
    requires Setup(segs, chunk) && k < |segs| && SameOutsideZone(f, g, segs[k])
    requires forall j :: 0 <= j < k ==> InFlash(f, segs[j])
    ensures forall j :: 0 <= j < k ==> InFlash(g, segs[j])
  {
    forall j | 0 <= j < k ensures InFlash(g, segs[j]) {
      ZoneIsClear(segs, j, k);
      var seg := segs[j];
      var r, s := ReadBack(g, seg.address, |seg.data|), ReadBack(f, seg.address, |seg.data|);
      forall i | 0 <= i < |seg.data| ensures r[i] == s[i] {
        assert g[seg.address + i] == f[seg.address + i];
      }
      assert InFlash(f, seg);
    }
  }
}
