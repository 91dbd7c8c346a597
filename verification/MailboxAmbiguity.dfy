/**
 The flashings through the mailbox that lose a segment. A chunk that was programmed but failed its
 verify is timed out while the stub is still busy; the stub reports DONE for the retry and starts it.
 The erase that follows is then executed as a write of whatever the data window holds, and when every
 chunk after it is timed out the same way, the host never hears of the bytes it could not program.
 */
module MailboxAmbiguity {
  import opened Nor
  import opened FlashOps
  import opened Checksums
  import opened Service
  import opened Segments
  import opened Layout
  import opened Mailbox
  import opened MailboxSession
  import opened MailboxSafety

  // ---- getting from one scene to another ----

  ghost predicate Reach(segs: seq<Segment>, chunk: nat, start: Scene, s: Scene) {
    exists play: seq<Scene> :: Play(segs, chunk, play) && play[0] == start && play[|play| - 1] == s
  }

  lemma {:induction false} Onward(segs: seq<Segment>, chunk: nat, start: Scene, s: Scene, t: Scene)
    requires Reach(segs, chunk, start, s) && Move(segs, chunk, s, t)
    ensures Reach(segs, chunk, start, t)
  {
    var play: seq<Scene> :| Play(segs, chunk, play) && play[0] == start && play[|play| - 1] == s;
    var longer := play + [t];
    PlayOn(segs, chunk, play, t);
    assert longer[0] == start && longer[|longer| - 1] == t;
  }

  lemma {:induction false} Runs(segs: seq<Segment>, chunk: nat, start: Scene, s: Scene, m: State)
    requires Reach(segs, chunk, start, s) && s.ending == Running && s.m.host.Waiting? && StubStep(s.m, m)
    ensures Reach(segs, chunk, start, s.(m := m))
  {
    assert StubRuns(s, s.(m := m));
    Onward(segs, chunk, start, s, s.(m := m));
  }

  /** A running flashing with the host at its next command. */
  ghost predicate Stands(segs: seq<Segment>, chunk: nat, start: Scene, s: Scene) {
    Reach(segs, chunk, start, s) && Going(segs, chunk, s) && s.m.host == Ready
  }

  function Working(m: State, q: Request, actual: nat, pc: Pc): State {
    State(Box(m.box.magic, q.command, BUSY, q.address, q.length, q.checksum, 0, 0), q.window, pc, m.flash,
          Waiting(q, m.flash))
  }

  /** The host writes q; the stub starts `actual`, q itself or a command read before, and is about to work on it. */
  lemma {:induction false} Starts(segs: seq<Segment>, chunk: nat, start: Scene, s: Scene, q: Request, actual: nat)
    requires Stands(segs, chunk, start, s) && q == Ask(segs[s.k], chunk, s.task, s.m.window)
    requires s.m.pc == Start(0, actual) || (s.m.pc == Poll && actual == q.command)
    ensures Reach(segs, chunk, start, s.(m := Working(s.m, q, actual, Execute(actual))))
  {
    var m := Mailbox.Issued(s.m, q);
    Onward(segs, chunk, start, s, s.(m := m));
    if m.pc == Poll {
      Runs(segs, chunk, start, s.(m := m), m.(pc := Start(0, actual)));
      m := m.(pc := Start(0, actual));
    }
    var w := Working(s.m, q, actual, Start(1, actual));
    assert StubStep(m, w);
    Runs(segs, chunk, start, s.(m := m), w);
    Runs(segs, chunk, start, s.(m := w), w.(pc := Start(2, actual)));
    Runs(segs, chunk, start, s.(m := w.(pc := Start(2, actual))), w.(pc := Execute(actual)));
    assert w.(pc := Execute(actual)) == Working(s.m, q, actual, Execute(actual));
  }

  /** The work is done and its result stored. */
  function Stored(m: State, q: Request, actual: nat, g: Flash, result: nat): State {
    var w := Working(m, q, actual, Clear(actual));
    w.(box := w.box.(result := result), flash := g)
  }

  lemma {:induction false} Works(segs: seq<Segment>, chunk: nat, start: Scene, s: Scene, q: Request, actual: nat,
                                 g: Flash, result: nat)
    requires Stands(segs, chunk, start, s) && q == Ask(segs[s.k], chunk, s.task, s.m.window)
    requires s.m.pc == Start(0, actual) || (s.m.pc == Poll && actual == q.command)
    requires Ans(s.m.flash, actual, q, g, result)
    ensures Reach(segs, chunk, start, s.(m := Stored(s.m, q, actual, g, result)))
  {
    Starts(segs, chunk, start, s, q, actual);
    var w := Working(s.m, q, actual, Execute(actual));
    var r := w.(flash := g, pc := Report(actual, result));
    assert StubStep(w, r);
    Runs(segs, chunk, start, s.(m := w), r);
    assert StubStep(r, Stored(s.m, q, actual, g, result));
    Runs(segs, chunk, start, s.(m := r), Stored(s.m, q, actual, g, result));
  }

  /** t is where the host goes from s when it finds DONE, the flash then being g. */
  ghost predicate Passed(segs: seq<Segment>, chunk: nat, s: Scene, t: Scene, g: Flash, pc: Pc)
    requires s.k < |segs| && TaskOk(segs[s.k], s.task) && 0 < chunk
  {
    var a := Accepted(segs, chunk, s);
    && t.k == a.k && t.task == a.task && t.ending == a.ending
    && t.m.host == Ready && |t.m.window| == DATA_MAX && t.m.flash == g && t.m.pc == pc
  }

  lemma {:induction false} Accepts(segs: seq<Segment>, chunk: nat, start: Scene, s: Scene) returns (t: Scene)
    requires Reach(segs, chunk, start, s) && Going(segs, chunk, s) && s.m.host.Waiting? && s.m.box.status == DONE
    ensures Reach(segs, chunk, start, t) && Passed(segs, chunk, s, t, s.m.flash, s.m.pc) && t.busy == s.busy
  {
    t := Accepted(segs, chunk, s);
    assert HostAccepts(segs, chunk, s, t);
    Onward(segs, chunk, start, s, t);
  }

  /** A command, or another in its place, executed and answered OK. */
  lemma {:induction false} Served(segs: seq<Segment>, chunk: nat, start: Scene, s: Scene, q: Request, actual: nat,
                                  g: Flash)
    returns (t: Scene)
    requires Stands(segs, chunk, start, s) && q == Ask(segs[s.k], chunk, s.task, s.m.window)
    requires s.m.pc == Start(0, actual) || (s.m.pc == Poll && actual == q.command)
    requires Ans(s.m.flash, actual, q, g, ERR_OK) && |q.window| == DATA_MAX
    ensures Reach(segs, chunk, start, t) && Passed(segs, chunk, s, t, g, Poll) && t.busy == s.busy
  {
    Works(segs, chunk, start, s, q, actual, g, ERR_OK);
    var m := Stored(s.m, q, actual, g, ERR_OK);
    var c := m.(box := m.box.(command := CMD_NONE), pc := Finish(actual));
    Runs(segs, chunk, start, s.(m := m), c);
    var d := c.(box := c.box.(status := DONE), pc := Poll);
    Runs(segs, chunk, start, s.(m := c), d);
    t := Accepts(segs, chunk, start, s.(m := d));
  }

  /** The deadline passes between the result store and the status store, after or before the command is cleared. */
  lemma {:induction false} GivesUp(segs: seq<Segment>, chunk: nat, start: Scene, s: Scene, q: Request, g: Flash,
                                   cleared: bool)
    returns (t: Scene)
    requires Stands(segs, chunk, start, s) && q == Ask(segs[s.k], chunk, s.task, s.m.window) && |q.window| == DATA_MAX
    requires s.m.pc == Poll && s.task.Write? && s.task.attempt == 1 && Ans(s.m.flash, q.command, q, g, ERR_VERIFY)
    ensures Stands(segs, chunk, start, t) && t.k == s.k && t.task == Write(s.task.written, 2) && t.busy == s.busy + 1
    ensures t.m.flash == g && t.m.pc == (if cleared then Finish(CMD_WRITE_VERIFY) else Clear(CMD_WRITE_VERIFY))
  {
    Works(segs, chunk, start, s, q, q.command, g, ERR_VERIFY);
    var m := Stored(s.m, q, q.command, g, ERR_VERIFY);
    if cleared {
      var c := m.(box := m.box.(command := CMD_NONE), pc := Finish(q.command));
      Runs(segs, chunk, start, s.(m := m), c);
      m := c;
    }
    var u := s.(m := m);
    t := u.(m := m.(host := Ready), task := Retry(s.task), busy := s.busy + 1);
    assert HostRetries(segs, chunk, u, t);
    Onward(segs, chunk, start, u, t);
  }

  /** The retry is answered DONE unread: removed with the stub then polling, or read and about to be started. */
  lemma {:induction false} Misread(segs: seq<Segment>, chunk: nat, start: Scene, s: Scene) returns (t: Scene)
    requires Stands(segs, chunk, start, s) && s.task.Write?
    requires s.m.pc == Clear(CMD_WRITE_VERIFY) || s.m.pc == Finish(CMD_WRITE_VERIFY)
    ensures Reach(segs, chunk, start, t) && t.busy == s.busy
    ensures Passed(segs, chunk, s, t, s.m.flash, if s.m.pc.Clear? then Poll else Start(0, CMD_WRITE_VERIFY))
  {
    var q := Ask(segs[s.k], chunk, s.task, s.m.window);
    var m := Mailbox.Issued(s.m, q);
    Onward(segs, chunk, start, s, s.(m := m));
    if m.pc.Clear? {
      var c := m.(box := m.box.(command := CMD_NONE), pc := Finish(CMD_WRITE_VERIFY));
      Runs(segs, chunk, start, s.(m := m), c);
      m := c;
    }
    var d := m.(box := m.box.(status := DONE), pc := Poll);
    Runs(segs, chunk, start, s.(m := m), d);
    if s.m.pc.Finish? {
      Runs(segs, chunk, start, s.(m := d), d.(pc := Start(0, CMD_WRITE_VERIFY)));
      d := d.(pc := Start(0, CMD_WRITE_VERIFY));
    }
    t := Accepts(segs, chunk, start, s.(m := d));
  }

  /** A chunk programmed, its verify error lost in a retry of the busy stub. */
  lemma {:induction false} Misled(segs: seq<Segment>, chunk: nat, start: Scene, s: Scene, q: Request, g: Flash,
                                  pending: bool)
    returns (t: Scene)
    requires Stands(segs, chunk, start, s) && q == Ask(segs[s.k], chunk, s.task, s.m.window) && |q.window| == DATA_MAX
    requires s.m.pc == Poll && s.task.Write? && s.task.attempt == 1 && Ans(s.m.flash, q.command, q, g, ERR_VERIFY)
    ensures Reach(segs, chunk, start, t) && t.busy == s.busy + 1
    ensures Passed(segs, chunk, s, t, g, if pending then Start(0, CMD_WRITE_VERIFY) else Poll)
  {
    var u := GivesUp(segs, chunk, start, s, q, g, pending);
    t := Misread(segs, chunk, start, u);
  }

  // ---- segments flashed as intended ----

  /** Outside the segment nothing has changed, except to 0xFF. */
  ghost predicate Tidy(f: Flash, g: Flash, seg: Segment) {
    forall c: nat :: c < CAPACITY && !(seg.address <= c < seg.End()) ==> g[c] == f[c] || g[c] == BLANK
  }

  /** g is what working on the segment may make of f. */
  ghost predicate Kept(f: Flash, g: Flash, seg: Segment) {
    SameOutsideZone(f, g, seg) && Tidy(f, g, seg)
  }

  lemma {:induction false} KeptOn(f: Flash, g: Flash, h: Flash, seg: Segment)
    requires Kept(f, g, seg) && Kept(g, h, seg)
    ensures Kept(f, h, seg)
  {
  }

  lemma {:induction false} ClearedKept(f: Flash, seg: Segment)
    requires Fits(seg)
    ensures Kept(f, Cleared(f, seg), seg)
  {
    ClearedZone(f, seg);
  }

  lemma {:induction false} ChunkKept(f: Flash, seg: Segment, w: nat, n: nat, g: Flash)
    requires Fits(seg) && w + n <= |seg.data| && g == Programmed(f, seg.address + w, seg.data[w..w + n])
    ensures Kept(f, g, seg)
  {
    ProgrammedIsApplied(f, seg, w, n, g);
    ProgramOnlyInside(f, seg.address + w, seg.data[w..w + n], g, seg.address, seg.End());
  }

  /** A chunk that fits is programmed, and its verify can succeed or fail. */
  lemma {:induction false} ChunkCan(seg: Segment, chunk: nat, task: Task, window: seq<Byte>, q: Request, f: Flash,
                                    result: nat)
    returns (g: Flash)
    requires Fits(seg) && TaskOk(seg, task) && task.Write? && 0 < chunk <= DATA_MAX == |window|
    requires q == Ask(seg, chunk, task, window) && PrefixIn(f, seg, task.written) && Takes(f, seg)
    requires result == ERR_OK || result == ERR_VERIFY
    ensures Ans(f, CMD_WRITE_VERIFY, q, g, result) && Kept(f, g, seg)
    ensures Takes(g, seg) && PrefixIn(g, seg, task.written + Size(seg, chunk, task.written))
    ensures q.command == CMD_WRITE_VERIFY && |q.window| == DATA_MAX
  {
    var w, n := task.written, Size(seg, chunk, task.written);
    ChunkAsked(seg, chunk, task, window, q, w, n);
    g := ChunkLands(seg, w, n, seg.data[w..w + n], q, f, result);
  }

  lemma {:induction false} ChunkLands(seg: Segment, w: nat, n: nat, p: seq<Byte>, q: Request, f: Flash, result: nat)
    returns (g: Flash)
    requires Fits(seg) && 0 < n <= DATA_MAX && w + n <= |seg.data| && PrefixIn(f, seg, w) && Takes(f, seg)
    requires p == seg.data[w..w + n] && |q.window| == DATA_MAX && q.window[..n] == p
    requires q.address == seg.address + w && q.length == n && q.checksum == Checksum(p)
    requires result == ERR_OK || result == ERR_VERIFY
    ensures Ans(f, CMD_WRITE_VERIFY, q, g, result) && Kept(f, g, seg) && Takes(g, seg) && PrefixIn(g, seg, w + n)
  {
    g := Programmed(f, seg.address + w, p);
    ChunkAns(seg, w, n, p, q, f, g, result);
    ChunkGoes(seg, w, n, p, f, g);
  }

  lemma {:induction false} ChunkAns(seg: Segment, w: nat, n: nat, p: seq<Byte>, q: Request, f: Flash, g: Flash,
                                    result: nat)
    requires Fits(seg) && 0 < n <= DATA_MAX && w + n <= |seg.data| && PrefixIn(f, seg, w) && Takes(f, seg)
    requires p == seg.data[w..w + n] && |q.window| == DATA_MAX && q.window[..n] == p
    requires q.address == seg.address + w && q.length == n && q.checksum == Checksum(p)
    requires g == Programmed(f, seg.address + w, p) && (result == ERR_OK || result == ERR_VERIFY)
    ensures Ans(f, CMD_WRITE_VERIFY, q, g, result)
  {
    AskedCan(f, q, seg.address + w, p, n, g, result);
    assert ReadBack(g, seg.address + w, n) == p by {
      ChunkGoes(seg, w, n, p, f, g);
    }
  }

  lemma {:induction false} ChunkGoes(seg: Segment, w: nat, n: nat, p: seq<Byte>, f: Flash, g: Flash)
    requires Fits(seg) && w + n <= |seg.data| && PrefixIn(f, seg, w) && Takes(f, seg)
    requires p == seg.data[w..w + n] && g == Programmed(f, seg.address + w, p)
    ensures Takes(g, seg) && PrefixIn(g, seg, w + n) && Kept(f, g, seg) && ReadBack(g, seg.address + w, n) == p
  {
    ProgrammedIsChunked(f, seg, w, n, g);
    ChunkWritten(f, seg, w, n, g);
    ChunkKept(f, seg, w, n, g);
    ChunkReads(g, seg, w, n);
  }

  /** A write of p can end in a verify error, and in success if p reads back. */
  lemma {:induction false} AskedCan(f: Flash, q: Request, address: nat, p: seq<Byte>, n: nat, g: Flash, result: nat)
    requires 0 < n == |p| <= DATA_MAX == |q.window| && q.window[..n] == p && g == Programmed(f, address, p)
    requires q.address == address && q.length == n && q.checksum == Checksum(p)
    ensures result == ERR_VERIFY || (result == ERR_OK && ReadBack(g, address, n) == p) ==>
              Ans(f, CMD_WRITE_VERIFY, q, g, result)
  {
    if result == ERR_VERIFY || (result == ERR_OK && ReadBack(g, address, n) == p) {
      assert p[..n] == p;
      assert Writes(f, address, p, g, result, n);
    }
  }

  /** The chunks of a segment up to the last one. */
  lemma {:induction false} WritesOn(segs: seq<Segment>, chunk: nat, start: Scene, s: Scene, seg: Segment)
    returns (t: Scene)
    requires Stands(segs, chunk, start, s) && s.m.pc == Poll && s.task.Write? && s.task.attempt == 1 && seg == segs[s.k]
    requires PrefixIn(s.m.flash, seg, s.task.written) && Takes(s.m.flash, seg)
    ensures Stands(segs, chunk, start, t) && t.m.pc == Poll && t.task.Write? && t.task.attempt == 1
    ensures t.k == s.k && t.busy == s.busy && LastChunk(seg, chunk, t.task)
    ensures PrefixIn(t.m.flash, seg, t.task.written) && Takes(t.m.flash, seg) && Kept(s.m.flash, t.m.flash, seg)
    decreases |seg.data| - s.task.written
  {
    if LastChunk(seg, chunk, s.task) {
      t := s;
    } else {
      var q := Ask(seg, chunk, s.task, s.m.window);
      var g := ChunkCan(seg, chunk, s.task, s.m.window, q, s.m.flash, ERR_OK);
      var u := Served(segs, chunk, start, s, q, q.command, g);
      t := WritesOn(segs, chunk, start, u, seg);
      KeptOn(s.m.flash, g, t.m.flash, seg);
    }
  }

  lemma {:induction false} CheckCan(seg: Segment, chunk: nat, task: Task, window: seq<Byte>, q: Request, f: Flash)
    requires Fits(seg) && TaskOk(seg, task) && task.Check? && 0 < chunk <= DATA_MAX == |window|
    requires q == Ask(seg, chunk, task, window) && ZoneBlank(f, seg)
    ensures Ans(f, CMD_WRITE_VERIFY, q, f, ERR_OK) && q.command == CMD_WRITE_VERIFY && |q.window| == DATA_MAX
  {
    var address, p := seg.address + task.checked, Blanks(Size(seg, chunk, task.checked));
    CheckAsked(seg, chunk, task, window, q, p);
    ProgramBlanks(f, address, |p|);
    assert p == Blanks(|p|);
    BlankReads(seg, f, task.checked, p);
    AskedCan(f, q, address, p, |p|, f, ERR_OK);
  }

  lemma {:induction false} CheckAsked(seg: Segment, chunk: nat, task: Task, window: seq<Byte>, q: Request, p: seq<Byte>)
    requires TaskOk(seg, task) && task.Check? && 0 < chunk <= DATA_MAX == |window|
    requires q == Ask(seg, chunk, task, window) && p == Blanks(Size(seg, chunk, task.checked))
    ensures q.command == CMD_WRITE_VERIFY && q.address == seg.address + task.checked && q.length == |p|
    ensures q.checksum == Checksum(p) && |q.window| == DATA_MAX && q.window[..|p|] == p
  {
  }

  /** The blank check of an erased segment. */
  lemma {:induction false} ChecksOn(segs: seq<Segment>, chunk: nat, start: Scene, s: Scene, seg: Segment)
    returns (t: Scene)
    requires Stands(segs, chunk, start, s) && s.m.pc == Poll && s.task.Check? && seg == segs[s.k]
    requires ZoneBlank(s.m.flash, seg)
    ensures Stands(segs, chunk, start, t) && t.m.pc == Poll && t.task == Write(0, 1)
    ensures t.k == s.k && t.busy == s.busy && t.m.flash == s.m.flash
    decreases |seg.data| - s.task.checked
  {
    var q := Ask(seg, chunk, s.task, s.m.window);
    CheckCan(seg, chunk, s.task, s.m.window, q, s.m.flash);
    t := Served(segs, chunk, start, s, q, q.command, s.m.flash);
    if t.task.Check? {
      t := ChecksOn(segs, chunk, start, t, seg);
    }
  }

  lemma {:induction false} EraseCan(f: Flash, seg: Segment, window: seq<Byte>)
    requires Fits(seg)
    ensures Outcome(f, CMD_ERASE, EraseAddress(seg), EraseLength(seg), 0, window, Cleared(f, seg), ERR_OK)
  {
    ZoneOnChip(seg);
    assert Erases(f, EraseAddress(seg), EraseLength(seg), Cleared(f, seg), ERR_OK,
                  EraseSpan(EraseAddress(seg), EraseLength(seg)));
  }

  /** Erase, blank check and all chunks but the last. */
  lemma {:induction false} ToLastChunk(segs: seq<Segment>, chunk: nat, start: Scene, s: Scene, seg: Segment)
    returns (t: Scene)
    requires Stands(segs, chunk, start, s) && s.m.pc == Poll && s.task == Erase(1) && seg == segs[s.k]
    ensures Stands(segs, chunk, start, t) && t.m.pc == Poll && t.task.Write? && t.task.attempt == 1
    ensures t.k == s.k && t.busy == s.busy && LastChunk(seg, chunk, t.task)
    ensures PrefixIn(t.m.flash, seg, t.task.written) && Takes(t.m.flash, seg) && Kept(s.m.flash, t.m.flash, seg)
  {
    var f, g := s.m.flash, Cleared(s.m.flash, seg);
    EraseCan(f, seg, s.m.window);
    t := Served(segs, chunk, start, s, Ask(seg, chunk, s.task, s.m.window), CMD_ERASE, g);
    ClearedZone(f, seg);
    ClearedKept(f, seg);
    BlankZoneTakes(g, seg);
    if t.task.Check? {
      t := ChecksOn(segs, chunk, start, t, seg);
    }
    t := WritesOn(segs, chunk, start, t, seg);
    KeptOn(f, g, t.m.flash, seg);
  }

  /** A whole segment; the last verify error may be lost, with the retried command pending. */
  lemma {:induction false} FlashesSegment(segs: seq<Segment>, chunk: nat, start: Scene, s: Scene, seg: Segment,
                                          pending: bool)
    returns (t: Scene)
    requires Stands(segs, chunk, start, s) && s.m.pc == Poll && s.task == Erase(1) && seg == segs[s.k]
    ensures Reach(segs, chunk, start, t) && t.k == s.k + 1 && t.task == Erase(1) && t.m.host == Ready
    ensures t.ending == (if t.k == |segs| then Complete else Running) && |t.m.window| == DATA_MAX
    ensures Kept(s.m.flash, t.m.flash, seg)
    ensures t.busy == s.busy + (if pending then 1 else 0)
    ensures t.m.pc == if pending then Start(0, CMD_WRITE_VERIFY) else Poll
  {
    var u := ToLastChunk(segs, chunk, start, s, seg);
    var q := Ask(seg, chunk, u.task, u.m.window);
    var g := ChunkCan(seg, chunk, u.task, u.m.window, q, u.m.flash, if pending then ERR_VERIFY else ERR_OK);
    if pending {
      t := Misled(segs, chunk, start, u, q, g, true);
    } else {
      t := Served(segs, chunk, start, u, q, q.command, g);
    }
    KeptOn(s.m.flash, u.m.flash, g, seg);
  }

  ghost predicate Vacant(f: Flash, seg: Segment) {
    forall c: nat :: c < CAPACITY && seg.address <= c < seg.End() ==> f[c] == BLANK
  }

  /** Flashing one segment leaves the place of another vacant, and a segment before it as it is. */
  lemma {:induction false} OthersKept(segs: seq<Segment>, chunk: nat, j: nat, v: nat, f: Flash, g: Flash)
    requires Setup(segs, chunk) && j < |segs| && v < |segs| && v != j && Kept(f, g, segs[j])
    ensures Vacant(f, segs[v]) ==> Vacant(g, segs[v])
    ensures v < j ==> (Takes(g, segs[v]) <==> Takes(f, segs[v]))
  {
    assert !Overlap(segs[v], segs[j]) by {
      assert v < j ==> !Overlap(segs[v], segs[j]);
      assert j < v ==> !Overlap(segs[j], segs[v]);
    }
    if v < j {
      ZoneIsClear(segs, v, j);
      SameTakes(f, g, segs[v], segs[j]);
    }
  }

  lemma {:induction false} SameTakes(f: Flash, g: Flash, seg: Segment, other: Segment)
    requires Fits(seg) && SameOutsideZone(f, g, other)
    requires (seg.End() <= ZoneBase(other) || ZoneEnd(other) <= seg.address)
    ensures Takes(g, seg) <==> Takes(f, seg)
  {
    forall i | 0 <= i < |seg.data| ensures CellAt(g, seg.address, i) == CellAt(f, seg.address, i) {
      assert g[seg.address + i] == f[seg.address + i];
    }
  }

  /** Segments flashed as intended up to segment n. */
  lemma {:induction false} FlashesUpTo(segs: seq<Segment>, chunk: nat, start: Scene, s: Scene, n: nat, v: nat)
    returns (t: Scene)
    requires Reach(segs, chunk, start, s) && AtSegment(segs, chunk, s) && s.m.pc == Poll && s.k <= n <= |segs|
    requires v < |segs|
    ensures Reach(segs, chunk, start, t) && AtSegment(segs, chunk, t) && t.m.pc == Poll && t.k == n && t.busy == s.busy
    ensures v >= n && Vacant(s.m.flash, segs[v]) ==> Vacant(t.m.flash, segs[v])
    ensures v < s.k ==> (Takes(t.m.flash, segs[v]) <==> Takes(s.m.flash, segs[v]))
    decreases n - s.k
  {
    if s.k == n {
      t := s;
    } else {
      var u := FlashesSegment(segs, chunk, start, s, segs[s.k], false);
      if v != s.k {
        OthersKept(segs, chunk, s.k, v, s.m.flash, u.m.flash);
      }
      t := FlashesUpTo(segs, chunk, start, u, n, v);
    }
  }

  /** The host has finished the segments before s.k. */
  ghost predicate AtSegment(segs: seq<Segment>, chunk: nat, s: Scene) {
    && Setup(segs, chunk) && s.k <= |segs| && s.task == Erase(1) && s.m.host == Ready && |s.m.window| == DATA_MAX
    && s.ending == if s.k == |segs| then Complete else Running
  }

  // ---- the segment that is lost ----

  /** What does not fit never will without an erase. */
  lemma {:induction false} SpoiltStays(f: Flash, seg: Segment, w: nat, n: nat, g: Flash)
    requires w + n <= |seg.data| && Chunked(f, g, seg, w, n) && Takes(g, seg)
    ensures Takes(f, seg)
  {
    forall i | 0 <= i < |seg.data| ensures CellAt(f, seg.address, i) & seg.data[i] == seg.data[i] {
      SpoiltByte(CellAt(f, seg.address, i), CellAt(g, seg.address, i), seg.data[i]);
    }
  }

  lemma {:induction false} SpoiltByte(x: Byte, y: Byte, d: Byte)
    requires y & d == d && (y == x || y == x & d)
    ensures x & d == d
  {
    AndTwice(x, d);
  }

  lemma {:induction false} InFlashTakes(f: Flash, seg: Segment)
    requires InFlash(f, seg)
    ensures Takes(f, seg)
  {
    var r := ReadBack(f, seg.address, |seg.data|);
    forall i | 0 <= i < |seg.data| ensures CellAt(f, seg.address, i) & seg.data[i] == seg.data[i] {
      assert r[i] == seg.data[i];
    }
  }

  /** Every chunk fails its verify, and no error is heard of. */
  lemma {:induction false} SpoilsOn(segs: seq<Segment>, chunk: nat, start: Scene, s: Scene, seg: Segment)
    returns (t: Scene)
    requires Stands(segs, chunk, start, s) && s.m.pc == Poll && s.task.Write? && s.task.attempt == 1 && seg == segs[s.k]
    requires !Takes(s.m.flash, seg)
    ensures Reach(segs, chunk, start, t) && AtSegment(segs, chunk, t) && t.m.pc == Poll && t.k == s.k + 1
    ensures !Takes(t.m.flash, seg)
    decreases |seg.data| - s.task.written
  {
    var q := Ask(seg, chunk, s.task, s.m.window);
    var g := SpoiltChunk(seg, chunk, s.task, s.m.window, q, s.m.flash);
    t := Misled(segs, chunk, start, s, q, g, false);
    if !LastChunk(seg, chunk, s.task) {
      t := SpoilsOn(segs, chunk, start, t, seg);
    }
  }

  lemma {:induction false} SpoiltChunk(seg: Segment, chunk: nat, task: Task, window: seq<Byte>, q: Request, f: Flash)
    returns (g: Flash)
    requires Fits(seg) && TaskOk(seg, task) && task.Write? && 0 < chunk <= DATA_MAX == |window|
    requires q == Ask(seg, chunk, task, window) && !Takes(f, seg)
    ensures Ans(f, q.command, q, g, ERR_VERIFY) && !Takes(g, seg) && |q.window| == DATA_MAX
  {
    var w, n := task.written, Size(seg, chunk, task.written);
    g := Programmed(f, seg.address + w, seg.data[w..w + n]);
    ChunkAsked(seg, chunk, task, window, q, w, n);
    AskedCan(f, q, seg.address + w, seg.data[w..w + n], n, g, ERR_VERIFY);
    ProgrammedIsChunked(f, seg, w, n, g);
    if Takes(g, seg) {
      SpoiltStays(f, seg, w, n, g);
    }
  }

  /** The window written over vacant cells: it reads back, and the data does not fit any more. */
  lemma {:induction false} WindowLands(f: Flash, seg: Segment, z: seq<Byte>, g: Flash)
    requires Fits(seg) && |z| == |seg.data| && Vacant(f, seg) && g == Programmed(f, seg.address, z)
    ensures ReadBack(g, seg.address, |z|) == z
    ensures !Covered(seg.data, z) ==> !Takes(g, seg)
  {
    var r := ReadBack(g, seg.address, |z|);
    forall i | 0 <= i < |z| ensures r[i] == z[i] == CellAt(g, seg.address, i) {
      WithinIsInterval(seg.address + i, seg.address, |z|);
      assert Offset(seg.address + i, seg.address) == i;
      assert f[seg.address + i] == BLANK;
      BlankAnd(z[i]);
    }
  }

  lemma {:induction false} Crosses(segs: seq<Segment>, chunk: nat, start: Scene, s: Scene, seg: Segment, z: seq<Byte>)
    returns (t: Scene)
    requires Stands(segs, chunk, start, s) && s.m.pc == Start(0, CMD_WRITE_VERIFY) && s.task == Erase(1)
    requires seg == segs[s.k]
    requires !IsLp(seg) && |seg.data| <= DATA_MAX && z == s.m.window[..|seg.data|]
    requires Checksum(z) == 0 && !Covered(seg.data, z) && Vacant(s.m.flash, seg)
    ensures Stands(segs, chunk, start, t) && t.m.pc == Poll && t.task == Write(0, 1) && t.k == s.k
    ensures !Takes(t.m.flash, seg)
  {
    var q, g := Ask(seg, chunk, s.task, s.m.window), Programmed(s.m.flash, seg.address, z);
    WindowLands(s.m.flash, seg, z, g);
    AskedCan(s.m.flash, q, seg.address, z, |z|, g, ERR_OK);
    t := Served(segs, chunk, start, s, q, CMD_WRITE_VERIFY, g);
  }

  /** The stub has just seen its id read; the chip is blank. */
  function Outset(window: seq<Byte>): Scene {
    Scene(State(Box(MAGIC, CMD_NONE, READY, 0, 0, 0, 0, 0), window, Poll, Nothing(), Ready), 0, Erase(1), Running, 0)
  }

  function Nothing(): (f: Flash)
    ensures forall c :: 0 <= c < CAPACITY ==> f[c] == BLANK
  {
    seq(CAPACITY, (_: nat) => BLANK)
  }

  lemma {:induction false} Standing(segs: seq<Segment>, chunk: nat, window: seq<Byte>)
    requires |window| == DATA_MAX
    ensures Reach(segs, chunk, Outset(window), Outset(window))
  {
    var play := [Outset(window)];
    assert Play(segs, chunk, play);
  }

  /** Every flashing can complete, without a retry of a busy stub. */
  lemma {:induction false} FlashingCompletes(segs: seq<Segment>, chunk: nat, window: seq<Byte>)
    returns (play: seq<Scene>)
    requires Setup(segs, chunk) && |window| == DATA_MAX
    ensures Play(segs, chunk, play) && play[0].m.window == window
    ensures play[|play| - 1].ending == Complete && play[|play| - 1].busy == 0
    ensures AllInFlash(play[|play| - 1].m.flash, segs)
  {
    var start := Outset(window);
    Standing(segs, chunk, window);
    var t := FlashesUpTo(segs, chunk, start, start, |segs|, 0);
    play :| Play(segs, chunk, play) && play[0] == start && play[|play| - 1] == t;
    FlashingWritesEverySegment(segs, chunk, play);
  }

  /** With one busy retry so far the window is still what the loads have made it. */
  lemma {:induction false} WindowThere(segs: seq<Segment>, chunk: nat, window: seq<Byte>, start: Scene, s: Scene)
    requires Reach(segs, chunk, start, s) && AtSegment(segs, chunk, s) && s.k < |segs| && s.busy <= 1
    requires start.m.window == window && |window| == DATA_MAX
    ensures s.m.window == WindowAt(segs, chunk, window, s.k)
  {
    var play: seq<Scene> :| Play(segs, chunk, play) && play[0] == start && play[|play| - 1] == s;
    PlayKeeps(JobOf(segs, chunk, start), play, |play| - 1);
  }

  /** An exposed segment can be missing at the end of a flashing that completes. */
  lemma {:induction false} LosesSegment(segs: seq<Segment>, chunk: nat, window: seq<Byte>, k: nat)
    returns (play: seq<Scene>)
    requires Setup(segs, chunk) && |window| == DATA_MAX && k < |segs| && ExposedAt(segs, chunk, window, k)
    ensures Play(segs, chunk, play) && play[0].m.window == window && play[|play| - 1].ending == Complete
    ensures !InFlash(play[|play| - 1].m.flash, segs[k])
  {
    var start, seg := Outset(window), segs[k];
    var t := ReachesPending(segs, chunk, window, start, k);
    t := Crosses(segs, chunk, start, t, seg, Remnant(segs, chunk, window, k));
    t := SpoilsOn(segs, chunk, start, t, seg);
    t := FlashesUpTo(segs, chunk, start, t, |segs|, k);
    if InFlash(t.m.flash, seg) {
      InFlashTakes(t.m.flash, seg);
    }
    play :| Play(segs, chunk, play) && play[0] == start && play[|play| - 1] == t;
  }

  /** The segments before k are in place, and the stub is about to start the last retry of them again. */
  lemma {:induction false} ReachesPending(segs: seq<Segment>, chunk: nat, window: seq<Byte>, start: Scene, k: nat)
    returns (t: Scene)
    requires Setup(segs, chunk) && |window| == DATA_MAX && 0 < k < |segs| && start == Outset(window)
    ensures Reach(segs, chunk, start, t) && AtSegment(segs, chunk, t) && t.k == k && Vacant(t.m.flash, segs[k])
    ensures t.m.pc == Start(0, CMD_WRITE_VERIFY) && t.m.window == WindowAt(segs, chunk, window, k)
  {
    Standing(segs, chunk, window);
    var s := FlashesUpTo(segs, chunk, start, start, k - 1, k);
    t := FlashesSegment(segs, chunk, start, s, segs[k - 1], true);
    OthersKept(segs, chunk, k - 1, k, s.m.flash, t.m.flash);
    WindowThere(segs, chunk, window, start, t);
  }

  // ---- exactly when flashing is safe ----

  /** Whatever the chip held, however often a busy stub is retried: a flashing that completes has written everything. */
  ghost predicate Reliable(segs: seq<Segment>, chunk: nat, window: seq<Byte>) {
    forall play: seq<Scene> ::
      Play(segs, chunk, play) && play[0].m.window == window && play[|play| - 1].ending == Complete
      ==> AllInFlash(play[|play| - 1].m.flash, segs)
  }

  lemma {:induction false} ReliableExactlyWhenNotExposed(segs: seq<Segment>, chunk: nat, window: seq<Byte>)
    requires Setup(segs, chunk) && |window| == DATA_MAX
    ensures Reliable(segs, chunk, window) <==> !Exposed(segs, chunk, window)
  {
    if Exposed(segs, chunk, window) {
      var k: nat :| k < |segs| && ExposedAt(segs, chunk, window, k);
      var play := LosesSegment(segs, chunk, window, k);
      assert !AllInFlash(play[|play| - 1].m.flash, segs);
    } else {
      forall play: seq<Scene> |
        Play(segs, chunk, play) && play[0].m.window == window && play[|play| - 1].ending == Complete
        ensures AllInFlash(play[|play| - 1].m.flash, segs)
      {
        FlashingWritesEverySegment(segs, chunk, play);
      }
    }
  }

  /** Zeros at the front of the window are enough: their checksum is 0, as is the word written with an erase. */
  lemma {:induction false} ZerosExpose(segs: seq<Segment>, chunk: nat, window: seq<Byte>, k: nat, i: nat)
    requires Setup(segs, chunk) && |window| == DATA_MAX && 0 < k < |segs| && !IsLp(segs[k])
    requires |segs[k].data| <= DATA_MAX
    requires forall j :: 0 <= j < |segs[k].data| ==> Remnant(segs, chunk, window, k)[j] == 0
    requires i < |segs[k].data| && segs[k].data[i] != 0
    ensures ExposedAt(segs, chunk, window, k)
  {
    var z := Remnant(segs, chunk, window, k);
    ChecksumOfZeros(z);
    assert z[i] & segs[k].data[i] == 0;
  }

  lemma {:induction false} ChecksumOfZeros(z: seq<Byte>)
    requires forall j :: 0 <= j < |z| ==> z[j] == 0
    ensures Checksum(z) == 0
  {
    if z != [] {
      ChecksumOfZeros(z[..|z| - 1]);
    }
  }
}
