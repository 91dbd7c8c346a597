/**
 Programming flash segments over the UART: which images are safe, and why the others are not.
 */
module UartSession {
  import opened Nor
  import opened FlashOps
  import opened Checksums
  import opened Service
  import opened Segments
  import opened Scripts
  import opened UartLink

  // ---- requests of one segment ----

  /** `q` is one of the requests that program `seg`. */
  ghost predicate Belongs(q: Frame, seg: Segment) {
    && WellFormed(q) && |q.payload| <= DATA_MAX
    && ((q.command == CMD_ERASE && q.address == seg.address && q.length == |seg.data|)
        || (q.command == CMD_WRITE_VERIFY && 0 < |q.payload|
            && seg.address <= q.address && q.address + |q.payload| <= seg.End()))
  }

  lemma ScriptBelongs(seg: Segment, chunk: nat)
    requires Fits(seg) && 0 < chunk <= DATA_MAX
    ensures forall k :: 0 <= k < |Script(seg, chunk)| ==> Belongs(Script(seg, chunk)[k], seg)
    ensures ScriptOk(Script(seg, chunk))
  {
    PiecesAscend(seg.address, seg.data, chunk);
    var pieces, script := Pieces(seg.address, seg.data, chunk), Script(seg, chunk);
    forall k | 0 <= k < |script| ensures Belongs(script[k], seg) {
      if k > 0 {
        var p := pieces[k - 1];
        assert script[k] == WriteFrame(p.address, p.payload);
        assert 0 < |p.payload| <= chunk && p.End() <= seg.End();
      }
    }
    forall q | q in script ensures WellFormed(q) && |q.payload| <= DATA_MAX {
      var k :| 0 <= k < |script| && script[k] == q;
      assert Belongs(script[k], seg);
    }
  }

  /** Counters of a segment's requests never leave its own range. */
  lemma CounterInside(q: Frame, seg: Segment)
    requires Fits(seg) && Belongs(q, seg)
    ensures seg.address < Counter(q) <= seg.End()
    ensures Counter(q) == q.address + q.length
  {
  }

  lemma TouchInside(q: Frame, seg: Segment, c: nat)
    requires Fits(seg) && Belongs(q, seg) && c < CAPACITY && Touches(q, c)
    ensures SectorFloor(seg.address) <= c < SectorCeil(seg.End())
  {
    EraseSpanOnChip(seg.address, |seg.data|);
    if q.command == CMD_ERASE {
      WithinIsInterval(c, SectorFloor(q.address), EraseSpan(q.address, q.length));
    } else {
      WithinIsInterval(c, q.address, |q.payload|);
    }
  }

  /** Requests of different segments: the sectors of one miss the bytes of the other. */
  lemma SegmentsDoNotDisturb(q: Frame, s: Segment, w: Frame, t: Segment)
    requires Fits(s) && Fits(t) && !Overlap(s, t)
    requires s.address % SECTOR_SIZE == 0 && t.address % SECTOR_SIZE == 0
    requires Belongs(q, s) && Belongs(w, t)
    ensures !Disturbs(q, w) && Counter(q) != Counter(w)
  {
    SectorsStayClear(s, t);
    CounterInside(q, s);
    CounterInside(w, t);
    forall c: nat | c < CAPACITY && Touches(q, c) && Within(c, w.address, |w.payload|) && w.command == CMD_WRITE_VERIFY
      ensures false
    {
      TouchInside(q, s, c);
      WithinIsInterval(c, w.address, |w.payload|);
    }
  }

  lemma LaterPieceIsApart(pieces: seq<Piece>, i: nat, j: nat, seg: Segment, chunk: nat)
    requires j < i < |pieces| && Fits(seg) && Ascending(pieces, seg.address, seg.End(), chunk) && chunk <= DATA_MAX
    ensures !Disturbs(WriteFrame(pieces[i].address, pieces[i].payload),
                      WriteFrame(pieces[j].address, pieces[j].payload))
  {
    assert pieces[j].End() <= pieces[i].address && pieces[i].End() <= seg.End();
    WritesApart(WriteFrame(pieces[i].address, pieces[i].payload), WriteFrame(pieces[j].address, pieces[j].payload));
  }

  /** Within one segment no request disturbs an earlier write. */
  lemma ScriptNonInterfering(seg: Segment, chunk: nat)
    requires Fits(seg) && 0 < chunk <= DATA_MAX
    ensures NonInterfering(Script(seg, chunk))
  {
    PiecesAscend(seg.address, seg.data, chunk);
    var pieces, script := Pieces(seg.address, seg.data, chunk), Script(seg, chunk);
    forall i, j | 0 <= j < i < |script| ensures !Disturbs(script[i], script[j]) {
      if j > 0 {
        LaterPieceIsApart(pieces, i - 1, j - 1, seg, chunk);
        assert script[i] == WriteFrame(pieces[i - 1].address, pieces[i - 1].payload);
        assert script[j] == WriteFrame(pieces[j - 1].address, pieces[j - 1].payload);
      }
    }
  }

  lemma WritesApart(q: Frame, w: Frame)
    requires q.command == CMD_WRITE_VERIFY && q.address + |q.payload| <= CAPACITY
    requires w.address + |w.payload| <= q.address
    ensures !Disturbs(q, w)
  {
    forall c: nat | c < CAPACITY && Touches(q, c) && Within(c, w.address, |w.payload|) ensures false {
      WithinIsInterval(c, q.address, |q.payload|);
      WithinIsInterval(c, w.address, |w.payload|);
    }
  }

  /** The counter of a script entry: the end of the segment, or of the chunk. */
  lemma CounterOfEntry(seg: Segment, chunk: nat, i: nat)
    requires Fits(seg) && 0 < chunk <= DATA_MAX && i < |Script(seg, chunk)|
    ensures Counter(Script(seg, chunk)[i])
         == if i == 0 then seg.End() else Pieces(seg.address, seg.data, chunk)[i - 1].End()
  {
    ScriptBelongs(seg, chunk);
    CounterInside(Script(seg, chunk)[i], seg);
  }

  /** Only the erase of a single-chunk segment shares its counter with the next request, and it always does. */
  lemma TwinInScript(seg: Segment, chunk: nat, i: nat)
    requires Fits(seg) && 0 < chunk <= DATA_MAX && i + 1 < |Script(seg, chunk)|
    ensures Counter(Script(seg, chunk)[i]) == Counter(Script(seg, chunk)[i + 1]) <==> i == 0 && |seg.data| <= chunk
  {
    CounterOfEntry(seg, chunk, i);
    CounterOfEntry(seg, chunk, i + 1);
    PiecesAscend(seg.address, seg.data, chunk);
  }

  // ---- a whole session ----

  function PingFrame(): Frame {
    Frame(CMD_PING, 0, 0, true, 0, [])
  }

  function ReadIdFrame(): Frame {
    Frame(CMD_READ_ID, 0, 0, true, 0, [])
  }

  const PRELUDE: nat := 2

  /** A request that leaves the flash alone and whose counter is 0. */
  ghost predicate Harmless(q: Frame) {
    (q.command == CMD_PING || q.command == CMD_READ_ID) && q.address == 0 && q.length == 0
  }

  /** Segments the session theorem covers: aligned, on the chip, not overlapping. */
  ghost predicate Programs(segs: seq<Segment>, chunk: nat) {
    && 0 < chunk <= DATA_MAX
    && (forall k :: 0 <= k < |segs| ==>
          Fits(segs[k]) && segs[k].address % SECTOR_SIZE == 0)
    && PairwiseDisjoint(segs)
  }

  /** Ping, read the chip id, then the first m segments in order. */
  function Requests(segs: seq<Segment>, chunk: nat, m: nat): (script: seq<Frame>)
    requires Programs(segs, chunk) && m <= |segs|
    ensures |script| >= PRELUDE && ScriptOk(script)
    decreases m
  {
    if m == 0 then [PingFrame(), ReadIdFrame()]
    else
      ScriptBelongs(segs[m - 1], chunk);
      Requests(segs, chunk, m - 1) + Script(segs[m - 1], chunk)
  }

  function Session(segs: seq<Segment>, chunk: nat): (script: seq<Frame>)
    requires Programs(segs, chunk)
    ensures ScriptOk(script)
  {
    Requests(segs, chunk, |segs|)
  }

  ghost predicate OneOf(q: Frame, segs: seq<Segment>, m: nat) {
    exists i :: 0 <= i < m && i < |segs| && Belongs(q, segs[i])
  }

  /** After the prelude, only requests of the first m segments. */
  ghost predicate FromSegments(script: seq<Frame>, segs: seq<Segment>, m: nat) {
    && |script| >= PRELUDE && Harmless(script[0]) && Harmless(script[1])
    && forall k :: PRELUDE <= k < |script| ==> OneOf(script[k], segs, m)
  }

  lemma AppendFromSegments(head: seq<Frame>, tail: seq<Frame>, segs: seq<Segment>, m: nat)
    requires FromSegments(head, segs, m) && m < |segs| && forall k :: 0 <= k < |tail| ==> Belongs(tail[k], segs[m])
    ensures FromSegments(head + tail, segs, m + 1)
  {
    var script := head + tail;
    forall k | PRELUDE <= k < |script| ensures OneOf(script[k], segs, m + 1) {
      if k < |head| {
        assert OneOf(head[k], segs, m);
        var i :| 0 <= i < m && Belongs(head[k], segs[i]);
        assert Belongs(script[k], segs[i]);
      } else {
        assert script[k] == tail[k - |head|];
        assert Belongs(script[k], segs[m]);
      }
    }
  }

  lemma {:induction false} RequestsFromSegments(segs: seq<Segment>, chunk: nat, m: nat)
    requires Programs(segs, chunk) && m <= |segs|
    ensures FromSegments(Requests(segs, chunk, m), segs, m)
    decreases m
  {
    if m > 0 {
      RequestsFromSegments(segs, chunk, m - 1);
      ScriptBelongs(segs[m - 1], chunk);
      AppendFromSegments(Requests(segs, chunk, m - 1), Script(segs[m - 1], chunk), segs, m - 1);
    }
  }

  /** Later segments only add requests at the end. */
  lemma {:induction false} RequestsPrefix(segs: seq<Segment>, chunk: nat, m: nat, n: nat)
    requires Programs(segs, chunk) && m <= n <= |segs|
    ensures Requests(segs, chunk, m) <= Requests(segs, chunk, n)
    decreases n
  {
    if m < n {
      RequestsPrefix(segs, chunk, m, n - 1);
    }
  }

  /** A request of a new segment against everything before it. */
  lemma NewSegmentIsApart(head: seq<Frame>, segs: seq<Segment>, m: nat, q: Frame, j: nat)
    requires m < |segs| && FromSegments(head, segs, m) && j < |head| && Belongs(q, segs[m])
    requires forall i :: 0 <= i <= m ==> Fits(segs[i]) && segs[i].address % SECTOR_SIZE == 0
    requires forall i :: 0 <= i < m ==> !Overlap(segs[i], segs[m])
    ensures !Disturbs(q, head[j]) && Counter(q) != Counter(head[j])
  {
    if j < PRELUDE {
      CounterInside(q, segs[m]);
    } else {
      assert OneOf(head[j], segs, m);
      var i :| 0 <= i < m && Belongs(head[j], segs[i]);
      SegmentsDoNotDisturb(q, segs[m], head[j], segs[i]);
    }
  }

  /** Appending requests that disturb nothing before them. */
  lemma AppendNonInterfering(head: seq<Frame>, tail: seq<Frame>)
    requires NonInterfering(head) && NonInterfering(tail)
    requires forall i, j :: 0 <= j < |head| && 0 <= i < |tail| ==> !Disturbs(tail[i], head[j])
    ensures NonInterfering(head + tail)
  {
    var script := head + tail;
    forall i, j | 0 <= j < i < |script| ensures !Disturbs(script[i], script[j]) {
      if i < |head| {
        assert !Disturbs(head[i], head[j]);
      } else if j < |head| {
        assert !Disturbs(tail[i - |head|], head[j]);
      } else {
        assert !Disturbs(tail[i - |head|], tail[j - |head|]);
      }
    }
  }

  /** One more segment after requests of segments it keeps clear of. */
  lemma AppendSegment(head: seq<Frame>, segs: seq<Segment>, m: nat, chunk: nat, script: seq<Frame>)
    requires Programs(segs, chunk) && m < |segs| && script == head + Script(segs[m], chunk)
    requires FromSegments(head, segs, m) && NonInterfering(head)
    ensures NonInterfering(script)
  {
    var tail := Script(segs[m], chunk);
    ScriptBelongs(segs[m], chunk);
    ScriptNonInterfering(segs[m], chunk);
    forall i, j | 0 <= j < |head| && 0 <= i < |tail| ensures !Disturbs(tail[i], head[j]) {
      NewSegmentIsApart(head, segs, m, tail[i], j);
    }
    AppendNonInterfering(head, tail);
  }

  lemma {:induction false} RequestsNonInterfering(segs: seq<Segment>, chunk: nat, m: nat)
    requires Programs(segs, chunk) && m <= |segs|
    ensures NonInterfering(Requests(segs, chunk, m))
    decreases m
  {
    if m > 0 {
      RequestsNonInterfering(segs, chunk, m - 1);
      RequestsFromSegments(segs, chunk, m - 1);
      AppendSegment(Requests(segs, chunk, m - 1), segs, m - 1, chunk, Requests(segs, chunk, m));
    }
  }

  /** Every request after the prelude has a nonzero counter. */
  lemma CountersNonzero(segs: seq<Segment>, chunk: nat, i: nat)
    requires Programs(segs, chunk) && PRELUDE <= i < |Session(segs, chunk)|
    ensures Counter(Session(segs, chunk)[i]) != 0
  {
    var script := Session(segs, chunk);
    RequestsFromSegments(segs, chunk, |segs|);
    assert OneOf(script[i], segs, |segs|);
    var k :| 0 <= k < |segs| && Belongs(script[i], segs[k]);
    CounterInside(script[i], segs[k]);
  }

  /** `q` and `w` are the erase and the only chunk of a segment. */
  ghost predicate SingleChunk(segs: seq<Segment>, chunk: nat, q: Frame, w: Frame) {
    exists k :: 0 <= k < |segs| && ErasesAndWrites(segs[k], chunk, q, w)
  }

  ghost predicate ErasesAndWrites(seg: Segment, chunk: nat, q: Frame, w: Frame) {
    && Fits(seg) && |seg.data| <= chunk
    && q == EraseFrame(seg.address, |seg.data|) && w == WriteFrame(seg.address, seg.data)
  }

  lemma TwinInTail(head: seq<Frame>, seg: Segment, chunk: nat, script: seq<Frame>, i: nat)
    requires Fits(seg) && 0 < chunk <= DATA_MAX && script == head + Script(seg, chunk)
    requires |head| <= i && Twin(script, PRELUDE, i)
    ensures ErasesAndWrites(seg, chunk, script[i], script[i + 1])
  {
    TwinInScript(seg, chunk, i - |head|);
    PiecesAscend(seg.address, seg.data, chunk);
  }

  /** Only the two requests of single-chunk segments can be confused. */
  lemma {:induction false} TwinsAreSingleChunks(segs: seq<Segment>, chunk: nat, m: nat, i: nat)
    requires Programs(segs, chunk) && m <= |segs| && Twin(Requests(segs, chunk, m), PRELUDE, i)
    ensures SingleChunk(segs, chunk, Requests(segs, chunk, m)[i], Requests(segs, chunk, m)[i + 1])
    decreases m
  {
    var head, seg := Requests(segs, chunk, m - 1), segs[m - 1];
    var script := head + Script(seg, chunk);
    assert script == Requests(segs, chunk, m);
    if i + 1 < |head| {
      TwinsAreSingleChunks(segs, chunk, m - 1, i);
    } else if i + 1 == |head| {
      RequestsFromSegments(segs, chunk, m - 1);
      ScriptBelongs(seg, chunk);
      NewSegmentIsApart(head, segs, m - 1, Script(seg, chunk)[0], i);
    } else {
      TwinInTail(head, seg, chunk, script, i);
    }
  }

  lemma NothingLooksLikeThePrelude(segs: seq<Segment>, chunk: nat, script: seq<Frame>)
    requires Programs(segs, chunk) && script == Session(segs, chunk)
    ensures StartsApart(script, PRELUDE)
  {
    RequestsFromSegments(segs, chunk, |segs|);
    if PRELUDE < |script| {
      CountersNonzero(segs, chunk, PRELUDE);
    }
  }

  lemma NoThreeLookAlike(segs: seq<Segment>, chunk: nat, script: seq<Frame>)
    requires Programs(segs, chunk) && script == Session(segs, chunk)
    ensures NoTriplets(script, PRELUDE)
  {
    forall i: nat, j: nat | Twin(script, PRELUDE, i) && Twin(script, PRELUDE, j) ensures j != i + 1 {
      TwinsAreSingleChunks(segs, chunk, |segs|, i);
      TwinsAreSingleChunks(segs, chunk, |segs|, j);
    }
  }

  /**
   The requests of a session never disturb an earlier write, none can be taken for one of the prelude,
   and no three look alike.
   */
  lemma SessionIsSafe(segs: seq<Segment>, chunk: nat)
    requires Programs(segs, chunk)
    ensures NonInterfering(Session(segs, chunk)) && StartsApart(Session(segs, chunk), PRELUDE)
    ensures NoTriplets(Session(segs, chunk), PRELUDE)
  {
    RequestsNonInterfering(segs, chunk, |segs|);
    NothingLooksLikeThePrelude(segs, chunk, Session(segs, chunk));
    NoThreeLookAlike(segs, chunk, Session(segs, chunk));
  }

  /** The condition on a segment: more than one chunk, or nothing but 0xFF. */
  predicate Unambiguous(seg: Segment, chunk: nat) {
    |seg.data| > chunk || AllBlank(seg.data)
  }

  ghost predicate AllUnambiguous(segs: seq<Segment>, chunk: nat) {
    forall k :: 0 <= k < |segs| ==> Unambiguous(segs[k], chunk)
  }

  lemma UnambiguousIsNeverRisky(segs: seq<Segment>, chunk: nat)
    requires Programs(segs, chunk) && AllUnambiguous(segs, chunk)
    ensures NoneRisky(Session(segs, chunk), PRELUDE)
  {
    forall i: nat ensures !Risky(Session(segs, chunk), PRELUDE, i) {
      if Twin(Session(segs, chunk), PRELUDE, i) {
        TwinsAreSingleChunks(segs, chunk, |segs|, i);
      }
    }
  }

  ghost predicate AllHold(f: Flash, script: seq<Frame>, from: nat) {
    forall k :: from <= k < |script| ==> Holds(f, script[k])
  }

  lemma SplitHolds(f: Flash, head: seq<Frame>, tail: seq<Frame>, script: seq<Frame>)
    requires |head| >= PRELUDE && script == head + tail && AllHold(f, script, PRELUDE)
    ensures AllHold(f, head, PRELUDE) && AllHold(f, tail, 0)
  {
    forall k | PRELUDE <= k < |head| ensures Holds(f, head[k]) { assert script[k] == head[k]; }
    forall k | 0 <= k < |tail| ensures Holds(f, tail[k]) { assert script[|head| + k] == tail[k]; }
  }

  /** If every request holds, so does every segment. */
  lemma {:induction false} RequestsMakeSegments(f: Flash, segs: seq<Segment>, chunk: nat, n: nat, m: nat)
    requires Programs(segs, chunk) && m < n <= |segs| && AllHold(f, Requests(segs, chunk, n), PRELUDE)
    ensures InFlash(f, segs[m])
    decreases n
  {
    SplitHolds(f, Requests(segs, chunk, n - 1), Script(segs[n - 1], chunk), Requests(segs, chunk, n));
    if m < n - 1 {
      RequestsMakeSegments(f, segs, chunk, n - 1, m);
    } else {
      ScriptMakesSegment(f, segs[m], chunk);
    }
  }

  lemma ScriptMakesSegment(f: Flash, seg: Segment, chunk: nat)
    requires Fits(seg) && 0 < chunk <= DATA_MAX
    requires AllHold(f, Script(seg, chunk), 0)
    ensures InFlash(f, seg)
  {
    PiecesAscend(seg.address, seg.data, chunk);
    var pieces := Pieces(seg.address, seg.data, chunk);
    forall p | p in pieces ensures ReadBack(f, p.address, |p.payload|) == p.payload {
      var k :| 0 <= k < |pieces| && pieces[k] == p;
      assert Script(seg, chunk)[k + 1] == WriteFrame(p.address, p.payload);
      assert Holds(f, Script(seg, chunk)[k + 1]);
    }
    PiecesMakeTheWhole(f, seg.address, seg.data, chunk);
  }

  lemma SettledAt(script: seq<Frame>, prelude: nat, run: seq<State>, i: nat)
    requires ScriptOk(script) && NonInterfering(script) && StartsApart(script, prelude) && NoTriplets(script, prelude)
    requires Run(script, run) && NoRiskyRepeated(script, prelude, run) && i < |run|
    ensures Settled(script, prelude, run[i].pos, run[i].flash)
  {
    RunPrefix(script, run, i + 1);
    assert forall k :: 0 <= k <= i ==> run[..i + 1][k] == run[k];
    EveryRunIsSafe(script, prelude, run[..i + 1]);
  }

  /**
   The session theorem. Whatever is lost, however often commands time out and are repeated, and
   whatever the flash held before: once the host has gone through the whole session, every segment
   is in flash, in that state and in every later one. The one thing that must not have happened is
   that the erase of a single-chunk segment, not all 0xFF, was repeated.
   */
  lemma SessionWritesEverySegment(segs: seq<Segment>, chunk: nat, run: seq<State>, i: nat, m: nat)
    requires Programs(segs, chunk) && Run(Session(segs, chunk), run)
    requires NoRiskyRepeated(Session(segs, chunk), PRELUDE, run)
    requires i < |run| && run[i].pos == |Session(segs, chunk)| && m < |segs|
    ensures InFlash(run[i].flash, segs[m])
  {
    var script := Session(segs, chunk);
    SessionIsSafe(segs, chunk);
    SettledAt(script, PRELUDE, run, i);
    RequestsMakeSegments(run[i].flash, segs, chunk, |segs|, m);
  }

  /** With unambiguous segments nothing needs to be asked of the run. */
  lemma UnambiguousSegmentsAreWritten(segs: seq<Segment>, chunk: nat, run: seq<State>, i: nat, m: nat)
    requires Programs(segs, chunk) && AllUnambiguous(segs, chunk) && Run(Session(segs, chunk), run)
    requires i < |run| && run[i].pos == |Session(segs, chunk)| && m < |segs|
    ensures InFlash(run[i].flash, segs[m])
  {
    UnambiguousIsNeverRisky(segs, chunk);
    NothingRepeated(Session(segs, chunk), PRELUDE, run);
    SessionWritesEverySegment(segs, chunk, run, i, m);
  }
}
