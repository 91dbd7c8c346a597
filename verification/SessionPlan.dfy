/**
 Plans: the flash contents request by request when a session goes through, either as it should or
 with one single-chunk segment's write never executed. They say nothing of links and
 acknowledgements; both acknowledge modes have runs that follow them.
 */
module SessionPlan {
  import opened MachineWord
  import opened Nor
  import opened FlashOps
  import opened Service
  import opened Segments
  import opened Scripts
  import opened UartSession

  /** Serving `q` on `f` can succeed with `g`, and serving it again changes nothing. */
  ghost predicate Good(f: Flash, q: Frame, g: Flash) {
    WellFormed(q) && Serves(f, q, g, ERR_OK) && Serves(g, q, g, ERR_OK)
  }

  /** The controller can give up on `q` before anything has happened. */
  ghost predicate CanFail(f: Flash, q: Frame) {
    WellFormed(q) && Serves(f, q, f, ERR_TIMEOUT)
  }

  /** Every request is served well, except that the one after `bad` has no effect: it is lost, or fails. */
  ghost predicate PlanStep(script: seq<Frame>, fs: seq<Flash>, bad: nat, k: nat)
    requires k < |script| < |fs|
  {
    if k == bad + 1 then fs[k + 1] == fs[k] && CanFail(fs[k], script[k]) else Good(fs[k], script[k], fs[k + 1])
  }

  ghost predicate Plan(script: seq<Frame>, fs: seq<Flash>, bad: nat) {
    |fs| == |script| + 1 && forall k :: 0 <= k < |script| ==> PlanStep(script, fs, bad, k)
  }

  /** All requests served well. */
  ghost predicate GoodPlan(script: seq<Frame>, fs: seq<Flash>) {
    |fs| == |script| + 1 && forall k :: 0 <= k < |script| ==> Good(fs[k], script[k], fs[k + 1])
  }

  // ---- single requests ----

  lemma PreludeIsGood(f: Flash)
    ensures Good(f, PingFrame(), f) && Good(f, ReadIdFrame(), f)
  {
  }

  lemma EraseIsGood(f: Flash, seg: Segment) returns (g: Flash)
    requires Fits(seg)
    ensures Good(f, EraseFrame(seg.address, |seg.data|), g) && BlankAt(g, seg.address, |seg.data|)
    ensures SameOutside(f, g, SectorFloor(seg.address), SectorCeil(seg.End()))
  {
    var n, base := EraseSpan(seg.address, |seg.data|), SectorFloor(seg.address);
    g := Erased(f, base, n);
    ErasedRange(f, seg.address, |seg.data|);
    assert Erases(f, seg.address, |seg.data|, g, ERR_OK, n);
    assert Erased(g, base, n) == g;
    assert Erases(g, seg.address, |seg.data|, g, ERR_OK, n);
    EraseSpanOnChip(seg.address, |seg.data|);
    forall c: nat | c < CAPACITY && !(base <= c < SectorCeil(seg.End())) ensures g[c] == f[c] {
      WithinIsInterval(c, base, n);
    }
  }

  lemma WriteIsGood(f: Flash, address: nat, payload: seq<Byte>) returns (g: Flash)
    requires 0 < |payload| <= DATA_MAX && address + |payload| <= CAPACITY && BlankAt(f, address, |payload|)
    ensures Good(f, WriteFrame(address, payload), g) && SameOutside(f, g, address, address + |payload|)
  {
    var n := |payload|;
    g := Programmed(f, address, payload);
    assert payload[..n] == payload;
    forall k | 0 <= k < n ensures CellAt(f, address, k) == BLANK {
      assert ReadBack(f, address, n)[k] == BLANK;
    }
    BlankIsProgrammable(f, address, payload);
    ProgrammedReadsBack(f, address, payload);
    assert Writes(f, address, payload, g, ERR_OK, n);
    ProgrammingAgain(g, address, payload, n);
    assert Writes(g, address, payload, g, ERR_OK, n);
    forall c: nat | c < CAPACITY && !(address <= c < address + n) ensures g[c] == f[c] {
      WithinIsInterval(c, address, n);
    }
  }

  lemma WriteCanFail(f: Flash, address: nat, payload: seq<Byte>)
    requires 0 < |payload| <= DATA_MAX && address < WORD
    ensures CanFail(f, WriteFrame(address, payload))
  {
    assert Programmed(f, address, payload[..0]) == f;
    assert Writes(f, address, payload, f, ERR_TIMEOUT, 0);
  }

  // ---- one segment ----

  lemma BlankElsewhere(f: Flash, g: Flash, address: nat, m: nat, n: nat)
    requires BlankAt(f, address, m + n) && SameOutside(f, g, address, address + m) && address + m + n <= CAPACITY
    ensures BlankAt(g, address + m, n)
  {
    var r, all := ReadBack(g, address + m, n), ReadBack(f, address, m + n);
    forall k | 0 <= k < n ensures r[k] == BLANK {
      assert all[m + k] == f[address + m + k];
      assert g[address + m + k] == f[address + m + k];
    }
  }

  lemma BlankPrefix(f: Flash, address: nat, m: nat, n: nat)
    requires BlankAt(f, address, m + n)
    ensures BlankAt(f, address, m)
  {
    forall k | 0 <= k < m ensures ReadBack(f, address, m)[k] == BLANK {
      assert ReadBack(f, address, m + n)[k] == BLANK;
    }
  }

  /** Chunk k written well. */
  ghost predicate GoodPiece(p: Piece, f: Flash, g: Flash) {
    p.address < WORD && |p.payload| < WORD && Good(f, WriteFrame(p.address, p.payload), g)
  }

  ghost predicate GoodPieces(pieces: seq<Piece>, fs: seq<Flash>) {
    |fs| == |pieces| + 1 && forall k :: 0 <= k < |pieces| ==> GoodPiece(pieces[k], fs[k], fs[k + 1])
  }

  lemma PrependPiece(p: Piece, rest: seq<Piece>, f: Flash, fs: seq<Flash>)
    requires GoodPieces(rest, fs) && GoodPiece(p, f, fs[0])
    ensures GoodPieces([p] + rest, [f] + fs)
  {
    var pieces, all := [p] + rest, [f] + fs;
    forall k | 0 <= k < |pieces| ensures GoodPiece(pieces[k], all[k], all[k + 1]) {
      if k > 0 {
        assert GoodPiece(rest[k - 1], fs[k - 1], fs[k]);
      }
    }
  }

  lemma OnlyPiece(address: nat, data: seq<Byte>, f: Flash) returns (g: Flash)
    requires 0 < |data| <= DATA_MAX && address + |data| <= CAPACITY && BlankAt(f, address, |data|)
    ensures GoodPieces([Piece(address, data)], [f, g]) && SameOutside(f, g, address, address + |data|)
  {
    g := WriteIsGood(f, address, data);
    assert GoodPiece(Piece(address, data), f, g);
  }

  lemma FirstPiece(address: nat, head: seq<Byte>, n: nat, f: Flash) returns (g: Flash)
    requires 0 < |head| <= DATA_MAX && address + |head| + n <= CAPACITY && BlankAt(f, address, |head| + n)
    ensures GoodPiece(Piece(address, head), f, g) && BlankAt(g, address + |head|, n)
    ensures SameOutside(f, g, address, address + |head|)
  {
    BlankPrefix(f, address, |head|, n);
    g := WriteIsGood(f, address, head);
    BlankElsewhere(f, g, address, |head|, n);
  }

  /** On an erased range the chunks can be written one after the other. */
  lemma {:induction false} PiecesPlan(address: nat, data: seq<Byte>, chunk: nat, f: Flash) returns (fs: seq<Flash>)
    requires 0 < chunk <= DATA_MAX && data != [] && address + |data| <= CAPACITY && BlankAt(f, address, |data|)
    ensures GoodPieces(Pieces(address, data, chunk), fs) && fs[0] == f
    ensures SameOutside(f, fs[|fs| - 1], address, address + |data|)
    decreases |data|
  {
    if |data| <= chunk {
      var g := OnlyPiece(address, data, f);
      fs := [f, g];
    } else {
      var head, tail := data[..chunk], data[chunk..];
      var g := FirstPiece(address, head, |tail|, f);
      var rest := PiecesPlan(address + chunk, tail, chunk, g);
      fs := [f] + rest;
      PrependPiece(Piece(address, head), Pieces(address + chunk, tail, chunk), f, rest);
      OutsideBoth(f, g, rest[|rest| - 1], address, chunk, |tail|);
    }
  }

  lemma OutsideBoth(f: Flash, g: Flash, h: Flash, address: nat, m: nat, n: nat)
    requires SameOutside(f, g, address, address + m) && SameOutside(g, h, address + m, address + m + n)
    ensures SameOutside(f, h, address, address + m + n)
  {
  }

  /** A segment can be programmed, whatever the flash holds; only its sectors change. */
  lemma SegmentPlan(seg: Segment, chunk: nat, f: Flash) returns (fs: seq<Flash>)
    requires Fits(seg) && 0 < chunk <= DATA_MAX
    ensures GoodPlan(Script(seg, chunk), fs) && fs[0] == f
    ensures SameOutside(f, fs[|fs| - 1], SectorFloor(seg.address), SectorCeil(seg.End()))
  {
    var g := EraseIsGood(f, seg);
    var rest := PiecesPlan(seg.address, seg.data, chunk, g);
    fs := [f] + rest;
    var script, pieces := Script(seg, chunk), Pieces(seg.address, seg.data, chunk);
    forall k | 0 <= k < |script| ensures Good(fs[k], script[k], fs[k + 1]) {
      if k > 0 {
        assert GoodPiece(pieces[k - 1], rest[k - 1], rest[k]);
      }
    }
  }

  // ---- a session ----

  /** Where the requests of segment m begin. */
  function Begin(segs: seq<Segment>, chunk: nat, m: nat): nat
    requires Programs(segs, chunk) && m <= |segs|
  {
    |Requests(segs, chunk, m)|
  }

  lemma JoinPlans(a: seq<Frame>, fa: seq<Flash>, b: seq<Frame>, fb: seq<Flash>, bad: nat)
    requires Plan(a, fa, bad) && GoodPlan(b, fb) && fb[0] == fa[|a|] && bad + 1 < |a|
    ensures Plan(a + b, fa + fb[1..], bad)
    ensures (fa + fb[1..])[|a| + |b|] == fb[|b|]
  {
    var script, fs := a + b, fa + fb[1..];
    forall k | 0 <= k < |script| ensures PlanStep(script, fs, bad, k) {
      if k < |a| {
        assert PlanStep(a, fa, bad, k);
      } else {
        assert Good(fb[k - |a|], b[k - |a|], fb[k - |a| + 1]);
        assert fs[k] == fb[k - |a|] && fs[k + 1] == fb[k - |a| + 1] && script[k] == b[k - |a|];
      }
    }
  }

  lemma JoinGoodPlans(a: seq<Frame>, fa: seq<Flash>, b: seq<Frame>, fb: seq<Flash>)
    requires GoodPlan(a, fa) && GoodPlan(b, fb) && fb[0] == fa[|a|]
    ensures GoodPlan(a + b, fa + fb[1..]) && (fa + fb[1..])[|a| + |b|] == fb[|b|]
  {
    var script, fs := a + b, fa + fb[1..];
    forall k | 0 <= k < |script| ensures Good(fs[k], script[k], fs[k + 1]) {
      if k < |a| {
        assert Good(fa[k], a[k], fa[k + 1]);
      } else {
        assert Good(fb[k - |a|], b[k - |a|], fb[k - |a| + 1]);
        assert fs[k] == fb[k - |a|] && fs[k + 1] == fb[k - |a| + 1] && script[k] == b[k - |a|];
      }
    }
  }

  /** The first m segments programmed as they should be. */
  lemma {:induction false} SoundPlan(segs: seq<Segment>, chunk: nat, m: nat, f: Flash) returns (fs: seq<Flash>)
    requires Programs(segs, chunk) && m <= |segs|
    ensures GoodPlan(Requests(segs, chunk, m), fs) && fs[0] == f
    decreases m
  {
    if m == 0 {
      PreludeIsGood(f);
      fs := [f, f, f];
    } else {
      var head, tail := Requests(segs, chunk, m - 1), Script(segs[m - 1], chunk);
      var fa := SoundPlan(segs, chunk, m - 1, f);
      var fb := SegmentPlan(segs[m - 1], chunk, fa[|head|]);
      JoinGoodPlans(head, fa, tail, fb);
      fs := fa + fb[1..];
    }
  }

  lemma AppendBad(a: seq<Frame>, fa: seq<Flash>, q: Frame, w: Frame, g: Flash)
    requires GoodPlan(a, fa) && Good(fa[|a|], q, g) && CanFail(g, w)
    ensures Plan(a + [q, w], fa + [g, g], |a|)
  {
    var script, fs := a + [q, w], fa + [g, g];
    forall k | 0 <= k < |script| ensures PlanStep(script, fs, |a|, k) {
      if k < |a| {
        assert Good(fa[k], a[k], fa[k + 1]);
      }
    }
  }

  /** Another segment's sectors do not bring a missing segment back. */
  lemma StillMissing(f: Flash, g: Flash, seg: Segment, other: Segment)
    requires Fits(seg) && Fits(other) && !Overlap(other, seg)
    requires seg.address % SECTOR_SIZE == 0 && other.address % SECTOR_SIZE == 0
    requires SameOutside(f, g, SectorFloor(other.address), SectorCeil(other.End())) && !InFlash(f, seg)
    ensures !InFlash(g, seg)
  {
    SectorsStayClear(other, seg);
    var r, s := ReadBack(f, seg.address, |seg.data|), ReadBack(g, seg.address, |seg.data|);
    forall k | 0 <= k < |seg.data| ensures r[k] == s[k] {
      assert g[seg.address + k] == f[seg.address + k];
    }
    assert r == s;
  }

  lemma NotBlankIsMissing(f: Flash, seg: Segment)
    requires BlankAt(f, seg.address, |seg.data|) && !AllBlank(seg.data)
    ensures !InFlash(f, seg)
  {
  }

  /** The erase of segment b is served, its only chunk is not. */
  lemma BadSegmentPlan(segs: seq<Segment>, chunk: nat, b: nat, f: Flash) returns (fs: seq<Flash>)
    requires Programs(segs, chunk) && b < |segs| && !Unambiguous(segs[b], chunk)
    ensures Plan(Requests(segs, chunk, b + 1), fs, Begin(segs, chunk, b))
    ensures Begin(segs, chunk, b + 1) == Begin(segs, chunk, b) + 2 && !InFlash(fs[|fs| - 1], segs[b])
  {
    var head, seg := Requests(segs, chunk, b), segs[b];
    var fa := SoundPlan(segs, chunk, b, f);
    var g := EraseIsGood(fa[|head|], seg);
    PiecesAscend(seg.address, seg.data, chunk);
    WriteCanFail(g, seg.address, seg.data);
    AppendBad(head, fa, EraseFrame(seg.address, |seg.data|), WriteFrame(seg.address, seg.data), g);
    assert Script(seg, chunk) == [EraseFrame(seg.address, |seg.data|), WriteFrame(seg.address, seg.data)];
    fs := fa + [g, g];
    NotBlankIsMissing(g, seg);
  }

  /** A session that goes through although segment b's only chunk was never written. */
  lemma {:induction false} MissingPlan(segs: seq<Segment>, chunk: nat, b: nat, m: nat, f: Flash)
    returns (fs: seq<Flash>)
    requires Programs(segs, chunk) && b < m <= |segs| && !Unambiguous(segs[b], chunk)
    ensures && Plan(Requests(segs, chunk, m), fs, Begin(segs, chunk, b))
            && Begin(segs, chunk, b) + 1 < |Requests(segs, chunk, m)|
    ensures !InFlash(fs[|fs| - 1], segs[b])
    decreases m
  {
    if m == b + 1 {
      fs := BadSegmentPlan(segs, chunk, b, f);
    } else {
      var fa := MissingPlan(segs, chunk, b, m - 1, f);
      assert !Overlap(segs[b], segs[m - 1]);
      fs := MissingStep(Requests(segs, chunk, m - 1), fa, segs[m - 1], chunk, segs[b], Begin(segs, chunk, b),
                        Requests(segs, chunk, m));
    }
  }

  /** One more segment programmed while `missing` stays missing. */
  lemma MissingStep(head: seq<Frame>, fa: seq<Flash>, seg: Segment, chunk: nat, missing: Segment, bad: nat,
                    all: seq<Frame>)
    returns (fs: seq<Flash>)
    requires Plan(head, fa, bad) && bad + 1 < |head| && !InFlash(fa[|head|], missing)
    requires Fits(seg) && Fits(missing) && 0 < chunk <= DATA_MAX && !Overlap(missing, seg)
    requires seg.address % SECTOR_SIZE == 0 && missing.address % SECTOR_SIZE == 0
    requires all == head + Script(seg, chunk)
    ensures Plan(all, fs, bad) && bad + 1 < |all| && !InFlash(fs[|fs| - 1], missing)
  {
    var fb := SegmentPlan(seg, chunk, fa[|head|]);
    JoinPlans(head, fa, Script(seg, chunk), fb, bad);
    fs := fa + fb[1..];
    StillMissing(fa[|head|], fb[|fb| - 1], missing, seg);
  }

  /** The erase of a single-chunk segment looks like its write, wherever it stands in the session. */
  lemma {:induction false} EraseIsTwin(segs: seq<Segment>, chunk: nat, b: nat)
    requires Programs(segs, chunk) && b < |segs| && |segs[b].data| <= chunk
    ensures Twin(Session(segs, chunk), 0, Begin(segs, chunk, b)) && Begin(segs, chunk, b) >= PRELUDE
  {
    ScriptWithin(segs, chunk, b);
    ScriptIsTwin(segs[b], chunk);
    TwinWithin(Session(segs, chunk), Requests(segs, chunk, b), Script(segs[b], chunk));
  }

  lemma {:induction false} ScriptWithin(segs: seq<Segment>, chunk: nat, b: nat)
    requires Programs(segs, chunk) && b < |segs|
    ensures Requests(segs, chunk, b) + Script(segs[b], chunk) <= Session(segs, chunk)
  {
    RequestsPrefix(segs, chunk, b + 1, |segs|);
  }

  lemma {:induction false} ScriptIsTwin(seg: Segment, chunk: nat)
    requires Fits(seg) && 0 < chunk <= DATA_MAX && |seg.data| <= chunk
    ensures |Script(seg, chunk)| >= 2 && Counter(Script(seg, chunk)[0]) == Counter(Script(seg, chunk)[1])
  {
    PiecesAscend(seg.address, seg.data, chunk);
    TwinInScript(seg, chunk, 0);
  }

  lemma {:induction false} TwinWithin(script: seq<Frame>, head: seq<Frame>, tail: seq<Frame>)
    requires head + tail <= script && |tail| >= 2 && Counter(tail[0]) == Counter(tail[1])
    ensures Twin(script, 0, |head|)
  {
    assert script[|head|] == (head + tail)[|head|] && script[|head| + 1] == (head + tail)[|head| + 1];
  }
}
