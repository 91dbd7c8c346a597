/**
 What flashing a segment through the mailbox leaves in the chip, and which orders of
 segments leave each other alone. The erase of a segment reaches out to the enclosing
 4 KiB sectors, or 64 KiB blocks for the LP core's segment.
 */
module Layout {
  import opened Nor
  import opened FlashOps
  import opened Segments

  const LP_OFFSET: nat := 0x0C0000
  const D0_OFFSET: nat := 0x100000

  function BlockCeil(x: nat): (y: nat)
    ensures x <= y < x + BLOCK_SIZE && y % BLOCK_SIZE == 0
  {
    x + BLOCK_SIZE - 1 - (x + BLOCK_SIZE - 1) % BLOCK_SIZE
  }

  /** The range the host asks to erase. */
  function EraseAddress(seg: Segment): nat {
    if seg.address == LP_OFFSET then seg.address - seg.address % BLOCK_SIZE else seg.address
  }

  function EraseLength(seg: Segment): nat {
    if seg.address == LP_OFFSET then BlockCeil(seg.End()) - EraseAddress(seg) else |seg.data|
  }

  /** The range the stub then erases. */
  function ZoneBase(seg: Segment): nat {
    SectorFloor(EraseAddress(seg))
  }

  function ZoneEnd(seg: Segment): nat {
    if seg.address == LP_OFFSET then BlockCeil(seg.End()) else SectorCeil(seg.End())
  }

  /** The LP core's segment is erased in whole 64 KiB blocks, as few as hold it; any other as long as it is. */
  lemma EraseIsRounded(seg: Segment)
    requires Fits(seg)
    ensures var base, end := EraseAddress(seg), EraseAddress(seg) + EraseLength(seg);
            if seg.address == 0x0C0000 then
              && base % 0x10000 == 0 && end % 0x10000 == 0
              && base <= seg.address < base + 0x10000 && seg.End() <= end < seg.End() + 0x10000
            else base == seg.address && end == seg.End()
  {
  }

  lemma ZoneOnChip(seg: Segment)
    requires Fits(seg)
    ensures 0 < EraseLength(seg) && EraseAddress(seg) + EraseLength(seg) <= CAPACITY
    ensures ZoneBase(seg) + EraseSpan(EraseAddress(seg), EraseLength(seg)) == ZoneEnd(seg) <= CAPACITY
    ensures ZoneBase(seg) <= seg.address && seg.End() <= ZoneEnd(seg)
  {
    assert CAPACITY % BLOCK_SIZE == 0;
    EraseSpanOnChip(EraseAddress(seg), EraseLength(seg));
    if seg.address == LP_OFFSET {
      BlocksAreSectors(BlockCeil(seg.End()));
    }
  }

  lemma BlocksAreSectors(x: nat)
    requires x % BLOCK_SIZE == 0
    ensures SectorCeil(x) == x
  {
    assert x == x / BLOCK_SIZE * 16 * SECTOR_SIZE;
  }

  /** Zone erased, then the segment's data programmed. */
  function Flashed(f: Flash, seg: Segment): (g: Flash)
    requires Fits(seg)
  {
    Programmed(Erased(f, ZoneBase(seg), ZoneEnd(seg) - ZoneBase(seg)), seg.address, seg.data)
  }

  /** Cell by cell: the segment's bytes, 0xFF in the rest of the zone, and everything else as before. */
  lemma FlashedCells(f: Flash, seg: Segment, c: nat)
    requires Fits(seg) && c < CAPACITY
    ensures Flashed(f, seg)[c] ==
            if seg.address <= c < seg.End() then seg.data[c - seg.address]
            else if ZoneBase(seg) <= c < ZoneEnd(seg) then BLANK
            else f[c]
  {
    ZoneOnChip(seg);
    WithinIsInterval(c, ZoneBase(seg), ZoneEnd(seg) - ZoneBase(seg));
    WithinIsInterval(c, seg.address, |seg.data|);
    if seg.address <= c < seg.End() {
      assert Offset(c, seg.address) == c - seg.address;
      BlankAnd(seg.data[c - seg.address]);
    }
  }

  lemma BlankAnd(x: Byte)
    ensures BLANK & x == x
  {
  }

  /** Every byte of s that t's erase reaches is 0xFF anyway. */
  ghost predicate Spares(t: Segment, s: Segment) {
    forall k :: 0 <= k < |s.data| && ZoneBase(t) <= s.address + k < ZoneEnd(t) ==> s.data[k] == BLANK
  }

  lemma FlashedIsInFlash(f: Flash, seg: Segment)
    requires Fits(seg)
    ensures InFlash(Flashed(f, seg), seg)
  {
    var r := ReadBack(Flashed(f, seg), seg.address, |seg.data|);
    forall k | 0 <= k < |seg.data| ensures r[k] == seg.data[k] {
      FlashedCells(f, seg, seg.address + k);
    }
  }

  /** Flashing t leaves a non-overlapping s in place exactly when t's erase zone spares it. */
  lemma IntactExactlyWhenSpared(f: Flash, s: Segment, t: Segment)
    requires Fits(s) && Fits(t) && !Overlap(s, t) && InFlash(f, s)
    ensures InFlash(Flashed(f, t), s) <==> Spares(t, s)
  {
    var r := ReadBack(Flashed(f, t), s.address, |s.data|);
    forall k | 0 <= k < |s.data|
      ensures r[k] == if ZoneBase(t) <= s.address + k < ZoneEnd(t) then BLANK else s.data[k]
    {
      SparedByte(f, s, t, k);
    }
    if Spares(t, s) {
      assert r == s.data;
    } else {
      var k :| 0 <= k < |s.data| && ZoneBase(t) <= s.address + k < ZoneEnd(t) && s.data[k] != BLANK;
      assert r[k] != s.data[k];
    }
  }

  lemma SparedByte(f: Flash, s: Segment, t: Segment, k: nat)
    requires Fits(s) && Fits(t) && !Overlap(s, t) && InFlash(f, s) && k < |s.data|
    ensures ReadBack(Flashed(f, t), s.address, |s.data|)[k]
         == if ZoneBase(t) <= s.address + k < ZoneEnd(t) then BLANK else s.data[k]
  {
    FlashedCells(f, t, s.address + k);
    assert ReadBack(f, s.address, |s.data|)[k] == f[s.address + k];
  }

  // ---- several segments ----

  /** All segments flashed in order. */
  function FlashedAll(f: Flash, segs: seq<Segment>, n: nat): (g: Flash)
    requires n <= |segs| && forall k :: 0 <= k < |segs| ==> Fits(segs[k])
    decreases n
  {
    if n == 0 then f else Flashed(FlashedAll(f, segs, n - 1), segs[n - 1])
  }

  /** The order the host uses: starts on sector boundaries, and whatever precedes the LP segment lies below it. */
  ghost predicate HostOrder(segs: seq<Segment>) {
    && (forall k :: 0 <= k < |segs| ==> Fits(segs[k]) && segs[k].address % SECTOR_SIZE == 0)
    && (forall i, j :: 0 <= i < j < |segs| && segs[j].address == LP_OFFSET ==> segs[i].address < LP_OFFSET)
  }

  lemma ZoneIsClear(segs: seq<Segment>, i: nat, j: nat)
    requires HostOrder(segs) && PairwiseDisjoint(segs) && i < j < |segs|
    ensures segs[i].End() <= ZoneBase(segs[j]) || ZoneEnd(segs[j]) <= segs[i].address
  {
    var s, t := segs[i], segs[j];
    assert !Overlap(s, t);
    if t.address == LP_OFFSET {
      assert s.address < t.address;
    } else {
      SectorsStayClear(t, s);
    }
  }

  /** Flashing every segment in the host's order leaves every one of them in flash. */
  lemma {:induction false} EverySegmentSurvives(f: Flash, segs: seq<Segment>, n: nat, i: nat)
    requires HostOrder(segs) && PairwiseDisjoint(segs) && i < n <= |segs|
    ensures InFlash(FlashedAll(f, segs, n), segs[i])
    decreases n
  {
    var g := FlashedAll(f, segs, n - 1);
    if i == n - 1 {
      FlashedIsInFlash(g, segs[i]);
    } else {
      EverySegmentSurvives(f, segs, n - 1, i);
      ZoneIsClear(segs, i, n - 1);
      IntactExactlyWhenSpared(g, segs[i], segs[n - 1]);
    }
  }

  /** The list built from the build outputs: boot2, two partition tables and firmware, then LP, then D0. */
  function FlashList(m0: seq<seq<Byte>>, lp: seq<Byte>, d0: seq<Byte>): (segs: seq<Segment>)
    requires |m0| == 4 || m0 == []
  {
    (if m0 == [] then [] else
       [Segment(0x000000, m0[0]), Segment(0x00E000, m0[1]), Segment(0x00F000, m0[2]), Segment(0x010000, m0[3])])
    + (if lp == [] then [] else [Segment(LP_OFFSET, lp)])
    + (if d0 == [] then [] else [Segment(D0_OFFSET, d0)])
  }

  lemma FlashListIsInOrder(m0: seq<seq<Byte>>, lp: seq<Byte>, d0: seq<Byte>)
    requires |m0| == 4 || m0 == []
    requires forall seg :: seg in FlashList(m0, lp, d0) ==> Fits(seg)
    ensures HostOrder(FlashList(m0, lp, d0))
    ensures var segs := FlashList(m0, lp, d0); forall i, j :: 0 <= i < j < |segs| ==> segs[i].address < segs[j].address
  {
  }

  /** Every image at its place: boot2, two partition tables and firmware of the M0 core, the LP image, the D0 image. */
  ghost predicate ImagesIn(f: Flash, m0: seq<seq<Byte>>, lp: seq<Byte>, d0: seq<Byte>) {
    && (|m0| == 4 ==>
          && ReadBack(f, 0x000000, |m0[0]|) == m0[0] && ReadBack(f, 0x00E000, |m0[1]|) == m0[1]
          && ReadBack(f, 0x00F000, |m0[2]|) == m0[2] && ReadBack(f, 0x010000, |m0[3]|) == m0[3])
    && (lp != [] ==> ReadBack(f, 0x0C0000, |lp|) == lp)
    && (d0 != [] ==> ReadBack(f, 0x100000, |d0|) == d0)
  }

  /** With every segment of the list in flash, every image is at its place. */
  lemma ListedImagesAreIn(f: Flash, m0: seq<seq<Byte>>, lp: seq<Byte>, d0: seq<Byte>)
    requires |m0| == 4 || m0 == []
    requires forall seg :: seg in FlashList(m0, lp, d0) ==> InFlash(f, seg)
    ensures ImagesIn(f, m0, lp, d0)
  {
    if |m0| == 4 {
      var four := [Segment(0x000000, m0[0]), Segment(0x00E000, m0[1]), Segment(0x00F000, m0[2]),
                   Segment(0x010000, m0[3])];
      assert four[0] in FlashList(m0, lp, d0) && four[1] in FlashList(m0, lp, d0);
      assert four[2] in FlashList(m0, lp, d0) && four[3] in FlashList(m0, lp, d0);
    }
    if lp != [] {
      assert Segment(0x0C0000, lp) in FlashList(m0, lp, d0);
    }
    if d0 != [] {
      assert Segment(0x100000, d0) in FlashList(m0, lp, d0);
    }
  }

  /**
   Two segments that pass the overlap check but share a sector: the later one wipes the end of the
   earlier one unless that is 0xFF. The list built by the host never comes to this, its starts
   being constants on sector boundaries; the overlap check does not ask for it.
   */
  lemma UnalignedNeighboursCollide(f: Flash, s: Segment, t: Segment)
    requires Fits(s) && Fits(t) && s.End() <= t.address && SectorFloor(t.address) < s.End()
    requires s.data[|s.data| - 1] != BLANK
    ensures PairwiseDisjoint([s, t]) && !InFlash(Flashed(Flashed(f, s), t), s)
  {
    FlashedIsInFlash(f, s);
    ZoneOnChip(t);
    IntactExactlyWhenSpared(Flashed(f, s), s, t);
    var k := |s.data| - 1;
    assert ZoneBase(t) <= s.address + k < ZoneEnd(t);
  }
}
