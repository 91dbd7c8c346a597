/**
 Flash segments, the requests that program them, and what keeps segments out of each
 other's way.
 */
module Segments {
  import opened MachineWord
  import opened Nor
  import opened FlashOps
  import opened Checksums
  import opened Service

  datatype Segment = Segment(address: nat, data: seq<Byte>) {
    function End(): nat {
      address + |data|
    }
  }

  /** A segment that is not empty and lies on the chip. */
  predicate Fits(seg: Segment) {
    seg.data != [] && seg.End() <= CAPACITY
  }

  ghost predicate InFlash(f: Flash, seg: Segment) {
    ReadBack(f, seg.address, |seg.data|) == seg.data
  }

  predicate AllBlank(data: seq<Byte>) {
    forall k :: 0 <= k < |data| ==> data[k] == BLANK
  }

  /** The range holds nothing but 0xFF. */
  ghost predicate BlankAt(f: Flash, address: nat, n: nat) {
    AllBlank(ReadBack(f, address, n))
  }

  /** Outside [lo, hi) the two agree. */
  ghost predicate SameOutside(f: Flash, g: Flash, lo: nat, hi: nat) {
    forall c: nat :: c < CAPACITY && !(lo <= c < hi) ==> g[c] == f[c]
  }

  // ---- requests ----

  function EraseFrame(address: nat, length: nat): Frame
    requires address < WORD && length < WORD
  {
    Frame(CMD_ERASE, address, length, true, 0, [])
  }

  function WriteFrame(address: nat, payload: seq<Byte>): Frame
    requires address < WORD && |payload| < WORD
  {
    Frame(CMD_WRITE_VERIFY, address, |payload|,
          true, Checksum(payload), payload)
  }

  /** One chunk of a segment. */
  datatype Piece = Piece(address: nat, payload: seq<Byte>) {
    function End(): nat {
      address + |payload|
    }
  }

  /** The write loop of a segment: full chunks, then what is left. */
  function Pieces(address: nat, data: seq<Byte>, chunk: nat): (pieces: seq<Piece>)
    requires 0 < chunk
    decreases |data|
  {
    if data == [] then []
    else if |data| <= chunk then [Piece(address, data)]
    else [Piece(address, data[..chunk])] + Pieces(address + chunk, data[chunk..], chunk)
  }

  /** Non-empty pieces of at most `chunk` bytes, in ascending order inside [lo, hi). */
  ghost predicate Ascending(pieces: seq<Piece>, lo: nat, hi: nat, chunk: nat) {
    && (forall k :: 0 <= k < |pieces| ==>
          0 < |pieces[k].payload| <= chunk && lo <= pieces[k].address && pieces[k].End() <= hi)
    && (forall i, j :: 0 <= i < j < |pieces| ==> pieces[i].End() <= pieces[j].address)
  }

  /** Erase, then write chunk by chunk. */
  function Script(seg: Segment, chunk: nat): (frames: seq<Frame>)
    requires Fits(seg) && 0 < chunk <= DATA_MAX
    ensures |frames| == 1 + |Pieces(seg.address, seg.data, chunk)|
  {
    var pieces := Pieces(seg.address, seg.data, chunk);
    PiecesAscend(seg.address, seg.data, chunk);
    [EraseFrame(seg.address, |seg.data|)]
    + seq(|pieces|, (k: nat) requires k < |pieces| => WriteFrame(pieces[k].address, pieces[k].payload))
  }

  // ---- chunks tile the segment ----

  lemma {:induction false} PiecesAscend(address: nat, data: seq<Byte>, chunk: nat)
    requires 0 < chunk
    ensures Ascending(Pieces(address, data, chunk), address, address + |data|, chunk)
    ensures data != [] ==> Pieces(address, data, chunk) != []
    ensures 0 < |data| <= chunk ==> Pieces(address, data, chunk) == [Piece(address, data)]
    ensures |data| > chunk ==>
              |Pieces(address, data, chunk)| > 1 && Pieces(address, data, chunk)[0].End() == address + chunk
    decreases |data|
  {
    if |data| > chunk {
      PiecesAscend(address + chunk, data[chunk..], chunk);
      var rest := Pieces(address + chunk, data[chunk..], chunk);
      var all := Pieces(address, data, chunk);
      assert all == [Piece(address, data[..chunk])] + rest;
      forall i, j | 0 <= i < j < |all| ensures all[i].End() <= all[j].address {
        assert all[j] == rest[j - 1];
        if i > 0 { assert all[i] == rest[i - 1]; }
      }
    }
  }

  lemma ReadBackConcat(f: Flash, address: nat, m: nat, n: nat)
    ensures ReadBack(f, address, m + n) == ReadBack(f, address, m) + ReadBack(f, address + m, n)
  {
    var r, s := ReadBack(f, address, m + n), ReadBack(f, address, m) + ReadBack(f, address + m, n);
    forall k | 0 <= k < m + n ensures r[k] == s[k] {
      if k >= m {
        assert s[k] == CellAt(f, address + m, k - m) && address + m + (k - m) == address + k;
      }
    }
  }

  /** If every chunk is in flash, so is the whole. */
  lemma {:induction false} PiecesMakeTheWhole(f: Flash, address: nat, data: seq<Byte>, chunk: nat)
    requires 0 < chunk
    requires forall p :: p in Pieces(address, data, chunk) ==> ReadBack(f, p.address, |p.payload|) == p.payload
    ensures ReadBack(f, address, |data|) == data
    decreases |data|
  {
    if data == [] {
    } else if |data| <= chunk {
      assert Piece(address, data) in Pieces(address, data, chunk);
    } else {
      var first, rest := Piece(address, data[..chunk]), Pieces(address + chunk, data[chunk..], chunk);
      assert Pieces(address, data, chunk) == [first] + rest;
      PiecesMakeTheWhole(f, address + chunk, data[chunk..], chunk);
      assert first in Pieces(address, data, chunk);
      ReadBackConcat(f, address, chunk, |data| - chunk);
      SplitAt(data, chunk);
    }
  }

  lemma SplitAt(data: seq<Byte>, n: nat)
    requires n <= |data|
    ensures data[..n] + data[n..] == data
  {
  }

  // ---- segments and their erase ranges ----

  /** End of the 4 KiB sectors that a range meets. */
  function SectorCeil(x: nat): (y: nat)
    ensures x <= y < x + SECTOR_SIZE && y % SECTOR_SIZE == 0
  {
    SectorFloor(x + SECTOR_SIZE - 1)
  }

  lemma EraseSpanOnChip(address: nat, length: nat)
    requires 0 < length && address + length <= CAPACITY
    ensures SectorFloor(address) + EraseSpan(address, length) == SectorCeil(address + length) <= CAPACITY
  {
    EraseSpanCovers(address, length);
    assert CAPACITY % SECTOR_SIZE == 0;
  }

  predicate Overlap(s: Segment, t: Segment) {
    s.address < t.End() && t.address < s.End()
  }

  ghost predicate PairwiseDisjoint(segs: seq<Segment>) {
    forall i, j :: 0 <= i < j < |segs| && segs[i].data != [] && segs[j].data != [] ==> !Overlap(segs[i], segs[j])
  }

  /** `validate_flash_segments_do_not_overlap`; empty segments are passed over. */
  method ValidateNoOverlap(segs: seq<Segment>) returns (ok: bool)
    ensures ok <==> PairwiseDisjoint(segs)
  {
    var ranges: seq<nat> := [];
    var k := 0;
    while k < |segs|
      invariant 0 <= k <= |segs| && PairwiseDisjoint(segs[..k])
      invariant forall m :: m in ranges <==> 0 <= m < k && segs[m].data != []
    {
      if segs[k].data != [] {
        var r := 0;
        while r < |ranges|
          invariant 0 <= r <= |ranges|
          invariant forall m :: m in ranges[..r] ==> 0 <= m < k && !Overlap(segs[m], segs[k])
        {
          var m := ranges[r];
          assert m in ranges;
          if segs[k].address < segs[m].End() && segs[m].address < segs[k].End() {
            return false;
          }
          assert ranges[..r + 1] == ranges[..r] + [m];
          r := r + 1;
        }
        assert ranges[..r] == ranges;
        ranges := ranges + [k];
      }
      k := k + 1;
    }
    assert segs[..k] == segs;
    ok := true;
  }

  /** The sectors erased for one aligned segment stay clear of every other aligned segment. */
  lemma SectorsStayClear(s: Segment, t: Segment)
    requires Fits(s) && Fits(t) && !Overlap(s, t)
    requires s.address % SECTOR_SIZE == 0 && t.address % SECTOR_SIZE == 0
    ensures SectorCeil(s.End()) <= t.address || t.End() <= s.address
  {
  }
}
