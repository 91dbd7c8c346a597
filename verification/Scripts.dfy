/**
 Scripts of requests, as a host works through them: when one request's acknowledgement can pass
 for another's, which requests may still be on their way, and what an acknowledged request
 promises about the flash. Both acknowledge modes build on this.
 */
module Scripts {
  import opened Nor
  import opened FlashOps
  import opened Service
  import opened Segments

  const ATTEMPTS: nat := 3

  /** Where the host is inside the current command's attempt loop. */
  datatype Phase = Sending(attempt: nat) | Waiting(attempt: nat) | Raised

  /** After a failed attempt: the ping loop goes on until its deadline, other commands try three times. */
  function NextAttempt(q: Frame, attempt: nat): Phase {
    if q.command == CMD_PING || attempt + 1 < ATTEMPTS then Sending(attempt + 1) else Raised
  }

  ghost predicate ScriptOk(script: seq<Frame>) {
    forall q :: q in script ==> WellFormed(q) && |q.payload| <= DATA_MAX
  }

  // ---- acknowledgements that look alike ----

  /** Request i carries the counter of the one after it, so that its acknowledgement passes for the other's. */
  predicate Twin(script: seq<Frame>, prelude: nat, i: nat) {
    prelude <= i && i + 1 < |script| && Counter(script[i]) == Counter(script[i + 1])
  }

  /** Erasing for `q` leaves exactly what `w` asks for. */
  ghost predicate BlankPair(q: Frame, w: Frame) {
    && q.command == CMD_ERASE && q.headerOk && w.command == CMD_WRITE_VERIFY
    && w.address == q.address && |w.payload| == q.length && 0 < q.length && q.address + q.length <= CAPACITY
    && AllBlank(w.payload)
  }

  /** A twin that does no harm: its effect is the next request's too. */
  ghost predicate Mild(script: seq<Frame>, prelude: nat, i: nat) {
    Twin(script, prelude, i) && BlankPair(script[i], script[i + 1])
  }

  ghost predicate Risky(script: seq<Frame>, prelude: nat, i: nat) {
    Twin(script, prelude, i) && !BlankPair(script[i], script[i + 1])
  }

  ghost predicate NoneRisky(script: seq<Frame>, prelude: nat) {
    forall i: nat :: !Risky(script, prelude, i)
  }

  /** No three requests in a row look alike. */
  ghost predicate NoTriplets(script: seq<Frame>, prelude: nat) {
    forall i: nat, j: nat :: Twin(script, prelude, i) && Twin(script, prelude, j) ==> j != i + 1
  }

  /** The first request after the prelude shares its counter with none of the prelude. */
  ghost predicate StartsApart(script: seq<Frame>, prelude: nat) {
    forall j :: 0 <= j < prelude < |script| ==> Counter(script[j]) != Counter(script[prelude])
  }

  /** While the host works on a risky request it is in its first attempt. */
  ghost predicate RiskyOnce(script: seq<Frame>, prelude: nat, pos: nat, phase: Phase) {
    Risky(script, prelude, pos) ==> phase == Sending(0) || phase == Waiting(0)
  }

  /** The oldest request whose acknowledgement can have moved the host on to `pos`. */
  ghost function Behind(script: seq<Frame>, prelude: nat, pos: nat): (lo: nat)
    ensures lo <= pos && (pos > prelude ==> pos <= lo + 2)
    ensures pos > prelude && pos == lo + 2 ==> Mild(script, prelude, lo)
  {
    if pos <= prelude then 0
    else if pos >= 2 && Mild(script, prelude, pos - 2) then pos - 2
    else pos - 1
  }

  /** The oldest request that can still be in flight while the host works on `pos`, if no risky one was repeated. */
  ghost function Oldest(script: seq<Frame>, prelude: nat, pos: nat): (lo: nat)
    ensures lo <= pos && Behind(script, prelude, pos) <= lo
  {
    if pos > prelude && Risky(script, prelude, pos - 1) then pos else Behind(script, prelude, pos)
  }

  /** Whose acknowledgement it is that carries the counter of request `pos`: its own, or that of a mild twin. */
  ghost predicate Stands(script: seq<Frame>, prelude: nat, pos: nat, tag: nat) {
    tag == pos || (tag + 1 == pos && Mild(script, prelude, tag))
  }

  lemma LookalikeStands(script: seq<Frame>, prelude: nat, pos: nat, tag: nat)
    requires StartsApart(script, prelude) && NoTriplets(script, prelude) && prelude <= pos < |script|
    requires Behind(script, prelude, pos) <= tag <= pos && Counter(script[tag]) == Counter(script[pos])
    requires pos > prelude && tag == pos - 1 ==> !Risky(script, prelude, tag)
    ensures Stands(script, prelude, pos, tag)
  {
    if pos > prelude && tag + 2 == pos {
      assert Twin(script, prelude, tag) && Twin(script, prelude, tag + 1);
    }
  }

  /** Nothing older than the acknowledged request needs to be expected from then on. */
  lemma StandsBehind(script: seq<Frame>, prelude: nat, pos: nat, tag: nat)
    requires NoTriplets(script, prelude) && prelude <= pos && Stands(script, prelude, pos, tag)
    ensures Behind(script, prelude, pos + 1) <= tag
    ensures tag != pos ==> Oldest(script, prelude, pos + 1) <= tag && !Risky(script, prelude, pos)
  {
    if tag != pos {
      assert !Twin(script, prelude, pos);
    }
  }

  // ---- what a request promises ----

  ghost predicate Disturbs(q: Frame, w: Frame) {
    w.command == CMD_WRITE_VERIFY && exists c: nat :: c < CAPACITY && Touches(q, c) && Within(c, w.address, |w.payload|)
  }

  /** No request touches what an earlier one wrote. */
  ghost predicate NonInterfering(script: seq<Frame>) {
    forall i, j :: 0 <= j < i < |script| ==> !Disturbs(script[i], script[j])
  }

  /** Request i holds in flash, and so does the next one if i is its mild twin. */
  ghost predicate Promised(script: seq<Frame>, prelude: nat, f: Flash, i: nat)
    requires i < |script|
  {
    Holds(f, script[i]) && (Mild(script, prelude, i) ==> Holds(f, script[i + 1]))
  }

  /** Every request the host has moved past holds in flash. */
  ghost predicate Settled(script: seq<Frame>, prelude: nat, pos: nat, f: Flash) {
    forall j :: prelude <= j < pos && j < |script| ==> Holds(f, script[j])
  }

  /** Serving a request at least as new as `w` leaves `w` in place. */
  lemma ServeKeepsWrite(script: seq<Frame>, f: Flash, g: Flash, i: nat, j: nat, status: nat)
    requires ScriptOk(script) && NonInterfering(script) && j <= i < |script|
    requires Holds(f, script[j]) && Serves(f, script[i], g, status)
    ensures Holds(g, script[j])
  {
    var q, w := script[i], script[j];
    if w.command == CMD_WRITE_VERIFY {
      if i == j {
        ServingAgain(f, q, g, status);
      } else {
        assert !Disturbs(q, w);
        forall c: nat | c < CAPACITY && Within(c, w.address, |w.payload|) ensures g[c] == f[c] {
          ServesOnlyTouched(f, q, g, status, c);
        }
        HoldsOutside(f, g, w);
      }
    }
  }

  /** Erasing the sectors of a range leaves nothing but 0xFF in it. */
  lemma ErasedRange(f: Flash, address: nat, length: nat)
    requires 0 < length && address + length <= CAPACITY
    ensures AllBlank(ReadBack(Erased(f, SectorFloor(address), EraseSpan(address, length)), address, length))
  {
    EraseSpanOnChip(address, length);
    var n := EraseSpan(address, length);
    forall k | 0 <= k < length
      ensures ReadBack(Erased(f, SectorFloor(address), n), address, length)[k] == BLANK
    {
      WithinIsInterval(address + k, SectorFloor(address), n);
    }
  }

  /** An erase, finished or not, keeps and makes the 0xFF that its partner wants. */
  lemma EraseServesBoth(f: Flash, q: Frame, g: Flash, status: nat, w: Frame)
    requires BlankPair(q, w) && WellFormed(q) && Serves(f, q, g, status)
    ensures Holds(f, w) || status == ERR_OK ==> Holds(g, w)
  {
    var n := q.length;
    var done: nat :| Erases(f, q.address, n, g, status, done);
    var r := ReadBack(g, w.address, n);
    if status == ERR_OK {
      ErasedRange(f, q.address, n);
      assert r == w.payload;
    } else if Holds(f, w) {
      forall k | 0 <= k < n ensures r[k] == w.payload[k] {
        assert ReadBack(f, w.address, n)[k] == BLANK;
      }
      assert r == w.payload;
    }
  }

  lemma ServeKeepsPromise(script: seq<Frame>, prelude: nat, f: Flash, g: Flash, i: nat, j: nat, status: nat)
    requires ScriptOk(script) && NonInterfering(script) && j <= i < |script|
    requires Promised(script, prelude, f, j) && Serves(f, script[i], g, status)
    ensures Promised(script, prelude, g, j)
  {
    ServeKeepsWrite(script, f, g, i, j, status);
    if Mild(script, prelude, j) {
      if i == j {
        EraseServesBoth(f, script[j], g, status, script[j + 1]);
      } else {
        ServeKeepsWrite(script, f, g, i, j + 1, status);
      }
    }
  }

  lemma ServeMakesPromise(script: seq<Frame>, prelude: nat, f: Flash, g: Flash, i: nat)
    requires ScriptOk(script) && i < |script| && Serves(f, script[i], g, ERR_OK)
    ensures Promised(script, prelude, g, i)
  {
    ServedWriteHolds(f, script[i], g);
    if Mild(script, prelude, i) {
      EraseServesBoth(f, script[i], g, ERR_OK, script[i + 1]);
    }
  }

  /** Serving anything that may still be in flight leaves all settled work in place. */
  lemma ServeKeepsSettled(script: seq<Frame>, prelude: nat, pos: nat, f: Flash, g: Flash, i: nat, status: nat)
    requires ScriptOk(script) && NonInterfering(script) && Behind(script, prelude, pos) <= i < |script|
    requires Settled(script, prelude, pos, f) && Serves(f, script[i], g, status)
    ensures Settled(script, prelude, pos, g)
  {
    forall j | prelude <= j < pos && j < |script| ensures Holds(g, script[j]) {
      if j <= i {
        ServeKeepsWrite(script, f, g, i, j, status);
      } else {
        EraseServesBoth(f, script[i], g, status, script[j]);
      }
    }
  }

  // ---- indices in order ----

  predicate Sorted(tags: seq<nat>) {
    forall i, j :: 0 <= i < j < |tags| ==> tags[i] <= tags[j]
  }

  predicate Bounded(tags: seq<nat>, lo: nat, hi: nat) {
    forall k :: 0 <= k < |tags| ==> lo <= tags[k] <= hi
  }

  function Copies(tags: seq<nat>, tag: nat): nat {
    multiset(tags)[tag]
  }

  /** Removing any one index. */
  lemma DropKeeps(tags: seq<nat>, k: nat, lo: nat, hi: nat)
    requires k < |tags| && Sorted(tags) && Bounded(tags, lo, hi)
    ensures Sorted(tags[..k] + tags[k + 1..]) && Bounded(tags[..k] + tags[k + 1..], lo, hi)
  {
    var rest := tags[..k] + tags[k + 1..];
    forall i | 0 <= i < |rest| ensures rest[i] == tags[if i < k then i else i + 1] {
    }
  }

  lemma DropCopies(tags: seq<nat>, k: nat, tag: nat)
    requires k < |tags|
    ensures Copies(tags[..k] + tags[k + 1..], tag) == Copies(tags, tag) - if tags[k] == tag then 1 else 0
  {
    assert tags == tags[..k] + [tags[k]] + tags[k + 1..];
  }

  lemma FirstCopy(tags: seq<nat>, tag: nat)
    requires tags != []
    ensures Copies(tags[1..], tag) == Copies(tags, tag) - if tags[0] == tag then 1 else 0
  {
    DropCopies(tags, 0, tag);
    assert tags[..0] + tags[0 + 1..] == tags[1..];
  }

  lemma NoCopyYet(tags: seq<nat>, lo: nat, p: nat)
    requires Bounded(tags, lo, p)
    ensures Copies(tags, p + 1) == 0
  {
    assert p + 1 in multiset(tags) ==> p + 1 in tags;
  }

  /**
   What is left behind an acknowledged request, all of it from `tag` on: nothing too old for the next
   position, given that a risky request has no second copy.
   */
  lemma AfterAcceptance(script: seq<Frame>, prelude: nat, tags: seq<nat>, pos: nat, tag: nat)
    requires NoTriplets(script, prelude) && prelude <= pos && Stands(script, prelude, pos, tag)
    requires Bounded(tags, tag, pos) && (Risky(script, prelude, pos) ==> Copies(tags, pos) == 0)
    ensures Bounded(tags, Oldest(script, prelude, pos + 1), pos + 1)
  {
    StandsBehind(script, prelude, pos, tag);
    if tag == pos && tags != [] {
      assert tags[0] == pos && tags[0] in multiset(tags);
    }
  }

  /** The same, with the acknowledged request at the head of all that is in flight. */
  lemma AcceptedTags(script: seq<Frame>, prelude: nat, tags: seq<nat>, lo: nat, pos: nat)
    requires NoTriplets(script, prelude) && tags != [] && Sorted(tags) && Bounded(tags, lo, pos)
    requires Risky(script, prelude, pos) ==> Copies(tags, pos) <= 1
    requires prelude <= pos ==> Stands(script, prelude, pos, tags[0])
    ensures Sorted(tags[1..]) && Bounded(tags[1..], Oldest(script, prelude, pos + 1), pos + 1)
    ensures Copies(tags[1..], pos + 1) == 0 && Copies(tags, pos + 1) == 0
  {
    var rest, tag := tags[1..], tags[0];
    assert Bounded(rest, tag, pos);
    NoCopyYet(rest, tag, pos);
    NoCopyYet(tags, lo, pos);
    if prelude <= pos {
      FirstCopy(tags, pos);
      StandsBehind(script, prelude, pos, tag);
      AfterAcceptance(script, prelude, rest, pos, tag);
    }
  }
}
