/** The sample and character FIFOs of the emulated devices: a ring with head, tail and count. */
module DeviceFifo {
  /** A register has a flag set. */
  predicate On(reg: bv32, bit: bv32) {
    reg & bit != 0
  }

  class Fifo<T(0)> {
    const depth: nat
    const slots: array<T>
    var head: nat
    var tail: nat
    var count: nat

    ghost predicate Valid()
      reads this
    {
      && 0 < depth == slots.Length && head < depth && count <= depth
      && tail == Slot(head, count, depth)
    }

    /** What is queued, oldest first. */
    ghost function Contents(): (s: seq<T>)
      requires Valid()
      reads this, slots
      ensures |s| == count
    {
      seq(count, (i: nat) requires Valid() && i < count reads this, slots => slots[Slot(head, i, depth)])
    }

    constructor (depth: nat)
      requires depth > 0
      ensures Valid() && this.depth == depth && count == 0 && Contents() == [] && fresh(slots)
    {
      this.depth := depth;
      slots := new T[depth];
      head, tail, count := 0, 0, 0;
    }

    method Clear()
      requires Valid()
      modifies this
      ensures Valid() && count == 0 && Contents() == []
    {
      head, tail, count := 0, 0, 0;
    }

    method Push(x: T)
      requires Valid() && count < depth
      modifies this`tail, this`count, slots
      ensures Valid() && count == old(count) + 1 && Contents() == old(Contents()) + [x]
    {
      ghost var before := Contents();
      slots[tail] := x;
      SlotStep(head, count, depth);
      tail := (tail + 1) % depth;
      count := count + 1;
      forall i | 0 <= i < count ensures Contents()[i] == (before + [x])[i] {
        if i < count - 1 {
          SlotsDiffer(head, i, count - 1, depth);
        }
      }
    }

    method Pop() returns (x: T)
      requires Valid() && count > 0
      modifies this`head, this`count
      ensures Valid() && count == old(count) - 1 && old(Contents()) == [x] + Contents()
    {
      ghost var before, first := Contents(), head;
      x := slots[head];
      SlotShift(first, count - 1, depth);
      head := (head + 1) % depth;
      count := count - 1;
      forall i | 0 <= i < count ensures Contents()[i] == before[i + 1] {
        SlotShift(first, i, depth);
      }
      assert before == [before[0]] + Contents();
    }
  }

  /** The i-th slot after `head`, going round. */
  function Slot(head: nat, i: nat, depth: nat): (s: nat)
    requires head < depth && i <= depth
    ensures s < depth
  {
    if head + i < depth then head + i else head + i - depth
  }

  lemma ModIs(x: nat, depth: nat)
    requires x <= depth && depth > 0
    ensures x % depth == if x < depth then x else 0
  {
  }

  lemma SlotStep(head: nat, i: nat, depth: nat)
    requires head < depth && i < depth
    ensures (Slot(head, i, depth) + 1) % depth == Slot(head, i + 1, depth)
  {
    ModIs(Slot(head, i, depth) + 1, depth);
  }

  lemma SlotShift(head: nat, i: nat, depth: nat)
    requires head < depth && i < depth
    ensures (head + 1) % depth == Slot(head, 1, depth)
    ensures Slot(Slot(head, 1, depth), i, depth) == Slot(head, i + 1, depth)
  {
    ModIs(head + 1, depth);
  }

  lemma SlotsDiffer(head: nat, i: nat, j: nat, depth: nat)
    requires head < depth && i < j < depth
    ensures Slot(head, i, depth) != Slot(head, j, depth)
  {
  }
}
