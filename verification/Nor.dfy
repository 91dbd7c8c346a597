/**
 The SPI NOR chip as both flash programs see it: 2^24 byte cells reached through a
 24-bit address. Erasing sets every bit of an aligned sector or block; programming can
 only clear bits, and the address counter of one program command wraps inside its
 256-byte page.

 Two levels are given: the effect of one chip command (`BlockErased`, `PageProgrammed`)
 and the effect a caller wants on a whole range (`Erased`, `Programmed`). The lemmas at
 the end join them one command at a time.
 */
module Nor {
  const CAPACITY: nat := 0x100_0000
  const PAGE_SIZE: nat := 256
  const SECTOR_SIZE: nat := 4096
  const BLOCK_SIZE: nat := 65536

  type Byte = bv8
  const BLANK: Byte := 0xFF

  type Flash = f: seq<Byte> | |f| == CAPACITY witness seq(CAPACITY, (_: nat) => BLANK)

  /** The cell an address selects: only 24 address bits reach the chip. */
  function Cell(address: int): (c: nat)
    ensures c < CAPACITY
  {
    address % CAPACITY
  }

  /** How far cell `c` lies after `base`, going round the end of the chip. */
  function Offset(c: int, base: int): (d: nat)
    ensures d < CAPACITY
  {
    (c - base) % CAPACITY
  }

  /** Cell `c` is one of the `n` cells that start at `base`. */
  predicate Within(c: int, base: int, n: int) {
    Offset(c, base) < n
  }

  lemma OffsetOfCell(address: int, k: nat)
    requires k < CAPACITY
    ensures Offset(Cell(address + k), address) == k
  {
    var a := address + k;
    assert a == a / CAPACITY * CAPACITY + Cell(a);
    assert (Cell(a) - address) == k - (a / CAPACITY) * CAPACITY;
    ModShift(k, -(a / CAPACITY));
  }

  lemma CellOfOffset(c: nat, base: int)
    requires c < CAPACITY
    ensures Cell(base + Offset(c, base)) == c
  {
    var q := (c - base) / CAPACITY;
    assert c - base == q * CAPACITY + Offset(c, base);
    ModShift(c, -q);
  }

  lemma ModShift(k: nat, q: int)
    requires k < CAPACITY
    ensures (k + q * CAPACITY) % CAPACITY == k
  {
  }

  /** On a range that does not run past the end of the chip, cells are plain addresses. */
  lemma WithinIsInterval(c: nat, base: nat, n: nat)
    requires c < CAPACITY && base + n <= CAPACITY
    ensures Within(c, base, n) <==> base <= c < base + n
  {
    if c >= base {
      assert Offset(c, base) == c - base;
    } else {
      assert Offset(c, base) == c - base + CAPACITY;
    }
  }

  // ---- what a caller wants ----

  function Erased(f: Flash, base: int, n: nat): (g: Flash) {
    seq(CAPACITY, (c: nat) requires c < CAPACITY =>
      if Within(c, base, n) then BLANK else f[c])
  }

  function Programmed(f: Flash, base: int, data: seq<Byte>): (g: Flash) {
    seq(CAPACITY, (c: nat) requires c < CAPACITY =>
      if Within(c, base, |data|) then f[c] & data[Offset(c, base)] else f[c])
  }

  function CellAt(f: Flash, base: int, k: int): Byte {
    f[Cell(base + k)]
  }

  /** The bytes found at `base`. */
  function ReadBack(f: Flash, base: int, n: nat): (data: seq<Byte>)
    ensures |data| == n
  {
    seq(n, (k: nat) requires k < n => CellAt(f, base, k))
  }

  // ---- what one chip command does ----

  /** SECTOR_ER or BLOCK64_ER: the aligned block that holds the address is blanked. */
  function BlockErased(f: Flash, address: int, size: nat): (g: Flash)
    requires size > 0
  {
    seq(CAPACITY, (c: nat) requires c < CAPACITY =>
      if c / size == Cell(address) / size then BLANK else f[c])
  }

  /** PAGE_PROG: data byte k lands at the page offset (address + k) mod 256. */
  function PageProgrammed(f: Flash, address: int, data: seq<Byte>): (g: Flash)
    requires |data| <= PAGE_SIZE
  {
    seq(CAPACITY, (c: nat) requires c < CAPACITY =>
      if c / PAGE_SIZE == Cell(address) / PAGE_SIZE && (c - Cell(address)) % PAGE_SIZE < |data|
      then f[c] & data[(c - Cell(address)) % PAGE_SIZE]
      else f[c])
  }

  // ---- joining the two ----

  lemma OffsetSplit(c: int, base: int, m: nat)
    ensures Offset(c, base) >= m ==> Offset(c, base + m) == Offset(c, base) - m
  {
    var d := Offset(c, base);
    if d >= m {
      var q := (c - base) / CAPACITY;
      assert c - base == q * CAPACITY + d;
      ModShift(d - m, q);
    }
  }

  /** A range splits into its first m cells and the rest. */
  lemma WithinSplit(c: int, base: int, m: nat, n: nat)
    ensures Within(c, base, m + n) <==> Within(c, base, m) || Within(c, base + m, n)
  {
    OffsetSplit(c, base, m);
    if Offset(c, base) < m {
    } else {
      assert Offset(c, base + m) == Offset(c, base) - m;
    }
  }

  /** Two consecutive stretches no longer than the chip share no cell. */
  lemma RangesApart(c: int, base: int, m: nat, n: nat)
    requires m + n <= CAPACITY
    ensures !(Within(c, base, m) && Within(c, base + m, n))
  {
    var d := Offset(c, base);
    if d < m {
      var q := (c - base) / CAPACITY;
      assert c - base == q * CAPACITY + d;
      ModShift(d - m + CAPACITY, q - 1);
    }
  }

  lemma AlignedCell(address: int, size: nat)
    requires size == PAGE_SIZE || size == SECTOR_SIZE || size == BLOCK_SIZE
    ensures Cell(address) % size == address % size
  {
    var q := address / CAPACITY;
    assert address == q * CAPACITY + Cell(address);
    if size == PAGE_SIZE {
      assert address == Cell(address) + (q * 65536) * PAGE_SIZE;
    } else if size == SECTOR_SIZE {
      assert address == Cell(address) + (q * 4096) * SECTOR_SIZE;
    } else {
      assert address == Cell(address) + (q * 256) * BLOCK_SIZE;
    }
  }

  /** A multiple of one of the two erase sizes. */
  predicate Aligned(address: int, size: nat) {
    (size == SECTOR_SIZE && address % SECTOR_SIZE == 0) || (size == BLOCK_SIZE && address % BLOCK_SIZE == 0)
  }

  lemma BlockIsRange(c: nat, address: int, size: nat)
    requires c < CAPACITY && Aligned(address, size)
    ensures c / size == Cell(address) / size <==> Within(c, address, size)
  {
    AlignedCell(address, size);
    var a := Cell(address);
    assert Offset(c, address) == (c - a) % CAPACITY by {
      assert c - address == c - a - address / CAPACITY * CAPACITY;
      ModShiftAny(c - a, -(address / CAPACITY));
    }
    if c >= a {
      assert (c - a) % CAPACITY == c - a;
    } else {
      assert (c - a) % CAPACITY == c - a + CAPACITY;
    }
  }

  lemma ModShiftAny(x: int, q: int)
    ensures (x + q * CAPACITY) % CAPACITY == x % CAPACITY
  {
  }

  /** One aligned erase command extends an erased range by its block. */
  lemma EraseStep(f: Flash, base: int, n: nat, size: nat)
    requires Aligned(base + n, size)
    ensures BlockErased(Erased(f, base, n), base + n, size) == Erased(f, base, n + size)
  {
    var g, h := BlockErased(Erased(f, base, n), base + n, size), Erased(f, base, n + size);
    forall c | 0 <= c < CAPACITY
      ensures g[c] == h[c]
    {
      BlockIsRange(c, base + n, size);
      WithinSplit(c, base, n, size);
    }
  }

  lemma PageIsRange(c: nat, address: int, n: nat)
    requires c < CAPACITY && n <= PAGE_SIZE - address % PAGE_SIZE
    ensures c / PAGE_SIZE == Cell(address) / PAGE_SIZE && (c - Cell(address)) % PAGE_SIZE < n
       <==> Within(c, address, n)
    ensures Within(c, address, n) ==> (c - Cell(address)) % PAGE_SIZE == Offset(c, address)
  {
    AlignedCell(address, PAGE_SIZE);
    var a := Cell(address);
    assert Offset(c, address) == (c - a) % CAPACITY by {
      assert c - address == c - a - address / CAPACITY * CAPACITY;
      ModShiftAny(c - a, -(address / CAPACITY));
    }
    if c >= a {
      assert (c - a) % CAPACITY == c - a;
    } else {
      assert (c - a) % CAPACITY == c - a + CAPACITY;
    }
  }

  /** A program command that stays inside its page extends a programmed range. */
  lemma ProgramStep(f: Flash, base: int, data: seq<Byte>, k: nat, n: nat)
    requires k + n <= |data| <= CAPACITY && n <= PAGE_SIZE - (base + k) % PAGE_SIZE
    ensures PageProgrammed(Programmed(f, base, data[..k]), base + k, data[k..k + n])
         == Programmed(f, base, data[..k + n])
  {
    var g := Programmed(f, base, data[..k]);
    var h, r := PageProgrammed(g, base + k, data[k..k + n]), Programmed(f, base, data[..k + n]);
    forall c | 0 <= c < CAPACITY
      ensures h[c] == r[c]
    {
      PageIsRange(c, base + k, n);
      WithinSplit(c, base, k, n);
      OffsetSplit(c, base, k);
      if Within(c, base, k) {
        RangesApart(c, base, k, n);
      }
    }
  }

  /** Programming two consecutive stretches is programming their concatenation. */
  lemma ProgramConcat(f: Flash, base: int, data: seq<Byte>, k: nat, n: nat)
    requires k + n <= |data| <= CAPACITY
    ensures Programmed(Programmed(f, base, data[..k]), base + k, data[k..k + n]) == Programmed(f, base, data[..k + n])
  {
    var g := Programmed(f, base, data[..k]);
    var h, r := Programmed(g, base + k, data[k..k + n]), Programmed(f, base, data[..k + n]);
    forall c | 0 <= c < CAPACITY ensures h[c] == r[c] {
      WithinSplit(c, base, k, n);
      OffsetSplit(c, base, k);
      if Within(c, base, k) {
        RangesApart(c, base, k, n);
      }
    }
  }

  /** Programming a prefix again, or a longer prefix, is programming the longer of the two. */
  lemma ProgramAgain(f: Flash, base: int, data: seq<Byte>, d: nat, e: nat)
    requires d <= |data| && e <= |data|
    ensures Programmed(Programmed(f, base, data[..d]), base, data[..e])
         == Programmed(f, base, data[..if d < e then e else d])
  {
    var g := Programmed(f, base, data[..d]);
    var h, r := Programmed(g, base, data[..e]), Programmed(f, base, data[..if d < e then e else d]);
    forall c | 0 <= c < CAPACITY ensures h[c] == r[c] {
      if Within(c, base, d) && Within(c, base, e) {
        AndTwice(f[c], data[Offset(c, base)]);
      }
    }
  }

  lemma AndTwice(x: Byte, y: Byte)
    ensures (x & y) & y == x & y
  {
  }
}
