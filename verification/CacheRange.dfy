/**
 Cache maintenance over an address range: the three range loops issue one line operation per
 iteration, with machine-word arithmetic. Addresses are words below `Span`, a whole number of
 lines, and the range is circular as word arithmetic makes it.
 */
module CacheRange {
  datatype CacheOp = Clean | Invalidate | CleanInvalidate

  /** The core's word and line size: 2^64 and 64, or 2^32 and 32. */
  datatype Core = Core(lines: nat, line: nat)
  {
    predicate Valid() {
      line > 0 && lines >= 3
    }

    function Span(): nat {
      lines * line
    }
  }

  type ValidCore = c: Core | c.Valid() witness Core(3, 1)

  const D0: ValidCore := Core(0x400_0000_0000_0000, 64)
  const M0: ValidCore := Core(0x800_0000, 32)

  /** The mask `addr & ~(line - 1)` rounds down to a line boundary. */
  lemma MaskAligns(wide: bv64, narrow: bv32)
    ensures wide & !(64 - 1) == wide - wide % 64
    ensures narrow & !(32 - 1) == narrow - narrow % 32
  {
  }

  /** Line number l holds some byte of the circular range. */
  ghost predicate Meets(core: Core, addr: nat, size: nat, l: nat)
    requires core.Valid()
  {
    exists k: nat :: k < size && LineOfByte(core, addr, k) == l
  }

  /** The line of the range's k-th byte. */
  function LineOfByte(core: Core, addr: nat, k: nat): nat
    requires core.Valid()
  {
    LineOf(core, addr + k)
  }

  /** The line that a word address falls in. */
  function LineOf(core: Core, a: nat): (l: nat)
    requires core.Valid()
  {
    SpanPositive(core);
    (a % core.Span()) / core.line
  }

  lemma SpanPositive(core: Core)
    requires core.Valid()
    ensures core.Span() >= 3 * core.line > 0
  {
  }

  /** What the loop issues: each line operation's address. */
  ghost predicate Exact(core: Core, addr: nat, size: nat, issued: seq<nat>)
    requires core.Valid()
  {
    && (forall i, j :: 0 <= i < j < |issued| ==> LineOf(core, issued[i]) != LineOf(core, issued[j]))
    && (forall i :: 0 <= i < |issued| ==> Meets(core, addr, size, LineOf(core, issued[i])))
    && (forall l: nat :: Meets(core, addr, size, l) ==> exists i :: 0 <= i < |issued| && LineOf(core, issued[i]) == l)
  }

  /** The addresses go up line by line from `start`, and stop with the first that reaches `total` bytes. */
  ghost predicate Swept(core: Core, start: nat, total: nat, issued: seq<nat>)
    requires core.Valid()
  {
    && (forall i :: 0 <= i < |issued| ==> issued[i] == Stepped(core, start, i))
    && Bytes(core, |issued| - 1) < total <= Bytes(core, |issued|)
  }

  function Stepped(core: Core, start: nat, i: nat): nat
    requires core.Valid()
  {
    SpanPositive(core);
    (start + i * core.line) % core.Span()
  }

  /** The size of n lines. */
  function Bytes(core: Core, n: int): int {
    n * core.line
  }

  /** The i-th line from the range's first, counted round. */
  function Nth(core: Core, addr: nat, i: nat): nat
    requires core.Valid()
  {
    (addr / core.line + i) % core.lines
  }

  // -- arithmetic --------------------------------------------------------

  lemma DivUnique(a: int, d: int, q: int, r: int)
    requires d > 0 && a == q * d + r && 0 <= r < d
    ensures a / d == q && a % d == r
  {
    var dq := a / d - q;
    assert dq * d == r - a % d;
    assert dq > 0 ==> dq * d >= d;
    assert dq < 0 ==> dq * d <= -d;
  }

  lemma TimesMonotone(d: int, m: nat)
    requires d > 0
    ensures d * m >= m
  {
  }

  lemma LessTimes(x: int, y: int, m: nat, r: nat)
    requires x < y && r < m
    ensures x * m + r < y * m
  {
    TimesMonotone(y - x, m);
    assert y * m == x * m + (y - x) * m;
  }

  lemma BytesOrdered(core: Core, x: int, y: int)
    requires core.Valid()
    ensures x < y ==> Bytes(core, x) + core.line <= Bytes(core, y)
    ensures Bytes(core, x) < Bytes(core, y) ==> x < y
  {
    if x < y { LessTimes(x, y, core.line, core.line - 1); }
    if y < x { LessTimes(y, x, core.line, core.line - 1); }
  }

  lemma Regroup(d: int, n: int, e: int, m: int)
    ensures (d * n + e) * m == d * (n * m) + e * m
  {
  }

  /** An address q lines and r bytes up lies in line q, counted round. */
  lemma LineOfParts(core: Core, q: nat, r: nat)
    requires core.Valid() && r < core.line
    ensures LineOf(core, q * core.line + r) == q % core.lines
  {
    var n, m := core.lines, core.line;
    var e := q % n;
    Regroup(q / n, n, e, m);
    LessTimes(e, n, m, r);
    DivUnique(q * m + r, n * m, q / n, e * m + r);
    DivUnique(e * m + r, m, e, r);
  }

  lemma AddLine(x: nat, line: nat, span: nat)
    requires span > 0
    ensures (x % span + line) % span == (x + line) % span
  {
    var q := x / span;
    assert x == q * span + x % span;
    var y := x % span + line;
    DivUnique(x + line, span, q + y / span, y % span);
  }

  lemma LineOfWrapped(core: Core, x: nat)
    requires core.Valid()
    ensures LineOf(core, x % core.Span()) == LineOf(core, x)
  {
    AddLine(x, 0, core.Span());
  }

  lemma NoMultipleBetween(d: int, n: nat)
    ensures !(0 < d * n < n)
  {
    if d > 0 { TimesMonotone(d, n); }
    if d <= 0 { assert -d * n >= 0; }
  }

  /** Counted round, lines less than a full turn apart differ. */
  lemma NthDiffer(core: Core, addr: nat, i: nat, j: nat)
    requires core.Valid() && i < j < i + core.lines
    ensures Nth(core, addr, i) != Nth(core, addr, j)
  {
    ModDiffers(addr / core.line + i, addr / core.line + j, core.lines);
  }

  lemma ModDiffers(x: nat, y: nat, n: nat)
    requires x < y < x + n
    ensures x % n != y % n
  {
    assert y - x == (y / n - x / n) * n + (y % n - x % n);
    NoMultipleBetween(y / n - x / n, n);
  }

  // -- what the loop touches ---------------------------------------------

  ghost predicate SameLine(core: Core, addr: nat, start: nat)
    requires core.Valid()
  {
    start / core.line == addr / core.line
  }

  /** The i-th operation falls i lines after the range's first, wherever in its line the sweep started. */
  lemma OpLine(core: Core, addr: nat, start: nat, i: nat)
    requires core.Valid() && SameLine(core, addr, start)
    ensures LineOf(core, Stepped(core, start, i)) == Nth(core, addr, i)
  {
    var m, q := core.line, addr / core.line;
    assert start + i * m == (q + i) * m + start % m;
    LineOfWrapped(core, start + i * m);
    LineOfParts(core, q + i, start % m);
  }

  /** The byte k of the range falls (addr % line + k) / line lines after the first. */
  lemma ByteLine(core: Core, addr: nat, k: nat, i: nat, r: nat)
    requires core.Valid() && addr % core.line + k == Bytes(core, i) + r && r < core.line
    ensures LineOfByte(core, addr, k) == Nth(core, addr, i)
  {
    var m, q := core.line, addr / core.line;
    assert addr + k == (q + i) * m + r;
    LineOfParts(core, q + i, r);
  }

  lemma OpsMeet(core: Core, addr: nat, size: nat, i: nat)
    requires core.Valid() && size > 0 && Bytes(core, i) < size + addr % core.line
    ensures Meets(core, addr, size, Nth(core, addr, i))
  {
    var a, m := addr % core.line, core.line;
    BytesOrdered(core, 0, i);
    var k := if i == 0 then 0 else Bytes(core, i) - a;
    ByteLine(core, addr, k, i, if i == 0 then a else 0);
  }

  lemma BytesAreSwept(core: Core, addr: nat, k: nat, n: nat) returns (i: nat)
    requires core.Valid() && addr % core.line + k < Bytes(core, n)
    ensures i < n && LineOfByte(core, addr, k) == Nth(core, addr, i)
  {
    var x, m := addr % core.line + k, core.line;
    i := x / m;
    ByteLine(core, addr, k, i, x % m);
    BytesOrdered(core, i, n);
  }

  /** The operations fall on the first lines of the range, one after the other. */
  ghost predicate InOrder(core: Core, addr: nat, issued: seq<nat>)
    requires core.Valid()
  {
    forall i :: 0 <= i < |issued| ==> LineOf(core, issued[i]) == Nth(core, addr, i)
  }

  lemma SweptInOrder(core: Core, addr: nat, start: nat, total: nat, issued: seq<nat>)
    requires core.Valid() && SameLine(core, addr, start) && Swept(core, start, total, issued)
    ensures InOrder(core, addr, issued)
  {
    forall i | 0 <= i < |issued| ensures LineOf(core, issued[i]) == Nth(core, addr, i) {
      OpLine(core, addr, start, i);
    }
  }

  lemma InOrderIsExact(core: Core, addr: nat, size: nat, total: nat, issued: seq<nat>)
    requires core.Valid() && size > 0 && total == size + addr % core.line < Bytes(core, core.lines)
    requires InOrder(core, addr, issued) && Bytes(core, |issued| - 1) < total <= Bytes(core, |issued|)
    ensures Exact(core, addr, size, issued)
  {
    var n := |issued|;
    BytesOrdered(core, n - 1, core.lines);
    forall i | 0 <= i < n ensures Meets(core, addr, size, LineOf(core, issued[i])) {
      BytesOrdered(core, i, n - 1);
      OpsMeet(core, addr, size, i);
    }
    forall i, j | 0 <= i < j < n ensures LineOf(core, issued[i]) != LineOf(core, issued[j]) {
      NthDiffer(core, addr, i, j);
    }
    forall l: nat | Meets(core, addr, size, l)
      ensures exists i :: 0 <= i < n && LineOf(core, issued[i]) == l
    {
      var k: nat :| k < size && LineOfByte(core, addr, k) == l;
      var i := BytesAreSwept(core, addr, k, n);
      assert LineOf(core, issued[i]) == l;
    }
  }

  /** When the byte count overflows the word, at most one line is touched and the range meets at least two. */
  lemma OverflowMisses(core: Core, addr: nat, size: nat, issued: seq<nat>)
    requires core.Valid() && |issued| <= 1 && size > 0 && Bytes(core, 1) < size + addr % core.line
    ensures !Exact(core, addr, size, issued)
  {
    BytesOrdered(core, 0, 1);
    OpsMeet(core, addr, size, 0);
    OpsMeet(core, addr, size, 1);
    NthDiffer(core, addr, 0, 1);
    var first, second := Nth(core, addr, 0), Nth(core, addr, 1);
    assert first != second;
    assert Meets(core, addr, size, first) && Meets(core, addr, size, second);
  }

  lemma SweepVerdict(core: Core, addr: nat, size: nat, start: nat, total: nat, issued: seq<nat>)
    requires core.Valid() && SameLine(core, addr, start) && 0 < size < core.Span()
    requires total == Rounded(core, addr, size) && Swept(core, start, total, issued)
    ensures Exact(core, addr, size, issued) <==> size + addr % core.line < core.Span()
  {
    var span, asked := core.Span(), size + addr % core.line;
    assert span == Bytes(core, core.lines);
    BytesOrdered(core, 0, 1);
    BytesOrdered(core, 1, core.lines);
    if asked < span {
      DivUnique(asked, span, 0, asked);
      SweptInOrder(core, addr, start, total, issued);
      InOrderIsExact(core, addr, size, total, issued);
    } else {
      DivUnique(asked, span, 1, asked - span);
      BytesOrdered(core, |issued| - 1, 1);
      OverflowMisses(core, addr, size, issued);
    }
  }

  /** Where the loop starts: the clean loop at the line boundary, the other two at the address itself. */
  function Start(op: CacheOp, core: Core, addr: nat): (start: nat)
    requires core.Valid() && addr < core.Span()
    ensures SameLine(core, addr, start) && start < core.Span()
  {
    var q := addr / core.line;
    var start := if op.Clean? then addr - addr % core.line else addr;
    DivUnique(start, core.line, q, start - q * core.line);
    start
  }

  /** Only the clean loop starts on a line boundary. */
  lemma StartsAt(op: CacheOp, core: Core, addr: nat)
    requires core.Valid() && addr < core.Span()
    ensures op == Clean ==> Start(op, core, addr) % core.line == 0
    ensures op == Invalidate || op == CleanInvalidate ==> Start(op, core, addr) == addr
  {
    if op == Clean {
      var q, start := addr / core.line, Start(op, core, addr);
      DivUnique(start, core.line, q, 0);
    }
  }

  /** The byte count the loop works off, in word arithmetic. */
  function Rounded(core: Core, addr: nat, size: nat): nat
    requires core.Valid()
  {
    SpanPositive(core);
    (size + addr % core.line) % core.Span()
  }

  function Next(core: Core, opAddr: nat): nat
    requires core.Valid()
  {
    SpanPositive(core);
    (opAddr + core.line) % core.Span()
  }

  lemma NothingToDo(core: Core, addr: nat)
    requires core.Valid()
    ensures Exact(core, addr, 0, []) && addr % core.line < core.Span()
  {
    SpanPositive(core);
  }

  /**
   The three range functions. Each line meeting the range is operated on exactly once and no
   other line is, if and only if the rounded byte count fits a machine word.
   */
  method MaintainRange(op: CacheOp, core: Core, addr: nat, size: nat) returns (issued: seq<nat>)
    requires core.Valid() && addr < core.Span() && size < core.Span()
    ensures Exact(core, addr, size, issued) <==> size + addr % core.line < core.Span()
    ensures if size == 0 then issued == []
            else Swept(core, Start(op, core, addr), Rounded(core, addr, size), issued)
  {
    issued := [];
    if size == 0 {
      NothingToDo(core, addr);
      return;
    }
    var start, total := Start(op, core, addr), Rounded(core, addr, size);
    issued := Sweep(core, start, total);
    SweepVerdict(core, addr, size, start, total, issued);
  }

  lemma FirstStep(core: Core, start: nat)
    requires core.Valid() && start < core.Span()
    ensures Stepped(core, start, 0) == start && Bytes(core, 0) == 0 && Bytes(core, -1) < 0
  {
    DivUnique(start, core.Span(), 0, start);
  }

  lemma NextStep(core: Core, start: nat, i: nat)
    requires core.Valid()
    ensures Next(core, Stepped(core, start, i)) == Stepped(core, start, i + 1)
    ensures Bytes(core, i + 1) == Bytes(core, i) + core.line
  {
    AddLine(start + i * core.line, core.line, core.Span());
    assert start + i * core.line + core.line == start + (i + 1) * core.line;
  }

  /** The loop the three share: `op_addr` wraps, `op_size` saturates at zero. */
  method Sweep(core: Core, start: nat, total: nat) returns (issued: seq<nat>)
    requires core.Valid() && start < core.Span()
    ensures Swept(core, start, total, issued)
  {
    issued := [];
    var opAddr, opSize := start, total;
    ghost var bytes, before := 0, Bytes(core, -1);
    FirstStep(core, start);
    while opSize > 0
      invariant forall i :: 0 <= i < |issued| ==> issued[i] == Stepped(core, start, i)
      invariant opAddr == Stepped(core, start, |issued|)
      invariant bytes == Bytes(core, |issued|) && before == Bytes(core, |issued| - 1) < total
      invariant opSize == if bytes < total then total - bytes else 0
    {
      NextStep(core, start, |issued|);
      before, bytes := bytes, bytes + core.line;
      issued := issued + [opAddr];
      opAddr := Next(core, opAddr);
      opSize := if opSize > core.line then opSize - core.line else 0;
    }
  }
}
