/** The address-to-cell bucketizer of `grid.cpp`. */
module Grids {
  import opened Basics
  import opened Bits

  const MIN_CELL_BYTES: nat := 64
  const MAX_CELL_BYTES: nat := 0x4000_0000

  datatype Grid = Grid(base: nat, end: nat, cols: nat, rows: nat, cellBytes: nat, log2: nat, valid: bool)
  {
    function Cells(): nat {
      cols * rows
    }

    function Span(): int {
      end - base
    }
  }

  function ClampedPow2(v: nat): nat {
    if v <= MIN_CELL_BYTES then MIN_CELL_BYTES
    else if v >= MAX_CELL_BYTES then MAX_CELL_BYTES
    else CeilFrom(MIN_CELL_BYTES, v)
  }

  /** `std::countr_zero` of a power of two. */
  function Log2(v: nat): nat {
    if v <= 1 then 0 else 1 + Log2(v / 2)
  }

  function Configure(base: nat, end: nat, cols: int, rows: int): Grid {
    var c: nat := if cols > 0 then cols else 0;
    var r: nat := if rows > 0 then rows else 0;
    if end <= base || c == 0 || r == 0 then Grid(base, end, c, r, MIN_CELL_BYTES, Log2(MIN_CELL_BYTES), false)
    else
      var span, cells := end - base, CellCount(c, r);
      var perCell := CeilQuotient(span, cells);
      Grid(base, end, c, r, ClampedPow2(perCell), Log2(ClampedPow2(perCell)), true)
  }

  /** Ceiling division, written as quotient plus remainder so that it cannot overflow. */
  function CeilQuotient(x: nat, d: nat): nat
    requires d > 0
  {
    x / d + (if x % d != 0 then 1 else 0)
  }

  function CellCount(c: nat, r: nat): (n: nat)
    requires c > 0 && r > 0
    ensures n == c * r && n > 0
  {
    c * r
  }

  function IndexOf(g: Grid, addr: nat): Option<nat> {
    if !g.valid || addr < g.base then None
    else
      var i := Shr(addr - g.base, g.log2);
      if i >= g.Cells() then None else Some(i)
  }

  predicate CoversWholeSpan(g: Grid) {
    g.valid && g.cellBytes > 0 && g.Span() >= 0 && g.Cells() >= Needed(g)
  }

  /** What `configure` leaves a valid grid with. */
  ghost predicate Good(g: Grid) {
    && g.valid ==> (
      && g.base < g.end && g.cols > 0 && g.rows > 0 && g.Cells() > 0
      && g.cellBytes == Pow2(g.log2)
      && MIN_CELL_BYTES <= g.cellBytes <= MAX_CELL_BYTES)
  }

  lemma {:induction false} Log2OfPow2(k: nat)
    ensures Log2(Pow2(k)) == k
  {
    if k > 0 {
      Log2OfPow2(k - 1);
    }
  }

  lemma ClampedIsPow2(v: nat) returns (k: nat)
    ensures ClampedPow2(v) == Pow2(k)
    ensures MIN_CELL_BYTES <= ClampedPow2(v) <= MAX_CELL_BYTES
    ensures ClampedPow2(v) >= v || ClampedPow2(v) == MAX_CELL_BYTES
    ensures ClampedPow2(v) > MIN_CELL_BYTES ==> ClampedPow2(v) < 2 * v
  {
    assert Pow2(6) == 64;
    assert Pow2(14) == 0x4000 && Pow2(22) == 0x40_0000 && Pow2(30) == MAX_CELL_BYTES;
    if v <= MIN_CELL_BYTES {
      k := 6;
    } else if v >= MAX_CELL_BYTES {
      k := 30;
    } else {
      k := CeilLog2(6, v);
      CeilIsLeast(MIN_CELL_BYTES, v);
      if k > 30 {
        Pow2Grows(31, k);
      }
    }
  }

  lemma {:induction false} Pow2Grows(a: nat, b: nat)
    requires a <= b
    ensures Pow2(a) <= Pow2(b)
    decreases b
  {
    if a < b {
      Pow2Grows(a, b - 1);
    }
  }

  /** A grid is valid exactly for a non-empty span and viewport, and its cell size is then the smallest legal
      power of two under which the cells reach the end of the span (or the largest legal one). */
  lemma ConfigureIsGood(base: nat, end: nat, cols: int, rows: int)
    ensures var g := Configure(base, end, cols, rows);
            && Good(g)
            && (g.valid <==> base < end && cols > 0 && rows > 0)
            && g.base == base && g.end == end && g.cols == (if cols > 0 then cols else 0) && g.rows == (if rows > 0 then rows else 0)
            && (g.valid ==> g.cellBytes * g.Cells() >= g.Span() || g.cellBytes == MAX_CELL_BYTES)
            && (g.valid && g.cellBytes > MIN_CELL_BYTES ==> g.cellBytes / 2 * g.Cells() < g.Span())
  {
    var g := Configure(base, end, cols, rows);
    if g.valid {
      var span, cells := end - base, g.Cells();
      var perCell := CeilQuotient(span, cells);
      var k := ClampedIsPow2(perCell);
      Log2OfPow2(k);
      CeilDiv(span, cells);
      if g.cellBytes >= perCell {
        MulMono(perCell, g.cellBytes, cells);
      }
      if g.cellBytes > MIN_CELL_BYTES {
        assert g.cellBytes / 2 < perCell;
        MulMono(g.cellBytes / 2, perCell - 1, cells);
      }
    }
  }

  lemma MulMono(a: nat, b: nat, c: nat)
    requires a <= b
    ensures a * c <= b * c
  {
    assert b * c == a * c + (b - a) * c;
  }

  lemma CeilDiv(x: nat, d: nat)
    requires d > 0 && x > 0
    ensures var q := CeilQuotient(x, d);
            q > 0 && q * d >= x && (q - 1) * d < x
  {
    var f := x / d;
    assert x == f * d + x % d;
    assert (f + 1) * d == f * d + d;
    if x % d == 0 && f > 0 {
      assert (f - 1) * d == f * d - d;
    }
  }

  /** The cells partition what the grid covers: cell `i` is exactly its `cellBytes` addresses. */
  lemma CellIsRange(g: Grid, addr: nat, i: nat)
    requires Good(g) && g.valid
    ensures IndexOf(g, addr) == Some(i) <==>
              i < g.Cells() && g.base + i * g.cellBytes <= addr < g.base + i * g.cellBytes + g.cellBytes
  {
    if addr >= g.base {
      var off, c := addr - g.base, g.cellBytes;
      ShiftIsDiv(off, g.log2);
      assert off == off / c * c + off % c;
      if i * c <= off < i * c + c {
        DivModUnique(off, c, i, off - i * c);
      }
    }
  }

  /** Cells needed to reach the end of the span. */
  function Needed(g: Grid): nat
    requires g.cellBytes > 0 && g.Span() >= 0
  {
    CeilQuotient(g.Span(), g.cellBytes)
  }

  lemma InsideNeeded(g: Grid, a: nat)
    requires Good(g) && g.valid && Needed(g) <= g.Cells() && g.base <= a < g.end
    ensures IndexOf(g, a).Some?
  {
    var i := QuotientInside(a - g.base, g.Span(), g.cellBytes);
    CellIsRange(g, a, i);
  }

  lemma QuotientInside(off: nat, span: nat, c: nat) returns (i: nat)
    requires c > 0 && off < span
    ensures i < CeilQuotient(span, c) && i * c <= off < i * c + c
  {
    i := off / c;
    assert off == i * c + off % c;
    CeilDiv(span, c);
    var q := CeilQuotient(span, c);
    assert q * c == c * q;
    DivBelow(off, q, c);
  }

  lemma BeyondCells(g: Grid, x: nat, a: nat)
    requires Good(g) && g.valid && g.Cells() <= x && a == g.base + x * g.cellBytes
    ensures IndexOf(g, a).None?
  {
    ShiftIsDiv(x * g.cellBytes, g.log2);
    DivModUnique(x * g.cellBytes, g.cellBytes, x, 0);
  }

  lemma LastNeededMissing(g: Grid)
    requires Good(g) && g.valid && Needed(g) > g.Cells()
    ensures exists a: nat :: g.base <= a < g.end && IndexOf(g, a).None?
  {
    var x := Needed(g) - 1;
    var a := g.base + x * g.cellBytes;
    CeilDiv(g.Span(), g.cellBytes);
    BeyondCells(g, x, a);
    assert g.base <= a < g.end && IndexOf(g, a).None?;
  }

  /** `covers_whole_span` is true exactly when every address of the span has a cell. */
  lemma CoversExactly(g: Grid)
    requires Good(g)
    ensures CoversWholeSpan(g) <==> g.valid && forall a: nat :: g.base <= a < g.end ==> IndexOf(g, a).Some?
  {
    if g.valid {
      if Needed(g) <= g.Cells() {
        forall a: nat | g.base <= a < g.end
          ensures IndexOf(g, a).Some?
        {
          InsideNeeded(g, a);
        }
      } else {
        LastNeededMissing(g);
      }
    }
  }

  /** The first address of a cell belongs to it. */
  lemma CellStart(g: Grid, i: nat)
    requires Good(g) && g.valid && i < g.Cells()
    ensures IndexOf(g, g.base + i * g.cellBytes) == Some(i)
  {
    CellIsRange(g, g.base + i * g.cellBytes, i);
  }
}
