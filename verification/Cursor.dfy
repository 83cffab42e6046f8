/** The map cursor of `cursor.cpp`: saturating moves over the cells that cover real heap. */
module Cursors {
  import opened Basics
  import opened Bits
  import opened Grids

  const JUMP: nat := 10

  datatype Move = Left | Right | Up | Down | LeftFar | RightFar | UpFar | DownFar | Start | End | NextLive | PrevLive

  /** The cell holding the last byte of the span, or the last cell when the grid stops short of it. */
  function LastHeapCell(g: Grid): nat {
    if !g.valid || g.Cells() == 0 || g.Span() <= 0 then 0
    else
      var last := Shr(g.Span() - 1, g.log2);
      if last >= g.Cells() then g.Cells() - 1 else last
  }

  /** `MapCursor::index`: total, clamped to the nearest end. */
  function IndexAt(g: Grid, coord: nat): nat {
    if !g.valid then 0
    else
      match IndexOf(g, coord)
      case None => if coord <= g.base then 0 else LastHeapCell(g)
      case Some(i) => if i < LastHeapCell(g) then i else LastHeapCell(g)
  }

  /** It is the cell of the last byte of the span whenever that byte has a cell. */
  lemma LastHoldsEnd(g: Grid)
    requires Good(g) && g.valid
    ensures IndexOf(g, g.end - 1) == if CoversWholeSpan(g) then Some(LastHeapCell(g)) else None
  {
    CoversExactly(g);
    if !CoversWholeSpan(g) {
      var a: nat :| g.base <= a < g.end && IndexOf(g, a).None?;
      ShiftIsDiv(a - g.base, g.log2);
      ShiftIsDiv(g.end - 1 - g.base, g.log2);
      DivMono(a - g.base, g.end - 1 - g.base, g.cellBytes);
    }
  }

  /** The heap cells are the grid's, up to the one with the span's last byte.  A coordinate in one of them is
      in the cell it lies in; one before the grid is in the first, one past the heap cells in the last. */
  lemma InHeapCell(g: Grid, a: nat)
    requires Good(g) && g.valid
    ensures var last := LastHeapCell(g);
            && last < g.cols * g.rows && g.base + last * g.cellBytes < g.end
            && (last + 1 == g.cols * g.rows || g.end <= g.base + last * g.cellBytes + g.cellBytes)
    ensures var i, last := IndexAt(g, a), LastHeapCell(g);
            if a < g.base then i == 0
            else if a < g.base + last * g.cellBytes + g.cellBytes then
              i <= last && g.base + i * g.cellBytes <= a < g.base + i * g.cellBytes + g.cellBytes
            else i == last
  {
    var last := LastHeapCell(g);
    LastIsLast(g);
    var at := IndexOf(g, a);
    if at.Some? {
      CellIsRange(g, a, at.value);
      if at.value < last {
        MulMono(at.value + 1, last, g.cellBytes);
      } else if last < at.value {
        MulMono(last + 1, at.value, g.cellBytes);
      }
    } else if g.base <= a {
      PastGrid(g, a, last);
    }
  }

  lemma PastGrid(g: Grid, a: nat, i: nat)
    requires Good(g) && g.valid && g.base <= a && IndexOf(g, a).None? && i < g.Cells()
    ensures a >= g.base + i * g.cellBytes + g.cellBytes
  {
    var off, c := a - g.base, g.cellBytes;
    ShiftIsDiv(off, g.log2);
    assert off == off / c * c + off % c;
    MulMono(i + 1, off / c, c);
  }

  lemma LastIsLast(g: Grid)
    requires Good(g) && g.valid
    ensures var last := LastHeapCell(g);
            && last < g.cols * g.rows && g.base + last * g.cellBytes < g.end
            && (last + 1 == g.cols * g.rows || g.end <= g.base + last * g.cellBytes + g.cellBytes)
  {
    ShiftIsDiv(g.end - 1 - g.base, g.log2);
    LastBelow(g.end - 1 - g.base, g.cellBytes, g.Cells(), LastHeapCell(g));
  }

  lemma LastBelow(off: nat, c: nat, n: nat, last: nat)
    requires c > 0 && n > 0 && last == if off / c >= n then n - 1 else off / c
    ensures last < n && last * c <= off && (last + 1 == n || off < last * c + c)
  {
    assert off == off / c * c + off % c;
    MulMono(last, off / c, c);
  }

  lemma DivMono(a: nat, b: nat, d: nat)
    requires a <= b && d > 0
    ensures a / d <= b / d
  {
    var p, q := a / d, b / d;
    assert a == p * d + a % d && b == q * d + b % d;
    if q < p {
      MulGap(q, p, d);
    }
  }

  /** Landing on the first byte of a heap cell is landing on that cell. */
  lemma LandsOn(g: Grid, i: nat)
    requires Good(g) && g.valid && i <= LastHeapCell(g)
    ensures IndexAt(g, g.base + i * g.cellBytes) == i
  {
    CellStart(g, i);
  }

  /** What each move promises about the cell it starts from and the cell it ends on, among `0 .. last`. */
  ghost predicate Moved(last: nat, cols: nat, occupied: seq<bool>, m: Move, from: nat, to: nat) {
    match m
    case Left => to == (if from > 0 then from - 1 else from)
    case Right => to == (if from < last then from + 1 else from)
    case LeftFar => to == (if from >= JUMP then from - JUMP else 0)
    case RightFar => to == (if from + JUMP <= last then from + JUMP else last)
    case Start => to == 0
    case End => to == last
    case Up => UpBy(cols, from, to, 1)
    case UpFar => UpBy(cols, from, to, JUMP)
    case Down => DownBy(cols, from, to, last, 1)
    case DownFar => DownBy(cols, from, to, last, JUMP)
    case NextLive => Nearest(occupied, from, to, from + 1, last)
    case PrevLive => NearestBefore(occupied, from, to)
  }

  /** `step` rows up in the same column, or fewer when the top row is reached first. */
  ghost predicate UpBy(cols: nat, from: nat, to: nat, step: nat) {
    Rows(cols, from, to) && to <= from && (from - to == step * cols || (from - to < step * cols && to < cols))
  }

  ghost predicate DownBy(cols: nat, from: nat, to: nat, last: nat, step: nat) {
    Rows(cols, from, to) && to >= from && (to - from == step * cols || (to - from < step * cols && to + cols > last))
  }

  /** A whole number of rows apart: the same column. */
  ghost predicate Rows(cols: nat, a: nat, b: nat) {
    exists k: int :: b - a == k * cols
  }

  /** The first occupied cell of `[lo, last]`, or no move. */
  ghost predicate Nearest(occupied: seq<bool>, from: nat, to: nat, lo: nat, last: nat) {
    if to == from then forall i :: lo <= i <= last && i < |occupied| ==> !occupied[i]
    else lo <= to <= last && to < |occupied| && occupied[to] && forall i :: lo <= i < to ==> !occupied[i]
  }

  /** The last occupied cell before `from`, or no move. */
  ghost predicate NearestBefore(occupied: seq<bool>, from: nat, to: nat) {
    if to == from then forall i :: 0 <= i < from && i < |occupied| ==> !occupied[i]
    else to < from && to < |occupied| && occupied[to] && forall i :: to < i < from && i < |occupied| ==> !occupied[i]
  }

  lemma RowsBack(cols: nat, a: nat, k: nat)
    requires k * cols <= a
    ensures Rows(cols, a, a - cols * k)
  {
    var up: int := 0 - k;
    assert (a - cols * k) - a == up * cols;
  }

  class MapCursor {
    var coord: nat

    constructor ()
      ensures coord == 0
    {
      coord := 0;
    }

    /** Applies one move.  Whatever the old coordinate, the cursor ends on a cell that covers heap, the one the
        move promises, and the return value says whether it moved. */
    method Step(g: Grid, occupied: seq<bool>, m: Move) returns (moved: bool)
      requires Good(g)
      modifies this
      ensures !g.valid ==> !moved && coord == old(coord)
      ensures g.valid ==>
                var from := IndexAt(g, old(coord));
                var to := IndexAt(g, coord);
                && to <= LastHeapCell(g)
                && Moved(LastHeapCell(g), g.cols, occupied, m, from, to)
                && (moved <==> to != from)
                && (!moved ==> coord == old(coord))
    {
      if !g.valid {
        return false;
      }
      var from := IndexAt(g, coord);
      var to := Target(LastHeapCell(g), g.cols, occupied, m, from);
      if to == from {
        return false;
      }
      LandsOn(g, to);
      coord := g.base + to * g.cellBytes;
      return true;
    }

    /** After a geometry change: a coordinate that still lands on a heap cell is left exactly alone; any other
        is pulled to the start of the nearest heap cell. */
    method Refit(g: Grid) returns (pulled: bool)
      requires Good(g)
      modifies this
      ensures pulled <==> g.valid && !(IndexOf(g, old(coord)).Some? && IndexOf(g, old(coord)).value <= LastHeapCell(g))
      ensures !pulled ==> coord == old(coord)
      ensures pulled ==> coord == g.base + IndexAt(g, old(coord)) * g.cellBytes && IndexAt(g, coord) == IndexAt(g, old(coord))
    {
      if !g.valid {
        return false;
      }
      var i := IndexOf(g, coord);
      if i.Some? && i.value <= LastHeapCell(g) {
        return false;
      }
      LandsOn(g, IndexAt(g, coord));
      coord := g.base + IndexAt(g, coord) * g.cellBytes;
      return true;
    }
  }

  /** The switch of `MapCursor::move`. */
  method Target(last: nat, cols: nat, occupied: seq<bool>, m: Move, from: nat) returns (to: nat)
    requires cols > 0 && from <= last
    ensures to <= last && Moved(last, cols, occupied, m, from, to)
  {
    to := from;
    match m
    case Left => if from > 0 { to := from - 1; }
    case Right => if from < last { to := from + 1; }
    case LeftFar => to := if from > JUMP then from - JUMP else 0;
    case RightFar => to := if last - from > JUMP then from + JUMP else last;
    case Up => to := RowsUp(cols, from, 1);
    case UpFar => to := RowsUp(cols, from, JUMP);
    case Down => to := RowsDown(cols, from, last, 1);
    case DownFar => to := RowsDown(cols, from, last, JUMP);
    case Start => to := 0;
    case End => to := last;
    case NextLive => to := FindNext(occupied, from, last);
    case PrevLive => to := FindPrev(occupied, from);
  }

  method RowsUp(cols: nat, from: nat, step: nat) returns (to: nat)
    requires cols > 0 && step > 0
    ensures UpBy(cols, from, to, step)
  {
    var above := from / cols;
    var k := if step < above then step else above;
    assert from == above * cols + from % cols;
    RowsAbove(cols, from, step, above, k);
    to := from - cols * k;
  }

  lemma RowsAbove(cols: nat, from: nat, step: nat, above: nat, k: nat)
    requires cols > 0 && above * cols <= from < above * cols + cols
    requires k == if step < above then step else above
    ensures k * cols == cols * k <= from && UpBy(cols, from, from - cols * k, step)
  {
    MulMono(k, above, cols);
    RowsBack(cols, from, k);
    assert cols * k == k * cols;
    if k < step {
      MulGap(k, step, cols);
    }
  }

  method RowsDown(cols: nat, from: nat, last: nat, step: nat) returns (to: nat)
    requires cols > 0 && step > 0 && from <= last
    ensures to <= last && DownBy(cols, from, to, last, step)
  {
    var below := (last - from) / cols;
    var k := if step < below then step else below;
    assert last - from == below * cols + (last - from) % cols;
    MulMono(k, below, cols);
    assert cols * k == k * cols;
    if k < step {
      MulGap(k, step, cols);
    }
    to := from + cols * k;
    assert to - from == (k as int) * cols;
  }

  method FindNext(occupied: seq<bool>, from: nat, last: nat) returns (to: nat)
    requires from <= last
    ensures from <= to <= last && Nearest(occupied, from, to, from + 1, last)
  {
    var n := |occupied|;
    var end := if last < n then last else if n == 0 then 0 else n - 1;
    var i := from + 1;
    while i <= end && n != 0
      invariant from + 1 <= i
      invariant forall j :: from + 1 <= j < i && j < n ==> !occupied[j]
    {
      if occupied[i] {
        return i;
      }
      i := i + 1;
    }
    return from;
  }

  method FindPrev(occupied: seq<bool>, from: nat) returns (to: nat)
    ensures to <= from && NearestBefore(occupied, from, to)
  {
    var n := |occupied|;
    var i := from;
    while i > 0
      invariant 0 <= i <= from
      invariant forall j :: i <= j < from && j < n ==> !occupied[j]
    {
      i := i - 1;
      if n != 0 && i < n && occupied[i] {
        return i;
      }
    }
    return from;
  }
}
