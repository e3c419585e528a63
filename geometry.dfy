/**
 * Grid geometry of the word search: positions, the four placement
 * directions, and the straight lines a drag may select (getCellsInLine).
 */
module Geometry {
  import opened Util

  /** A cell position `{r, c}`, 0-indexed. */
  datatype Pos = Pos(r: int, c: int)

  /** The placement directions: (0,1), (1,0), (1,1) and (1,-1). */
  datatype Dir = Right | Down | DownRight | DownLeft

  /** The `directions` array of placeWord, in its order. */
  const Directions: seq<Dir> := [Right, Down, DownRight, DownLeft]

  /** `origin + i * dir`. */
  function Step(origin: Pos, d: Dir, i: int): Pos
  {
    match d
    case Right => Pos(origin.r, origin.c + i)
    case Down => Pos(origin.r + i, origin.c)
    case DownRight => Pos(origin.r + i, origin.c + i)
    case DownLeft => Pos(origin.r + i, origin.c - i)
  }

  predicate InGrid(size: int, p: Pos) { 0 <= p.r < size && 0 <= p.c < size }

  /** The cells `origin + i * dir` for `0 <= i < n`, in order. */
  function WordCells(origin: Pos, d: Dir, n: nat): seq<Pos>
  {
    seq(n, i requires 0 <= i < n => Step(origin, d, i))
  }

  /** The offset `i` at which the line from `origin` along `d` passes `p`, or -1 when it does not. */
  function OffsetOf(origin: Pos, d: Dir, p: Pos): (i: int)
    ensures i >= 0 ==> Step(origin, d, i) == p
  {
    var k := if d == Right then p.c - origin.c else p.r - origin.r;
    if k >= 0 && Step(origin, d, k) == p then k else -1
  }

  /** Every cell of the line is found again at its own offset. */
  lemma OffsetOfStep(origin: Pos, d: Dir, i: nat)
    ensures OffsetOf(origin, d, Step(origin, d, i)) == i
  {
  }

  /** A cell lies on the first `n` cells of a line exactly when its offset is below `n`. */
  lemma InWordCells(origin: Pos, d: Dir, n: nat, p: Pos)
    ensures p in WordCells(origin, d, n) <==> 0 <= OffsetOf(origin, d, p) < n
  {
    var k := OffsetOf(origin, d, p);
    if 0 <= k < n {
      assert WordCells(origin, d, n)[k] == p;
    }
    if p in WordCells(origin, d, n) {
      var j :| 0 <= j < n && WordCells(origin, d, n)[j] == p;
      OffsetOfStep(origin, d, j);
    }
  }

  /** Different offsets along a direction are different cells. */
  lemma StepInjective(origin: Pos, d: Dir, i: int, j: int)
    requires Step(origin, d, i) == Step(origin, d, j)
    ensures i == j
  {
  }

  /**
   * Between an in-grid origin and an in-grid end point, every cell of a
   * placement line is in the grid.
   */
  lemma StepBetween(size: int, origin: Pos, d: Dir, n: nat, i: int)
    requires InGrid(size, origin) && InGrid(size, Step(origin, d, n - 1))
    requires 0 <= i < n
    ensures InGrid(size, Step(origin, d, i))
  {
  }

  function Abs(x: int): nat { if x < 0 then -x else x }

  /** `Math.sign`. */
  function Sign(x: int): int { if x > 0 then 1 else if x < 0 then -1 else 0 }

  function Max(a: int, b: int): int { if a >= b then a else b }

  /** The test updateSelection applies: horizontal, vertical or at 45 degrees. */
  predicate IsStraight(start: Pos, end: Pos)
  {
    var dr, dc := end.r - start.r, end.c - start.c;
    dr == 0 || dc == 0 || Abs(dr) == Abs(dc)
  }

  /** `Math.max(|dr|, |dc|)`: the number of unit steps from start to end. */
  function StepCount(start: Pos, end: Pos): nat
  {
    Max(Abs(end.r - start.r), Abs(end.c - start.c))
  }

  /** `n` cells from `p` on, each `(sr, sc)` past the previous one. */
  function LineFrom(p: Pos, sr: int, sc: int, n: nat): seq<Pos>
    decreases n
  {
    if n == 0 then [] else [p] + LineFrom(Pos(p.r + sr, p.c + sc), sr, sc, n - 1)
  }

  /** The cells getCellsInLine walks, from start towards end with unit steps. */
  function LineCells(start: Pos, end: Pos): (cells: seq<Pos>)
    ensures |cells| == StepCount(start, end) + 1 && cells[0] == start
  {
    LineFromLength(start, Sign(end.r - start.r), Sign(end.c - start.c), StepCount(start, end) + 1);
    LineFrom(start, Sign(end.r - start.r), Sign(end.c - start.c), StepCount(start, end) + 1)
  }

  lemma {:induction false} LineFromAt(p: Pos, sr: int, sc: int, n: nat, i: int)
    requires 0 <= i < n
    ensures |LineFrom(p, sr, sc, n)| == n
    ensures LineFrom(p, sr, sc, n)[i] == Pos(p.r + i * sr, p.c + i * sc)
    decreases n
  {
    if i > 0 {
      LineFromAt(Pos(p.r + sr, p.c + sc), sr, sc, n - 1, i - 1);
      assert (i - 1) * sr + sr == i * sr;
      assert (i - 1) * sc + sc == i * sc;
    } else {
      LineFromLength(p, sr, sc, n);
    }
  }

  lemma {:induction false} LineFromLength(p: Pos, sr: int, sc: int, n: nat)
    ensures |LineFrom(p, sr, sc, n)| == n
    decreases n
  {
    if n > 0 {
      LineFromLength(Pos(p.r + sr, p.c + sc), sr, sc, n - 1);
    }
  }

  /** The i-th cell of a selection line is `start + i * (sign dr, sign dc)`. */
  lemma LineCellsAt(start: Pos, end: Pos, i: int)
    requires 0 <= i <= StepCount(start, end)
    ensures |LineCells(start, end)| == StepCount(start, end) + 1
    ensures LineCells(start, end)[i] ==
              Pos(start.r + i * Sign(end.r - start.r), start.c + i * Sign(end.c - start.c))
  {
    LineFromAt(start, Sign(end.r - start.r), Sign(end.c - start.c), StepCount(start, end) + 1, i);
  }

  /** `x` scaled by a sign, written without a product. */
  lemma SignProduct(i: int, x: int)
    ensures i * Sign(x) == (if x > 0 then i else if x < 0 then -i else 0)
  {
  }

  /**
   * For an accepted (straight) drag, the selection has `max(|dr|,|dc|) + 1`
   * cells, starts at start, ends at end, and each cell is one unit step
   * `(sign dr, sign dc)` after the previous one.
   */
  lemma LineCellsShape(start: Pos, end: Pos)
    requires IsStraight(start, end)
    ensures |LineCells(start, end)| == StepCount(start, end) + 1
    ensures LineCells(start, end)[0] == start
    ensures LineCells(start, end)[StepCount(start, end)] == end
    ensures forall i :: 0 <= i < StepCount(start, end) ==>
              LineCells(start, end)[i + 1] ==
              Pos(LineCells(start, end)[i].r + Sign(end.r - start.r), LineCells(start, end)[i].c + Sign(end.c - start.c))
  {
    var n := StepCount(start, end);
    var sr, sc := Sign(end.r - start.r), Sign(end.c - start.c);
    LineCellsAt(start, end, 0);
    LineCellsAt(start, end, n);
    SignProduct(n, end.r - start.r);
    SignProduct(n, end.c - start.c);
    forall i | 0 <= i < n
      ensures LineCells(start, end)[i + 1] == Pos(LineCells(start, end)[i].r + sr, LineCells(start, end)[i].c + sc)
    {
      LineCellsAt(start, end, i);
      LineCellsAt(start, end, i + 1);
      assert (i + 1) * sr == i * sr + sr;
      assert (i + 1) * sc == i * sc + sc;
    }
  }

  /** A straight selection between two in-grid cells stays in the grid. */
  lemma LineCellsInGrid(size: int, start: Pos, end: Pos)
    requires IsStraight(start, end) && InGrid(size, start) && InGrid(size, end)
    ensures forall p :: p in LineCells(start, end) ==> InGrid(size, p)
  {
    var n := StepCount(start, end);
    LineCellsAt(start, end, 0);
    forall p | p in LineCells(start, end)
      ensures InGrid(size, p)
    {
      var i :| 0 <= i < |LineCells(start, end)| && LineCells(start, end)[i] == p;
      LineCellsAt(start, end, i);
      SignProduct(i, end.r - start.r);
      SignProduct(i, end.c - start.c);
    }
  }

  /** getCellsInLine: walks from start with unit steps, `steps + 1` times. */
  method GetCellsInLine(start: Pos, end: Pos) returns (cells: seq<Pos>)
    ensures cells == LineCells(start, end)
  {
    cells := [];
    var dr := Sign(end.r - start.r);
    var dc := Sign(end.c - start.c);
    var r := start.r;
    var c := start.c;
    var steps := Max(Abs(end.r - start.r), Abs(end.c - start.c));
    var i := 0;
    while i <= steps
      invariant 0 <= i <= steps + 1
      invariant cells + LineFrom(Pos(r, c), dr, dc, steps + 1 - i) == LineCells(start, end)
    {
      cells := cells + [Pos(r, c)];
      r := r + dr;
      c := c + dc;
      i := i + 1;
    }
  }

  /**
   * A placed word's line can be selected: dragging from its first cell to its
   * last selects exactly its cells, and dragging from the last to the first
   * selects them in reverse order.
   */
  lemma WordCellsSelectable(origin: Pos, d: Dir, n: nat)
    requires n >= 1
    ensures IsStraight(origin, Step(origin, d, n - 1))
    ensures IsStraight(Step(origin, d, n - 1), origin)
    ensures LineCells(origin, Step(origin, d, n - 1)) == WordCells(origin, d, n)
    ensures LineCells(Step(origin, d, n - 1), origin) == Reversed(WordCells(origin, d, n))
  {
    var end := Step(origin, d, n - 1);
    var fwd, bwd, cells := LineCells(origin, end), LineCells(end, origin), WordCells(origin, d, n);
    assert StepCount(origin, end) == n - 1;
    assert StepCount(end, origin) == n - 1;
    LineCellsAt(origin, end, 0);
    LineCellsAt(end, origin, 0);
    forall i | 0 <= i < n
      ensures fwd[i] == Step(origin, d, i)
    {
      LineCellsAt(origin, end, i);
      SignProduct(i, end.r - origin.r);
      SignProduct(i, end.c - origin.c);
    }
    forall i | 0 <= i < n
      ensures bwd[i] == Step(origin, d, n - 1 - i)
    {
      LineCellsAt(end, origin, i);
      SignProduct(i, origin.r - end.r);
      SignProduct(i, origin.c - end.c);
    }
    assert fwd == cells;
    assert bwd == Reversed(cells);
  }
}
