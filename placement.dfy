/**
 * The letter grid and the placement test canPlaceWord: a word fits along a
 * direction from an origin when its end cell is inside the grid and every
 * cell on the way is empty or already holds the letter the word needs there.
 */
module Placement {
  import opened Geometry

  /** A grid cell: the empty sentinel `''` or one character. */
  datatype Cell = Empty | Letter(ch: char)

  predicate InArray(g: array2<Cell>, p: Pos)
  {
    0 <= p.r < g.Length0 && 0 <= p.c < g.Length1
  }

  function At(g: array2<Cell>, p: Pos): Cell
    reads g
    requires InArray(g, p)
  {
    g[p.r, p.c]
  }

  /** A cell can take letter `ch` when it is empty or holds that same letter. */
  predicate Compatible(cell: Cell, ch: char) { cell == Empty || cell == Letter(ch) }

  /** The values `Math.floor(Math.random() * n)` can take: `[0, n)`, and 0 when `n` is 0. */
  predicate RandomIndex(n: int, k: int) { if n <= 0 then k == 0 else 0 <= k < n }

  predicate IsSquare(g: array2<Cell>) { g.Length0 == g.Length1 }

  /** What canPlaceWord answers for word `word` from `origin` along `d`. */
  predicate Fits(g: array2<Cell>, word: string, origin: Pos, d: Dir)
    reads g
    requires IsSquare(g)
    requires RandomIndex(g.Length0, origin.r) && RandomIndex(g.Length0, origin.c)
    ensures Fits(g, word, origin, d) ==> |word| <= g.Length0
  {
    InGrid(g.Length0, Step(origin, d, |word| - 1)) &&
    forall i :: 0 <= i < |word| ==> Compatible(At(g, Step(origin, d, i)), word[i])
  }

  /** canPlaceWord: the end-cell bounds test, then the collision test cell by cell. */
  method CanPlaceWord(g: array2<Cell>, word: string, origin: Pos, d: Dir) returns (ok: bool)
    requires IsSquare(g)
    requires RandomIndex(g.Length0, origin.r) && RandomIndex(g.Length0, origin.c)
    ensures ok == Fits(g, word, origin, d)
  {
    var size := g.Length0;
    var end := Step(origin, d, |word| - 1);
    if end.r < 0 || end.r >= size || end.c < 0 || end.c >= size {
      return false;
    }
    var i := 0;
    while i < |word|
      invariant 0 <= i <= |word|
      invariant forall k :: 0 <= k < i ==> Compatible(At(g, Step(origin, d, k)), word[k])
    {
      var cur := Step(origin, d, i);
      var currentCell := g[cur.r, cur.c];
      if currentCell != Empty && currentCell != Letter(word[i]) {
        return false;
      }
      i := i + 1;
    }
    return true;
  }

  /**
   * For a non-empty word, fitting means: every cell of the line is inside
   * the grid and is empty or holds the word's letter at that offset.
   */
  lemma FitsIffLineCompatible(g: array2<Cell>, word: string, origin: Pos, d: Dir)
    requires IsSquare(g)
    requires RandomIndex(g.Length0, origin.r) && RandomIndex(g.Length0, origin.c)
    requires |word| >= 1
    ensures Fits(g, word, origin, d) <==>
              (forall i :: 0 <= i < |word| ==> InArray(g, Step(origin, d, i))) &&
              (forall i :: 0 <= i < |word| ==> Compatible(At(g, Step(origin, d, i)), word[i]))
  {
    if forall i :: 0 <= i < |word| ==> InArray(g, Step(origin, d, i)) {
      assert InArray(g, Step(origin, d, |word| - 1));
    }
  }

  /** The grid as a value: `n` rows of `n` cells. */
  type Board = seq<seq<Cell>>

  predicate IsBoard(b: Board, n: int)
  {
    |b| == n && forall r :: 0 <= r < |b| ==> |b[r]| == n
  }

  function CellOf(b: Board, p: Pos): Cell
    requires IsBoard(b, |b|) && InGrid(|b|, p)
  {
    b[p.r][p.c]
  }

  /** A board of `n` by `n` empty cells. */
  function BlankBoard(n: nat): (b: Board)
    ensures IsBoard(b, n) && forall r, c :: 0 <= r < n && 0 <= c < n ==> b[r][c] == Empty
  {
    seq(n, _ => seq(n, _ => Empty))
  }

  /** The cells of a square array as a board value. */
  ghost function Snapshot(g: array2<Cell>): (b: Board)
    reads g
    requires IsSquare(g)
    ensures IsBoard(b, g.Length0)
    ensures forall r, c {:trigger b[r][c]} :: 0 <= r < g.Length0 && 0 <= c < g.Length0 ==> b[r][c] == g[r, c]
  {
    seq(g.Length0, r requires 0 <= r < g.Length0 reads g =>
      seq(g.Length0, c requires 0 <= c < g.Length0 reads g => g[r, c]))
  }

  /** Two boards of the same side that agree on every cell are equal. */
  lemma BoardsEqual(a: Board, b: Board, n: nat)
    requires IsBoard(a, n) && IsBoard(b, n)
    requires forall r, c :: 0 <= r < n && 0 <= c < n ==> a[r][c] == b[r][c]
    ensures a == b
  {
    forall r | 0 <= r < n
      ensures a[r] == b[r]
    {
      assert forall c :: 0 <= c < n ==> a[r][c] == b[r][c];
    }
  }

  /** Fits read on a board value. */
  predicate FitsOn(b: Board, word: string, origin: Pos, d: Dir)
    requires IsBoard(b, |b|)
    requires RandomIndex(|b|, origin.r) && RandomIndex(|b|, origin.c)
  {
    InGrid(|b|, Step(origin, d, |word| - 1)) &&
    forall i :: 0 <= i < |word| ==> Compatible(CellOf(b, Step(origin, d, i)), word[i])
  }

  /** Reading the array or its snapshot gives the same answer. */
  lemma FitsSnapshot(g: array2<Cell>, word: string, origin: Pos, d: Dir)
    requires IsSquare(g)
    requires RandomIndex(g.Length0, origin.r) && RandomIndex(g.Length0, origin.c)
    ensures Fits(g, word, origin, d) == FitsOn(Snapshot(g), word, origin, d)
  {
    var b := Snapshot(g);
    if InGrid(g.Length0, Step(origin, d, |word| - 1)) {
      forall i | 0 <= i < |word|
        ensures At(g, Step(origin, d, i)) == CellOf(b, Step(origin, d, i))
      {
        StepBetween(g.Length0, origin, d, |word|, i);
      }
    }
  }

  /** The cell at `p` once `word` is written along its line from `origin`. */
  function Stamp(cell: Cell, word: string, origin: Pos, d: Dir, p: Pos): Cell
  {
    var k := OffsetOf(origin, d, p);
    if 0 <= k < |word| then Letter(word[k]) else cell
  }

  /** The writing loop of placeWord on a board value. */
  function WriteOn(b: Board, word: string, origin: Pos, d: Dir): (b': Board)
    requires IsBoard(b, |b|)
    ensures IsBoard(b', |b|)
    ensures forall r, c {:trigger b'[r][c]} :: 0 <= r < |b| && 0 <= c < |b| ==> b'[r][c] == Stamp(b[r][c], word, origin, d, Pos(r, c))
  {
    seq(|b|, r requires 0 <= r < |b| =>
      seq(|b|, c requires 0 <= c < |b| => Stamp(b[r][c], word, origin, d, Pos(r, c))))
  }

  /**
   * Writing a word along an in-grid line puts its k-th letter on the k-th
   * cell and leaves every other cell as it was; when the word fits, no
   * letter already on the board changes.
   */
  lemma WriteOnMeaning(b: Board, word: string, origin: Pos, d: Dir)
    requires IsBoard(b, |b|) && RandomIndex(|b|, origin.r) && RandomIndex(|b|, origin.c)
    requires InGrid(|b|, Step(origin, d, |word| - 1))
    ensures forall k :: 0 <= k < |word| ==>
              InGrid(|b|, Step(origin, d, k)) && CellOf(WriteOn(b, word, origin, d), Step(origin, d, k)) == Letter(word[k])
    ensures forall p :: InGrid(|b|, p) && p !in WordCells(origin, d, |word|) ==>
              CellOf(WriteOn(b, word, origin, d), p) == CellOf(b, p)
    ensures FitsOn(b, word, origin, d) ==>
              forall p :: InGrid(|b|, p) && CellOf(b, p) != Empty ==> CellOf(WriteOn(b, word, origin, d), p) == CellOf(b, p)
  {
    var b' := WriteOn(b, word, origin, d);
    forall k | 0 <= k < |word|
      ensures InGrid(|b|, Step(origin, d, k)) && CellOf(b', Step(origin, d, k)) == Letter(word[k])
    {
      StepBetween(|b|, origin, d, |word|, k);
      OffsetOfStep(origin, d, k);
    }
    forall p | InGrid(|b|, p) && p !in WordCells(origin, d, |word|)
      ensures CellOf(b', p) == CellOf(b, p)
    {
      InWordCells(origin, d, |word|, p);
    }
    if FitsOn(b, word, origin, d) {
      forall p | InGrid(|b|, p) && CellOf(b, p) != Empty
        ensures CellOf(b', p) == CellOf(b, p)
      {
        var k := OffsetOf(origin, d, p);
        if 0 <= k < |word| {
          assert Compatible(CellOf(b, Step(origin, d, k)), word[k]);
        }
      }
    }
  }

  /**
   * A board that holds the word along its line and agrees with `b` off the
   * line is the board WriteOn gives.
   */
  lemma WrittenBoard(b: Board, b': Board, word: string, origin: Pos, d: Dir)
    requires IsBoard(b, |b|) && IsBoard(b', |b|) && RandomIndex(|b|, origin.r) && RandomIndex(|b|, origin.c)
    requires InGrid(|b|, Step(origin, d, |word| - 1))
    requires forall k :: 0 <= k < |word| ==> InGrid(|b|, Step(origin, d, k)) && CellOf(b', Step(origin, d, k)) == Letter(word[k])
    requires forall p :: InGrid(|b|, p) && p !in WordCells(origin, d, |word|) ==> CellOf(b', p) == CellOf(b, p)
    ensures b' == WriteOn(b, word, origin, d)
  {
    var w := WriteOn(b, word, origin, d);
    forall r, c | 0 <= r < |b| && 0 <= c < |b|
      ensures b'[r][c] == w[r][c]
    {
      var p := Pos(r, c);
      var k := OffsetOf(origin, d, p);
      if 0 <= k < |word| {
        assert CellOf(b', Step(origin, d, k)) == Letter(word[k]);
      } else {
        InWordCells(origin, d, |word|, p);
        assert CellOf(b', p) == CellOf(b, p);
      }
    }
    BoardsEqual(b', w, |b|);
  }
}
