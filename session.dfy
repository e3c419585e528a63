/**
 * The game session of the word-search block (gameState and the functions
 * that change it): puzzle generation with random placement, the drag
 * selection, the match step, reset, grid-size change and giving up.
 *
 * Every `Math.random()` draw is an explicit choice taken from an Oracle.
 */
module Session {
  import opened Util
  import opened Geometry
  import opened Placement
  import opened Matching
  import opened Clock
  import Config

  /** Placement tries per word. */
  const MaxAttempts: nat := 100

  /** The filler alphabet exactly as the script's text holds it (U+00C3 U+2018 stand where Ñ was meant). */
  const Alphabet: string := "ABCDEFGHIJKLMN\U{00C3}\U{2018}OPQRSTUVWXYZ"

  /** The random choices of one placement try: an index into Directions and an origin. */
  datatype Try = Try(dirIndex: nat, r: int, c: int)

  predicate ValidTry(t: Try, size: int)
  {
    t.dirIndex < |Directions| && RandomIndex(size, t.r) && RandomIndex(size, t.c)
  }

  /**
   * The random choices of one generation: the shuffled order of the word
   * list, `MaxAttempts` tries for the k-th word of that order, and an
   * alphabet index for every cell (used only where the cell is still empty).
   */
  datatype Oracle = Oracle(order: seq<nat>, tries: seq<seq<Try>>, fill: seq<seq<nat>>)

  predicate IsPermutation(order: seq<nat>, n: nat)
  {
    |order| == n &&
    (forall i :: 0 <= i < n ==> order[i] < n) &&
    (forall i, j :: 0 <= i < j < n ==> order[i] != order[j])
  }

  predicate ValidOracle(o: Oracle, n: nat, size: int)
  {
    IsPermutation(o.order, n) &&
    |o.tries| == n &&
    (forall k :: 0 <= k < n ==> |o.tries[k]| == MaxAttempts) &&
    (forall k, a :: 0 <= k < n && 0 <= a < |o.tries[k]| ==> ValidTry(o.tries[k][a], size)) &&
    |o.fill| == size &&
    (forall r :: 0 <= r < |o.fill| ==> |o.fill[r]| == size) &&
    (forall r, c :: 0 <= r < |o.fill| && 0 <= c < |o.fill[r]| ==> o.fill[r][c] < |Alphabet|)
  }

  /** The word list in the shuffled order. */
  function Shuffle(ws: seq<Config.WordClue>, order: seq<nat>): seq<Config.WordClue>
    requires forall i :: 0 <= i < |order| ==> order[i] < |ws|
  {
    seq(|order|, i requires 0 <= i < |order| => ws[order[i]])
  }

  /** The `{word, clue}` part of each placed word. */
  function Entries(ws: seq<PlacedWord>): seq<Config.WordClue>
  {
    seq(|ws|, i requires 0 <= i < |ws| => Config.WordClue(ws[i].word, ws[i].clue))
  }

  /** `picks` are strictly increasing positions in `b` at which the entries of `a` stand. */
  ghost predicate Picks(a: seq<Config.WordClue>, b: seq<Config.WordClue>, picks: seq<nat>)
  {
    |picks| == |a| &&
    (forall j :: 0 <= j < |picks| ==> picks[j] < |b| && a[j] == b[picks[j]]) &&
    (forall i, j :: 0 <= i < j < |picks| ==> picks[i] < picks[j])
  }

  ghost predicate IsSubsequence(a: seq<Config.WordClue>, b: seq<Config.WordClue>)
  {
    exists picks :: Picks(a, b, picks)
  }

  /** The cells a drag from the first to the last of `cells` selects are `cells` themselves. */
  predicate IsWordLine(cells: seq<Pos>)
  {
    cells == [] ||
    (IsStraight(cells[0], cells[|cells| - 1]) && LineCells(cells[0], cells[|cells| - 1]) == cells)
  }

  /** Every cell some placed word occupies. */
  function CellsOf(ws: seq<PlacedWord>): set<Pos>
  {
    if ws == [] then {} else CellsOf(ws[..|ws| - 1]) + CellSet(ws[|ws| - 1].cells)
  }

  function CellSet(cells: seq<Pos>): set<Pos>
  {
    set i | 0 <= i < |cells| :: cells[i]
  }

  /** What the fill loop leaves in a cell: a filler letter where it was empty. */
  function Filled(cell: Cell, filler: char): Cell
  {
    if cell == Empty then Letter(filler) else cell
  }

  predicate FitsTry(g: array2<Cell>, word: string, t: Try)
    reads g
    requires IsSquare(g) && ValidTry(t, g.Length0)
  {
    Fits(g, word, Pos(t.r, t.c), Directions[t.dirIndex])
  }

  predicate FitsTryOn(b: Board, word: string, t: Try)
    requires IsBoard(b, |b|) && ValidTry(t, |b|)
  {
    FitsOn(b, word, Pos(t.r, t.c), Directions[t.dirIndex])
  }

  predicate ValidTries(tries: seq<Try>, size: int)
  {
    forall a :: 0 <= a < |tries| ==> ValidTry(tries[a], size)
  }

  /** The first of the tries from index `a` on whose line fits on `b`, if any. */
  function FirstFit(b: Board, word: string, tries: seq<Try>, a: nat): (r: Option<nat>)
    requires IsBoard(b, |b|) && ValidTries(tries, |b|) && a <= |tries|
    ensures r.None? <==> forall i :: a <= i < |tries| ==> !FitsTryOn(b, word, tries[i])
    ensures r.Some? ==>
              a <= r.value < |tries| && FitsTryOn(b, word, tries[r.value]) &&
              forall i :: a <= i < r.value ==> !FitsTryOn(b, word, tries[i])
    decreases |tries| - a
  {
    if a == |tries| then None
    else if FitsTryOn(b, word, tries[a]) then Some(a)
    else FirstFit(b, word, tries, a + 1)
  }

  /**
   * placeWord on a board value, from try `a` on: the first try whose line
   * fits gets the word written along it and its cells returned; with none,
   * the board is kept.
   */
  function PlaceOn(b: Board, word: string, tries: seq<Try>, a: nat): (r: (Board, Option<seq<Pos>>))
    requires IsBoard(b, |b|) && ValidTries(tries, |b|) && a <= |tries|
    ensures IsBoard(r.0, |b|)
    decreases |tries| - a
  {
    if a == |tries| then (b, None)
    else if FitsTryOn(b, word, tries[a]) then
      var origin, d := Pos(tries[a].r, tries[a].c), Directions[tries[a].dirIndex];
      (WriteOn(b, word, origin, d), Some(WordCells(origin, d, |word|)))
    else PlaceOn(b, word, tries, a + 1)
  }

  /** PlaceOn writes along the line of the first try that fits, and keeps the board when none does. */
  lemma {:induction false} PlaceOnFirstFit(b: Board, word: string, tries: seq<Try>, a: nat)
    requires IsBoard(b, |b|) && ValidTries(tries, |b|) && a <= |tries|
    ensures FirstFit(b, word, tries, a).None? ==> PlaceOn(b, word, tries, a) == (b, None)
    ensures FirstFit(b, word, tries, a).Some? ==>
              var f := FirstFit(b, word, tries, a).value;
              var origin, d := Pos(tries[f].r, tries[f].c), Directions[tries[f].dirIndex];
              PlaceOn(b, word, tries, a) == (WriteOn(b, word, origin, d), Some(WordCells(origin, d, |word|)))
    decreases |tries| - a
  {
    if a < |tries| && !FitsTryOn(b, word, tries[a]) {
      PlaceOnFirstFit(b, word, tries, a + 1);
    }
  }

  /** One step of the placement loop on a board value: the word joins, unfound, when placeWord finds it a line. */
  function PlaceStep(b: Board, placed: seq<PlacedWord>, item: Config.WordClue, tries: seq<Try>): (r: (Board, seq<PlacedWord>))
    requires IsBoard(b, |b|) && ValidTries(tries, |b|)
    ensures IsBoard(r.0, |b|)
  {
    var (b', coords) := PlaceOn(b, item.word, tries, 0);
    (b', if coords.Some? then placed + [PlacedWord(item.word, item.clue, false, coords.value)] else placed)
  }

  /** A word is dropped, the board unchanged, exactly when none of its tries fits the board. */
  lemma PlaceStepDrops(b: Board, placed: seq<PlacedWord>, item: Config.WordClue, tries: seq<Try>)
    requires IsBoard(b, |b|) && ValidTries(tries, |b|)
    ensures PlaceStep(b, placed, item, tries).1 == placed <==>
              forall a :: 0 <= a < |tries| ==> !FitsTryOn(b, item.word, tries[a])
    ensures PlaceStep(b, placed, item, tries).1 == placed ==> PlaceStep(b, placed, item, tries).0 == b
  {
    PlaceOnFirstFit(b, item.word, tries, 0);
    if FirstFit(b, item.word, tries, 0).Some? {
      assert |PlaceStep(b, placed, item, tries).1| == |placed| + 1;
    }
  }

  /**
   * When try `a` is the first that fits, the word is appended, unfound, on
   * the cells of that try's line; its letters are written along them, every
   * other cell is unchanged, and no letter already on the board changes.
   */
  lemma PlaceStepKeeps(b: Board, placed: seq<PlacedWord>, item: Config.WordClue, tries: seq<Try>, a: nat)
    requires IsBoard(b, |b|) && ValidTries(tries, |b|)
    requires a < |tries| && FitsTryOn(b, item.word, tries[a])
    requires forall i :: 0 <= i < a ==> !FitsTryOn(b, item.word, tries[i])
    ensures var r := PlaceStep(b, placed, item, tries);
            var origin, d := Pos(tries[a].r, tries[a].c), Directions[tries[a].dirIndex];
            r.1 == placed + [PlacedWord(item.word, item.clue, false, WordCells(origin, d, |item.word|))] &&
            r.0 == WriteOn(b, item.word, origin, d) &&
            (forall k :: 0 <= k < |item.word| ==>
               InGrid(|b|, Step(origin, d, k)) && CellOf(r.0, Step(origin, d, k)) == Letter(item.word[k])) &&
            (forall p :: InGrid(|b|, p) && p !in WordCells(origin, d, |item.word|) ==> CellOf(r.0, p) == CellOf(b, p)) &&
            (forall p :: InGrid(|b|, p) && CellOf(b, p) != Empty ==> CellOf(r.0, p) == CellOf(b, p))
  {
    assert FirstFit(b, item.word, tries, 0) == Some(a);
    PlaceOnFirstFit(b, item.word, tries, 0);
    WriteOnMeaning(b, item.word, Pos(tries[a].r, tries[a].c), Directions[tries[a].dirIndex]);
  }

  /**
   * The placement loop of generateGrid on a board value, over the first `k`
   * items of the list: each in turn, with its own tries, on the board the
   * earlier items left.
   */
  function PlaceFirst(b: Board, items: seq<Config.WordClue>, tries: seq<seq<Try>>, k: nat): (r: (Board, seq<PlacedWord>))
    requires IsBoard(b, |b|) && |tries| == |items| && k <= |items|
    requires forall j :: 0 <= j < |tries| ==> ValidTries(tries[j], |b|)
    ensures IsBoard(r.0, |b|)
  {
    if k == 0 then (b, [])
    else
      var prev := PlaceFirst(b, items, tries, k - 1);
      PlaceStep(prev.0, prev.1, items[k - 1], tries[k - 1])
  }

  /** One more step of the loop after the first `k` items places the first `k + 1`. */
  lemma PlaceFirstNext(b: Board, items: seq<Config.WordClue>, tries: seq<seq<Try>>, k: nat,
                       prev: (Board, seq<PlacedWord>), next: (Board, seq<PlacedWord>))
    requires IsBoard(b, |b|) && |tries| == |items| && k < |items|
    requires forall j :: 0 <= j < |tries| ==> ValidTries(tries[j], |b|)
    requires prev == PlaceFirst(b, items, tries, k)
    requires next == PlaceStep(prev.0, prev.1, items[k], tries[k])
    ensures next == PlaceFirst(b, items, tries, k + 1)
  {
  }

  /** The placement loop over the whole list. */
  function PlaceAll(b: Board, items: seq<Config.WordClue>, tries: seq<seq<Try>>): (r: (Board, seq<PlacedWord>))
    requires IsBoard(b, |b|) && |tries| == |items|
    requires forall j :: 0 <= j < |tries| ==> ValidTries(tries[j], |b|)
  {
    PlaceFirst(b, items, tries, |items|)
  }

  /**
   * The k-th item of the list is kept exactly when one of its tries fits the
   * board the earlier items left; kept items keep their order, unfound.
   */
  lemma PlaceFirstKeeps(b: Board, items: seq<Config.WordClue>, tries: seq<seq<Try>>, k: nat)
    requires IsBoard(b, |b|) && |tries| == |items| && k < |items|
    requires forall j :: 0 <= j < |tries| ==> ValidTries(tries[j], |b|)
    ensures var prev := PlaceFirst(b, items, tries, k);
            var next := PlaceFirst(b, items, tries, k + 1);
            (next.1 != prev.1 <==> exists a :: 0 <= a < |tries[k]| && FitsTryOn(prev.0, items[k].word, tries[k][a])) &&
            (next.1 == prev.1 || (|next.1| == |prev.1| + 1 && next.1[..|prev.1|] == prev.1 &&
                                  next.1[|prev.1|].word == items[k].word && next.1[|prev.1|].clue == items[k].clue &&
                                  !next.1[|prev.1|].found))
  {
    var prev := PlaceFirst(b, items, tries, k);
    PlaceStepDrops(prev.0, prev.1, items[k], tries[k]);
    var next := PlaceFirst(b, items, tries, k + 1);
    if next.1 != prev.1 {
      assert next.1[..|prev.1|] == prev.1;
    }
  }

  /** Each try fits the array exactly when it fits the array's snapshot. */
  lemma FitsTrySnapshot(g: array2<Cell>, word: string, tries: seq<Try>)
    requires IsSquare(g) && ValidTries(tries, g.Length0)
    ensures forall a :: 0 <= a < |tries| ==> FitsTry(g, word, tries[a]) == FitsTryOn(Snapshot(g), word, tries[a])
  {
    forall a | 0 <= a < |tries|
      ensures FitsTry(g, word, tries[a]) == FitsTryOn(Snapshot(g), word, tries[a])
    {
      FitsSnapshot(g, word, Pos(tries[a].r, tries[a].c), Directions[tries[a].dirIndex]);
    }
  }

  /** The kept words, read as `{word, clue}` entries, stand among the first `k` items of the list in the list's order. */
  lemma {:induction false} PlaceFirstPicks(b: Board, items: seq<Config.WordClue>, tries: seq<seq<Try>>, k: nat)
    returns (picks: seq<nat>)
    requires IsBoard(b, |b|) && |tries| == |items| && k <= |items|
    requires forall j :: 0 <= j < |tries| ==> ValidTries(tries[j], |b|)
    ensures Picks(Entries(PlaceFirst(b, items, tries, k).1), items, picks)
    ensures forall j :: 0 <= j < |picks| ==> picks[j] < k
  {
    if k == 0 {
      picks := [];
    } else {
      var prev := PlaceFirst(b, items, tries, k - 1);
      var earlier := PlaceFirstPicks(b, items, tries, k - 1);
      var next := PlaceFirst(b, items, tries, k);
      if next.1 == prev.1 {
        picks := earlier;
      } else {
        PlaceFirstKeeps(b, items, tries, k - 1);
        PicksStep(prev.1, next.1, items, earlier, k - 1);
        picks := earlier + [k - 1];
      }
    }
  }

  /** A placed word spelled on a board value: one cell per letter, each on the board and holding that letter. */
  predicate SpellsOn(b: Board, w: PlacedWord)
    requires IsBoard(b, |b|)
  {
    |w.cells| == |w.word| &&
    forall i :: 0 <= i < |w.cells| ==> InGrid(|b|, w.cells[i]) && CellOf(b, w.cells[i]) == Letter(w.word[i])
  }

  /**
   * What the placement loop keeps true of a board value and its kept words:
   * each word is spelled along a selectable line, unfound and no longer than
   * a row, and every letter on the board belongs to one of them.
   */
  ghost predicate PlacedOn(b: Board, ws: seq<PlacedWord>)
    requires IsBoard(b, |b|)
  {
    (forall j :: 0 <= j < |ws| ==> SpellsOn(b, ws[j]) && IsWordLine(ws[j].cells)) &&
    Unfound(ws, |b|) &&
    forall r, c :: 0 <= r < |b| && 0 <= c < |b| && b[r][c] != Empty ==> Pos(r, c) in CellsOf(ws)
  }

  /** A word placed on the line of a fitting try is no longer than a row. */
  lemma FitsOnLength(b: Board, word: string, origin: Pos, d: Dir)
    requires IsBoard(b, |b|) && RandomIndex(|b|, origin.r) && RandomIndex(|b|, origin.c)
    requires FitsOn(b, word, origin, d)
    ensures |word| <= |b|
  {
  }

  /** Words spelled on a board stay spelled when no letter on it changes. */
  lemma SpelledStay(b: Board, b': Board, placed: seq<PlacedWord>)
    requires IsBoard(b, |b|) && IsBoard(b', |b|)
    requires forall p :: InGrid(|b|, p) && CellOf(b, p) != Empty ==> CellOf(b', p) == CellOf(b, p)
    requires forall j :: 0 <= j < |placed| ==> SpellsOn(b, placed[j])
    ensures forall j :: 0 <= j < |placed| ==> SpellsOn(b', placed[j])
  {
    forall j, i | 0 <= j < |placed| && 0 <= i < |placed[j].cells|
      ensures CellOf(b', placed[j].cells[i]) == Letter(placed[j].word[i])
    {
      assert CellOf(b, placed[j].cells[i]) != Empty;
    }
  }

  /** Every letter is covered when the new letters lie on the new word's line and the rest stay where they were. */
  lemma CoveredAfterWrite(b: Board, b': Board, placed: seq<PlacedWord>, w: PlacedWord, origin: Pos, d: Dir)
    requires IsBoard(b, |b|) && IsBoard(b', |b|)
    requires w.cells == WordCells(origin, d, |w.word|)
    requires forall p :: InGrid(|b|, p) && p !in w.cells ==> CellOf(b', p) == CellOf(b, p)
    requires forall r, c :: 0 <= r < |b| && 0 <= c < |b| && b[r][c] != Empty ==> Pos(r, c) in CellsOf(placed)
    ensures forall r, c :: 0 <= r < |b| && 0 <= c < |b| && b'[r][c] != Empty ==> Pos(r, c) in CellsOf(placed + [w])
  {
    assert (placed + [w])[..|placed|] == placed;
    forall r, c | 0 <= r < |b| && 0 <= c < |b| && b'[r][c] != Empty
      ensures Pos(r, c) in CellsOf(placed + [w])
    {
      var p := Pos(r, c);
      InWordCells(origin, d, |w.word|, p);
      if p in w.cells {
        assert w.cells[OffsetOf(origin, d, p)] == p;
      } else {
        assert CellOf(b', p) == CellOf(b, p);
      }
    }
  }

  /**
   * A word written along the line of a fitting try, with no other cell and no
   * earlier letter changed, keeps PlacedOn.
   */
  lemma WrittenPlaced(b: Board, b': Board, placed: seq<PlacedWord>, w: PlacedWord, origin: Pos, d: Dir)
    requires IsBoard(b, |b|) && IsBoard(b', |b|) && PlacedOn(b, placed)
    requires RandomIndex(|b|, origin.r) && RandomIndex(|b|, origin.c) && FitsOn(b, w.word, origin, d)
    requires w.cells == WordCells(origin, d, |w.word|) && !w.found
    requires forall k :: 0 <= k < |w.word| ==> InGrid(|b|, Step(origin, d, k)) && CellOf(b', Step(origin, d, k)) == Letter(w.word[k])
    requires forall p :: InGrid(|b|, p) && p !in w.cells ==> CellOf(b', p) == CellOf(b, p)
    requires forall p :: InGrid(|b|, p) && CellOf(b, p) != Empty ==> CellOf(b', p) == CellOf(b, p)
    ensures PlacedOn(b', placed + [w])
  {
    SpelledStay(b, b', placed);
    NewWordPlaced(b', w, origin, d);
    FitsOnLength(b, w.word, origin, d);
    CoveredAfterWrite(b, b', placed, w, origin, d);
    PlacedOnAppend(b', placed, w);
  }

  /** A word written letter by letter along its line is spelled there, on a selectable line. */
  lemma NewWordPlaced(b: Board, w: PlacedWord, origin: Pos, d: Dir)
    requires IsBoard(b, |b|) && w.cells == WordCells(origin, d, |w.word|)
    requires forall k :: 0 <= k < |w.word| ==> InGrid(|b|, Step(origin, d, k)) && CellOf(b, Step(origin, d, k)) == Letter(w.word[k])
    ensures SpellsOn(b, w) && IsWordLine(w.cells)
  {
    if |w.word| >= 1 {
      WordCellsSelectable(origin, d, |w.word|);
    }
  }

  /** PlacedOn for a list with one more word, from its parts. */
  lemma PlacedOnAppend(b: Board, placed: seq<PlacedWord>, w: PlacedWord)
    requires IsBoard(b, |b|)
    requires forall j :: 0 <= j < |placed| ==> SpellsOn(b, placed[j]) && IsWordLine(placed[j].cells)
    requires Unfound(placed, |b|)
    requires SpellsOn(b, w) && IsWordLine(w.cells) && !w.found && |w.word| <= |b|
    requires forall r, c :: 0 <= r < |b| && 0 <= c < |b| && b[r][c] != Empty ==> Pos(r, c) in CellsOf(placed + [w])
    ensures PlacedOn(b, placed + [w])
  {
    forall j | 0 <= j < |placed| + 1
      ensures SpellsOn(b, (placed + [w])[j]) && IsWordLine((placed + [w])[j].cells)
    {
      if j < |placed| {
        assert (placed + [w])[j] == placed[j];
      }
    }
  }

  /** One step of the placement loop keeps PlacedOn. */
  lemma PlaceStepPlaced(b: Board, placed: seq<PlacedWord>, item: Config.WordClue, tries: seq<Try>)
    requires IsBoard(b, |b|) && ValidTries(tries, |b|) && PlacedOn(b, placed)
    ensures PlacedOn(PlaceStep(b, placed, item, tries).0, PlaceStep(b, placed, item, tries).1)
  {
    PlaceStepDrops(b, placed, item, tries);
    var f := FirstFit(b, item.word, tries, 0);
    if f.Some? {
      var a := f.value;
      PlaceStepKeeps(b, placed, item, tries, a);
      var origin, d := Pos(tries[a].r, tries[a].c), Directions[tries[a].dirIndex];
      var w := PlacedWord(item.word, item.clue, false, WordCells(origin, d, |item.word|));
      WrittenPlaced(b, PlaceStep(b, placed, item, tries).0, placed, w, origin, d);
    }
  }

  /** From a blank board, the placement loop keeps PlacedOn. */
  lemma {:induction false} PlaceFirstPlaced(b: Board, items: seq<Config.WordClue>, tries: seq<seq<Try>>, k: nat)
    requires IsBoard(b, |b|) && |tries| == |items| && k <= |items|
    requires forall j :: 0 <= j < |tries| ==> ValidTries(tries[j], |b|)
    requires forall r, c :: 0 <= r < |b| && 0 <= c < |b| ==> b[r][c] == Empty
    ensures PlacedOn(PlaceFirst(b, items, tries, k).0, PlaceFirst(b, items, tries, k).1)
  {
    if k > 0 {
      PlaceFirstPlaced(b, items, tries, k - 1);
      var prev := PlaceFirst(b, items, tries, k - 1);
      PlaceStepPlaced(prev.0, prev.1, items[k - 1], tries[k - 1]);
    }
  }

  /** No cell of the grid is empty. */
  ghost predicate Full(g: array2<Cell>)
    reads g
  {
    forall r, c :: 0 <= r < g.Length0 && 0 <= c < g.Length1 ==> g[r, c] != Empty
  }

  /** Every cell of the grid is empty. */
  ghost predicate Blank(g: array2<Cell>)
    reads g
  {
    forall r, c :: 0 <= r < g.Length0 && 0 <= c < g.Length1 ==> g[r, c] == Empty
  }

  /** Every word of `ws` can be read along its cells, which form a selectable line. */
  ghost predicate OnGrid(g: array2<Cell>, ws: seq<PlacedWord>)
    reads g
  {
    forall j :: 0 <= j < |ws| ==> Spells(g, ws[j]) && IsWordLine(ws[j].cells)
  }

  /**
   * OnGrid stated word by word from the last one, the form the session's
   * invariant uses (each use unfolds only the last word).
   */
  ghost predicate WordsOnGrid(g: array2<Cell>, ws: seq<PlacedWord>)
    reads g
  {
    ws == [] || (WordsOnGrid(g, ws[..|ws| - 1]) && Spells(g, ws[|ws| - 1]) && IsWordLine(ws[|ws| - 1].cells))
  }

  /** The word-by-word form says exactly what OnGrid says. */
  lemma {:induction false} WordsOnGridIff(g: array2<Cell>, ws: seq<PlacedWord>)
    ensures WordsOnGrid(g, ws) <==> OnGrid(g, ws)
  {
    if ws != [] {
      var init := ws[..|ws| - 1];
      WordsOnGridIff(g, init);
      assert forall j :: 0 <= j < |init| ==> init[j] == ws[j];
    }
  }

  /** Every letter in the grid belongs to some word of `ws`. */
  ghost predicate Covered(g: array2<Cell>, ws: seq<PlacedWord>)
    reads g
  {
    forall r, c :: 0 <= r < g.Length0 && 0 <= c < g.Length1 && g[r, c] != Empty ==> Pos(r, c) in CellsOf(ws)
  }

  /** No word of `ws` is found yet and each fits in a row of `size` cells. */
  predicate Unfound(ws: seq<PlacedWord>, size: int)
  {
    forall j :: 0 <= j < |ws| ==> !ws[j].found && |ws[j].word| <= size
  }

  /** The two lists hold the same words on the same cells (the found flags may differ). */
  predicate SameLines(ws: seq<PlacedWord>, ws': seq<PlacedWord>)
  {
    |ws| == |ws'| &&
    forall j :: 0 <= j < |ws| ==> ws[j].word == ws'[j].word && ws[j].cells == ws'[j].cells
  }

  lemma {:induction false} SameLinesOnGrid(g: array2<Cell>, ws: seq<PlacedWord>, ws': seq<PlacedWord>)
    requires WordsOnGrid(g, ws) && SameLines(ws, ws')
    ensures WordsOnGrid(g, ws')
  {
    if ws' != [] {
      var n := |ws|;
      assert SameLines(ws[..n - 1], ws'[..n - 1]);
      SameLinesOnGrid(g, ws[..n - 1], ws'[..n - 1]);
      assert Spells(g, ws[n - 1]);
    }
  }

  /**
   * The writing loop of placeWord, run once a try has passed canPlaceWord:
   * the i-th letter goes to the i-th cell of the line and the cells are
   * returned in order. `written` records the cells written and what they now
   * hold; every other cell keeps its value.
   */
  method WriteWord(g: array2<Cell>, word: string, origin: Pos, dir: Dir)
    returns (wordCells: seq<Pos>, ghost written: map<Pos, Cell>)
    requires IsSquare(g) && RandomIndex(g.Length0, origin.r) && RandomIndex(g.Length0, origin.c)
    requires InGrid(g.Length0, Step(origin, dir, |word| - 1))
    modifies g
    ensures |wordCells| == |word| && forall k :: 0 <= k < |word| ==> wordCells[k] == Step(origin, dir, k)
    ensures forall q :: q in written ==> q in wordCells
    ensures forall k :: 0 <= k < |word| ==> Step(origin, dir, k) in written && written[Step(origin, dir, k)] == Letter(word[k])
    ensures forall r, c {:trigger g[r, c]} :: 0 <= r < g.Length0 && 0 <= c < g.Length1 ==>
              g[r, c] == if Pos(r, c) in written then written[Pos(r, c)] else old(g[r, c])
  {
    var size := g.Length0;
    wordCells := [];
    written := map[];
    var i := 0;
    while i < |word|
      invariant 0 <= i <= |word| && |wordCells| == i
      invariant forall k :: 0 <= k < i ==> wordCells[k] == Step(origin, dir, k)
      invariant forall q :: q in written ==> q in wordCells
      invariant forall k :: 0 <= k < i ==> Step(origin, dir, k) in written && written[Step(origin, dir, k)] == Letter(word[k])
      invariant forall r, c {:trigger g[r, c]} :: 0 <= r < size && 0 <= c < size ==>
                  g[r, c] == if Pos(r, c) in written then written[Pos(r, c)] else old(g[r, c])
    {
      var p := Step(origin, dir, i);
      StepBetween(size, origin, dir, |word|, i);
      forall k | 0 <= k < i
        ensures Step(origin, dir, k) != p
      {
        if Step(origin, dir, k) == p {
          StepInjective(origin, dir, k, i);
        }
      }
      g[p.r, p.c] := Letter(word[i]);
      written := written[p := Letter(word[i])];
      wordCells := wordCells + [p];
      i := i + 1;
    }
  }

  /**
   * The branch of placeWord for a try that fits: the word is written along
   * its line and the cells returned in order; no other cell changes and no
   * letter already in the grid changes.
   */
  method PlaceAt(g: array2<Cell>, word: string, origin: Pos, dir: Dir) returns (wordCells: seq<Pos>)
    requires IsSquare(g) && RandomIndex(g.Length0, origin.r) && RandomIndex(g.Length0, origin.c)
    requires Fits(g, word, origin, dir)
    modifies g
    ensures wordCells == WordCells(origin, dir, |word|)
    ensures forall k :: 0 <= k < |word| ==> InArray(g, wordCells[k]) && At(g, wordCells[k]) == Letter(word[k])
    ensures forall r, c :: 0 <= r < g.Length0 && 0 <= c < g.Length1 && Pos(r, c) !in wordCells ==>
              g[r, c] == old(g[r, c])
    ensures forall r, c :: 0 <= r < g.Length0 && 0 <= c < g.Length1 && old(g[r, c]) != Empty ==>
              g[r, c] == old(g[r, c])
    ensures Snapshot(g) == WriteOn(old(Snapshot(g)), word, origin, dir)
  {
    ghost var before := Snapshot(g);
    ghost var written;
    wordCells, written := WriteWord(g, word, origin, dir);
    forall k | 0 <= k < |word|
      ensures InArray(g, wordCells[k]) && At(g, wordCells[k]) == Letter(word[k])
    {
      StepBetween(g.Length0, origin, dir, |word|, k);
    }
    forall r, c | 0 <= r < g.Length0 && 0 <= c < g.Length1 && old(g[r, c]) != Empty
      ensures g[r, c] == old(g[r, c])
    {
      if Pos(r, c) in written {
        var k :| 0 <= k < |word| && wordCells[k] == Pos(r, c);
        assert old(Compatible(At(g, Step(origin, dir, k)), word[k]));
      }
    }
    assert wordCells == WordCells(origin, dir, |word|);
    WrittenBoard(before, Snapshot(g), word, origin, dir);
  }

  /**
   * placeWord: up to MaxAttempts tries; the first try whose line fits is
   * written into the grid and its cells returned; if none fits the grid is
   * left as it was.
   */
  method PlaceWord(g: array2<Cell>, word: string, tries: seq<Try>) returns (coords: Option<seq<Pos>>)
    requires IsSquare(g)
    requires |tries| == MaxAttempts && forall a :: 0 <= a < |tries| ==> ValidTry(tries[a], g.Length0)
    modifies g
    ensures (Snapshot(g), coords) == PlaceOn(old(Snapshot(g)), word, tries, 0)
    ensures coords.None? ==> unchanged(g)
    ensures coords.Some? ==>
              |word| <= g.Length0 && IsWordLine(coords.value) &&
              |coords.value| == |word| &&
              forall k :: 0 <= k < |word| ==> InArray(g, coords.value[k]) && At(g, coords.value[k]) == Letter(word[k])
    ensures coords.Some? ==>
              forall r, c :: 0 <= r < g.Length0 && 0 <= c < g.Length1 && Pos(r, c) !in coords.value ==>
                g[r, c] == old(g[r, c])
    ensures forall r, c :: 0 <= r < g.Length0 && 0 <= c < g.Length1 && old(g[r, c]) != Empty ==>
              g[r, c] == old(g[r, c])
  {
    ghost var before := Snapshot(g);
    FitsTrySnapshot(g, word, tries);
    var a := 0;
    while a < MaxAttempts
      invariant 0 <= a <= MaxAttempts
      invariant unchanged(g)
      invariant PlaceOn(before, word, tries, a) == PlaceOn(before, word, tries, 0)
    {
      var t := tries[a];
      var dir := Directions[t.dirIndex];
      var origin := Pos(t.r, t.c);
      var ok := CanPlaceWord(g, word, origin, dir);
      if ok {
        var wordCells := PlaceAt(g, word, origin, dir);
        if |word| >= 1 {
          WordCellsSelectable(origin, dir, |word|);
        }
        return Some(wordCells);
      }
      a := a + 1;
    }
    return None;
  }

  /**
   * One step of the placement loop of generateGrid: placeWord on the next
   * word of the shuffled list, which joins the placed words (unfound, with
   * its cells) when a line is found for it.
   */
  method PlaceNext(g: array2<Cell>, placedWords: seq<PlacedWord>, item: Config.WordClue, tries: seq<Try>)
    returns (placed: seq<PlacedWord>)
    requires IsSquare(g)
    requires |tries| == MaxAttempts && forall a :: 0 <= a < |tries| ==> ValidTry(tries[a], g.Length0)
    modifies g
    ensures placed == placedWords ||
            (|placed| == |placedWords| + 1 && placed[..|placedWords|] == placedWords &&
             placed[|placedWords|].word == item.word && placed[|placedWords|].clue == item.clue)
    ensures (Snapshot(g), placed) == PlaceStep(old(Snapshot(g)), placedWords, item, tries)
  {
    var coords := PlaceWord(g, item.word, tries);
    if coords.Some? {
      placed := placedWords + [PlacedWord(item.word, item.clue, false, coords.value)];
      assert placed[..|placedWords|] == placedWords;
    } else {
      placed := placedWords;
    }
  }

  /**
   * The placement loop of generateGrid on a blank grid: each word of the
   * shuffled list in turn, kept (unfound, with its cells) when placeWord
   * finds it a line.
   */
  method PlaceWords(g: array2<Cell>, availableWords: seq<Config.WordClue>, tries: seq<seq<Try>>)
    returns (placedWords: seq<PlacedWord>)
    requires IsSquare(g) && Blank(g) && |tries| == |availableWords|
    requires forall k :: 0 <= k < |tries| ==> |tries[k]| == MaxAttempts
    requires forall k, a :: 0 <= k < |tries| && 0 <= a < |tries[k]| ==> ValidTry(tries[k][a], g.Length0)
    modifies g
    ensures Unfound(placedWords, g.Length0) && OnGrid(g, placedWords) && Covered(g, placedWords)
    ensures (Snapshot(g), placedWords) == PlaceAll(BlankBoard(g.Length0), availableWords, tries)
  {
    ghost var blank := BlankBoard(g.Length0);
    BoardsEqual(Snapshot(g), blank, g.Length0);
    placedWords := [];
    var k := 0;
    while k < |availableWords|
      invariant 0 <= k <= |availableWords|
      invariant (Snapshot(g), placedWords) == PlaceFirst(blank, availableWords, tries, k)
    {
      ghost var prev := (Snapshot(g), placedWords);
      placedWords := PlaceNext(g, placedWords, availableWords[k], tries[k]);
      PlaceFirstNext(blank, availableWords, tries, k, prev, (Snapshot(g), placedWords));
      k := k + 1;
    }
    PlaceAllOnGrid(g, placedWords, availableWords, tries);
  }


  /** Keeping the k-th entry of the list extends the picks by k. */
  lemma PicksStep(ws: seq<PlacedWord>, ws': seq<PlacedWord>, b: seq<Config.WordClue>, picks: seq<nat>, k: nat)
    requires Picks(Entries(ws), b, picks) && (forall j :: 0 <= j < |picks| ==> picks[j] < k) && k < |b|
    requires |ws'| == |ws| + 1 && ws'[..|ws|] == ws && ws'[|ws|].word == b[k].word && ws'[|ws|].clue == b[k].clue
    ensures Picks(Entries(ws'), b, picks + [k])
  {
    assert Entries(ws') == Entries(ws) + [b[k]];
  }

  /** The fill loop of generateGrid: every empty cell gets the letter its choice picks. */
  method FillEmptyCells(g: array2<Cell>, fill: seq<seq<nat>>)
    requires IsSquare(g) && |fill| == g.Length0
    requires forall r :: 0 <= r < |fill| ==> |fill[r]| == g.Length0
    requires forall r, c :: 0 <= r < |fill| && 0 <= c < |fill[r]| ==> fill[r][c] < |Alphabet|
    modifies g
    ensures forall r, c :: 0 <= r < g.Length0 && 0 <= c < g.Length1 ==>
              g[r, c] == Filled(old(g[r, c]), Alphabet[fill[r][c]])
  {
    var size := g.Length0;
    for r := 0 to size
      invariant forall r', c' :: 0 <= r' < size && 0 <= c' < size ==>
                  g[r', c'] == if r' < r then Filled(old(g[r', c']), Alphabet[fill[r'][c']]) else old(g[r', c'])
    {
      for c := 0 to size
        invariant forall r', c' :: 0 <= r' < size && 0 <= c' < size ==>
                    g[r', c'] == if r' < r || (r' == r && c' < c) then Filled(old(g[r', c']), Alphabet[fill[r'][c']])
                                 else old(g[r', c'])
      {
        if g[r, c] == Empty {
          g[r, c] := Letter(Alphabet[fill[r][c]]);
        }
      }
    }
  }

  /** The fill loop on a board value: every empty cell takes the letter its choice picks. */
  function FillBoard(b: Board, fill: seq<seq<nat>>): (b': Board)
    requires IsBoard(b, |b|) && |fill| == |b| && forall r :: 0 <= r < |fill| ==> |fill[r]| == |b|
    requires forall r, c :: 0 <= r < |b| && 0 <= c < |b| ==> fill[r][c] < |Alphabet|
    ensures IsBoard(b', |b|)
    ensures forall r, c {:trigger b'[r][c]} :: 0 <= r < |b| && 0 <= c < |b| ==> b'[r][c] == Filled(b[r][c], Alphabet[fill[r][c]])
  {
    seq(|b|, r requires 0 <= r < |b| =>
      seq(|b|, c requires 0 <= c < |b| => Filled(b[r][c], Alphabet[fill[r][c]])))
  }

  /**
   * What generateGrid leaves for the word list `list` and the choices `o`:
   * a size-by-size grid whose placed words are exactly those the placement
   * loop keeps on a blank board, each cell being the letter that loop left
   * there or, where it left the cell empty, the filler letter chosen for it.
   */
  ghost predicate Generated(g: array2<Cell>, ws: seq<PlacedWord>, size: nat, list: seq<Config.WordClue>, o: Oracle)
    reads g
    requires ValidOracle(o, |list|, size)
  {
    var placed := PlaceAll(BlankBoard(size), Shuffle(list, o.order), o.tries);
    g.Length0 == size && g.Length1 == size &&
    ws == placed.1 &&
    Snapshot(g) == FillBoard(placed.0, o.fill)
  }

  /**
   * What a generated grid offers the game: no cell is empty, every kept word
   * is spelled along a selectable line, unfound and no longer than a row, the
   * kept words stand in the shuffled list in its order, and every cell no
   * word covers holds the filler letter chosen for it.
   */
  lemma GeneratedMeaning(g: array2<Cell>, ws: seq<PlacedWord>, size: nat, list: seq<Config.WordClue>, o: Oracle)
    requires ValidOracle(o, |list|, size) && Generated(g, ws, size, list, o)
    ensures Full(g) && OnGrid(g, ws) && Unfound(ws, size)
    ensures IsSubsequence(Entries(ws), Shuffle(list, o.order))
    ensures forall r, c :: 0 <= r < size && 0 <= c < size && Pos(r, c) !in CellsOf(ws) ==>
              g[r, c] == Letter(Alphabet[o.fill[r][c]])
  {
    var items := Shuffle(list, o.order);
    var placed := PlaceAll(BlankBoard(size), items, o.tries);
    PlaceFirstPlaced(BlankBoard(size), items, o.tries, |items|);
    var picks := PlaceFirstPicks(BlankBoard(size), items, o.tries, |items|);
    FillBoardPlaced(placed.0, ws, o.fill);
    SnapshotFull(g);
    SnapshotSpells(g, ws);
    forall r, c | 0 <= r < size && 0 <= c < size && Pos(r, c) !in CellsOf(ws)
      ensures g[r, c] == Letter(Alphabet[o.fill[r][c]])
    {
      assert Snapshot(g)[r][c] == g[r, c];
    }
  }

  /** Filling a board on which PlacedOn holds leaves no empty cell, every kept word spelled, and the filler letters off the words. */
  lemma FillBoardPlaced(b: Board, ws: seq<PlacedWord>, fill: seq<seq<nat>>)
    requires IsBoard(b, |b|) && |fill| == |b| && forall r :: 0 <= r < |fill| ==> |fill[r]| == |b|
    requires forall r, c :: 0 <= r < |b| && 0 <= c < |b| ==> fill[r][c] < |Alphabet|
    requires PlacedOn(b, ws)
    ensures var f := FillBoard(b, fill);
            (forall r, c :: 0 <= r < |b| && 0 <= c < |b| ==> f[r][c] != Empty) &&
            (forall j :: 0 <= j < |ws| ==> SpellsOn(f, ws[j])) &&
            (forall r, c :: 0 <= r < |b| && 0 <= c < |b| && Pos(r, c) !in CellsOf(ws) ==> f[r][c] == Letter(Alphabet[fill[r][c]]))
  {
    var f := FillBoard(b, fill);
    forall j, i | 0 <= j < |ws| && 0 <= i < |ws[j].cells|
      ensures CellOf(f, ws[j].cells[i]) == Letter(ws[j].word[i])
    {
      assert SpellsOn(b, ws[j]);
    }
  }

  /** PlacedOn a grid's snapshot, read on the grid itself. */
  lemma SnapshotPlaced(g: array2<Cell>, ws: seq<PlacedWord>)
    requires IsSquare(g) && PlacedOn(Snapshot(g), ws)
    ensures OnGrid(g, ws) && Covered(g, ws) && Unfound(ws, g.Length0)
  {
    var f := Snapshot(g);
    SnapshotSpells(g, ws);
    forall r, c | 0 <= r < g.Length0 && 0 <= c < g.Length1 && g[r, c] != Empty
      ensures Pos(r, c) in CellsOf(ws)
    {
      assert f[r][c] == g[r, c];
    }
  }

  /** A grid holding what the placement loop leaves on a blank board spells every kept word, unfound, and only those letters. */
  lemma PlaceAllOnGrid(g: array2<Cell>, ws: seq<PlacedWord>, items: seq<Config.WordClue>, tries: seq<seq<Try>>)
    requires IsSquare(g) && |tries| == |items| && forall j :: 0 <= j < |tries| ==> ValidTries(tries[j], g.Length0)
    requires (Snapshot(g), ws) == PlaceAll(BlankBoard(g.Length0), items, tries)
    ensures Unfound(ws, g.Length0) && OnGrid(g, ws) && Covered(g, ws)
  {
    PlaceFirstPlaced(BlankBoard(g.Length0), items, tries, |items|);
    SnapshotPlaced(g, ws);
  }

  /** A grid whose snapshot has no empty cell is full. */
  lemma SnapshotFull(g: array2<Cell>)
    requires IsSquare(g)
    requires forall r, c :: 0 <= r < g.Length0 && 0 <= c < g.Length0 ==> Snapshot(g)[r][c] != Empty
    ensures Full(g)
  {
    forall r, c | 0 <= r < g.Length0 && 0 <= c < g.Length0
      ensures g[r, c] != Empty
    {
      assert Snapshot(g)[r][c] == g[r, c];
    }
  }

  /** Words spelled on a grid's snapshot are spelled on the grid. */
  lemma SnapshotSpells(g: array2<Cell>, ws: seq<PlacedWord>)
    requires IsSquare(g)
    requires forall j :: 0 <= j < |ws| ==> SpellsOn(Snapshot(g), ws[j])
    ensures forall j :: 0 <= j < |ws| ==> Spells(g, ws[j])
  {
    var f := Snapshot(g);
    forall j, i | 0 <= j < |ws| && 0 <= i < |ws[j].cells|
      ensures InArray(g, ws[j].cells[i]) && At(g, ws[j].cells[i]) == Letter(ws[j].word[i])
    {
      assert SpellsOn(f, ws[j]);
      var p := ws[j].cells[i];
      assert f[p.r][p.c] == g[p.r, p.c];
    }
  }

  /**
   * The body of generateGrid up to the assignment of the game state: a
   * fresh blank grid, the placement loop over the shuffled list, the fill.
   */
  method GenerateBoard(size: nat, list: seq<Config.WordClue>, o: Oracle) returns (g: array2<Cell>, placedWords: seq<PlacedWord>)
    requires ValidOracle(o, |list|, size)
    ensures fresh(g)
    ensures Generated(g, placedWords, size, list, o)
  {
    g := new Cell[size, size]((_, _) => Empty);
    var availableWords := Shuffle(list, o.order);
    placedWords := PlaceWords(g, availableWords, o.tries);
    ghost var placedBoard := Snapshot(g);
    label Placed:
    FillEmptyCells(g, o.fill);
    forall r, c | 0 <= r < size && 0 <= c < size
      ensures Snapshot(g)[r][c] == FillBoard(placedBoard, o.fill)[r][c]
    {
      assert placedBoard[r][c] == old@Placed(g[r, c]);
    }
    BoardsEqual(Snapshot(g), FillBoard(placedBoard, o.fill), size);
  }

  class WordSearch {
    /** WORDS_AND_CLUES: the configured list, fixed for the widget's life. */
    const wordsAndClues: seq<Config.WordClue>
    /** GRID_SIZE. */
    var size: int
    var grid: array2<Cell>
    var words: seq<PlacedWord>
    var foundWordsCount: int
    var score: int
    var errors: int
    /** The start timestamp in milliseconds. */
    var startTime: int
    /** Whether the one-second timer interval is scheduled. */
    var timerRunning: bool
    var isSelecting: bool
    var selectionStart: Option<Pos>
    var selectionEnd: Option<Pos>
    var selectedCells: seq<Pos>

    /** A drag in progress holds the straight line from its start to an in-grid cell; otherwise nothing is selected. */
    ghost predicate SelectionOk()
      reads this`size, this`isSelecting, this`selectionStart, this`selectedCells
    {
      (forall i :: 0 <= i < |selectedCells| ==> InGrid(size, selectedCells[i])) &&
      (isSelecting ==>
         selectionStart.Some? && InGrid(size, selectionStart.value) && selectedCells != [] &&
         IsStraight(selectionStart.value, selectedCells[|selectedCells| - 1]) &&
         selectedCells == LineCells(selectionStart.value, selectedCells[|selectedCells| - 1])) &&
      (!isSelecting ==> selectedCells == [])
    }

    function Counters(): Tally
      reads this`words, this`foundWordsCount, this`score, this`errors
    {
      Tally(words, foundWordsCount, score, errors)
    }

    /** The grid is size by size with no empty cell, and every placed word can be read along its line. */
    ghost predicate BoardOk()
      reads this`size, this`grid, this`words, grid
    {
      size >= 0 && grid.Length0 == size && grid.Length1 == size &&
      Full(grid) && WordsOnGrid(grid, words)
    }

    ghost predicate Valid()
      reads this`size, this`grid, this`words, this`foundWordsCount, this`score, this`errors,
            this`isSelecting, this`selectionStart, this`selectedCells, grid
    {
      BoardOk() && Consistent(Counters()) && SelectionOk()
    }

    /** What generateGrid guarantees for the choices `o`. */
    ghost predicate GeneratedFrom(o: Oracle)
      reads this`size, this`grid, this`words, grid
      requires size >= 0 && ValidOracle(o, |wordsAndClues|, size)
    {
      Generated(grid, words, size, wordsAndClues, o)
    }

    /** initSopaLetras: take the configuration, then start a game. */
    constructor (config: Config.GameConfig, o: Oracle, now: int)
      requires config.gridSize >= 0 && ValidOracle(o, |config.words|, config.gridSize)
      ensures wordsAndClues == config.words && size == config.gridSize
      ensures Valid() && GeneratedFrom(o)
      ensures score == 0 && errors == 0 && foundWordsCount == 0
      ensures startTime == now && timerRunning && !isSelecting && selectedCells == []
    {
      wordsAndClues := config.words;
      size := config.gridSize;
      grid := new Cell[0, 0];
      words := [];
      foundWordsCount, score, errors := 0, 0, 0;
      startTime := now;
      timerRunning := false;
      isSelecting := false;
      selectionStart, selectionEnd := None, None;
      selectedCells := [];
      new;
      InitGame(o, now);
    }

    /**
     * generateGrid: a fresh size-by-size grid of empty cells, the words tried
     * in shuffled order (those that fit are kept, unfound), then every cell
     * still empty filled from the alphabet.
     */
    method GenerateGrid(o: Oracle)
      requires size >= 0 && ValidOracle(o, |wordsAndClues|, size)
      modifies this`grid, this`words
      ensures fresh(grid)
      ensures GeneratedFrom(o)
      ensures BoardOk() && CountFound(words) == 0 && FoundLetters(words) == 0
    {
      var g, placedWords := GenerateBoard(size, wordsAndClues, o);
      grid := g;
      words := placedWords;
      GeneratedMeaning(g, placedWords, size, wordsAndClues, o);
      WordsOnGridIff(g, placedWords);
      NoneFoundCountsZero(words);
    }

    /** initGame: stop the timer, zero the counters, drop the selection, regenerate, restart the timer. */
    method InitGame(o: Oracle, now: int)
      requires size >= 0 && ValidOracle(o, |wordsAndClues|, size)
      modifies this`timerRunning, this`score, this`errors, this`foundWordsCount, this`startTime
      modifies this`words, this`selectedCells, this`isSelecting, this`grid
      ensures fresh(grid)
      ensures Valid() && GeneratedFrom(o)
      ensures score == 0 && errors == 0 && foundWordsCount == 0
      ensures startTime == now && timerRunning && !isSelecting && selectedCells == []
    {
      ResetState(now);
      GenerateGrid(o);
      assert Consistent(Counters()) && SelectionOk();
      timerRunning := true;
    }

    /** The reset block of initGame: timer stopped, counters zeroed, no words and no selection. */
    method ResetState(now: int)
      modifies this`timerRunning, this`score, this`errors, this`foundWordsCount, this`startTime
      modifies this`words, this`selectedCells, this`isSelecting
      ensures !timerRunning && score == 0 && errors == 0 && foundWordsCount == 0 && startTime == now
      ensures words == [] && selectedCells == [] && !isSelecting
    {
      timerRunning := false;
      score := 0;
      errors := 0;
      foundWordsCount := 0;
      startTime := now;
      words := [];
      selectedCells := [];
      isSelecting := false;
    }

    /** updateSelection: the end moves to p; only a straight line from the start replaces the selected cells. */
    method UpdateSelection(p: Pos)
      requires selectionStart.Some?
      modifies this`selectionEnd, this`selectedCells
      ensures selectionEnd == Some(p)
      ensures IsStraight(selectionStart.value, p) ==> selectedCells == LineCells(selectionStart.value, p)
      ensures !IsStraight(selectionStart.value, p) ==> selectedCells == old(selectedCells)
    {
      selectionEnd := Some(p);
      var start := selectionStart.value;
      var end := p;
      var dr := end.r - start.r;
      var dc := end.c - start.c;
      if dr == 0 || dc == 0 || Abs(dr) == Abs(dc) {
        // highlightCells
        selectedCells := GetCellsInLine(start, end);
      }
    }

    /** handleMouseDown on cell p. */
    method MouseDown(p: Pos)
      requires Valid() && InGrid(size, p)
      modifies this`isSelecting, this`selectionStart, this`selectionEnd, this`selectedCells
      ensures Valid()
      ensures isSelecting && selectionStart == Some(p) && selectionEnd == Some(p) && selectedCells == [p]
    {
      isSelecting := true;
      selectionStart := Some(p);
      UpdateSelection(p);
      LineCellsShape(p, p);
    }

    /** handleMouseEnter on cell p: ignored unless a drag is in progress. */
    method MouseEnter(p: Pos)
      requires Valid() && InGrid(size, p)
      modifies this`selectionEnd, this`selectedCells
      ensures Valid()
      ensures !old(isSelecting) ==> selectionEnd == old(selectionEnd) && selectedCells == old(selectedCells)
      ensures old(isSelecting) ==> selectionEnd == Some(p)
      ensures old(isSelecting) && IsStraight(selectionStart.value, p) ==> selectedCells == LineCells(selectionStart.value, p)
      ensures old(isSelecting) && !IsStraight(selectionStart.value, p) ==> selectedCells == old(selectedCells)
    {
      if !isSelecting {
        return;
      }
      UpdateSelection(p);
      var start := selectionStart.value;
      if IsStraight(start, p) {
        LineCellsShape(start, p);
        LineCellsInGrid(size, start, p);
      }
    }

    /** handleWin: the timer stops. */
    method HandleWin()
      modifies this`timerRunning
      ensures !timerRunning
    {
      timerRunning := false;
    }

    /**
     * The find-and-score part of checkSelectedWord for the text `word` read
     * from the selection: the first unfound word equal to it or to its
     * reverse is marked found and scored, and finding the last word stops the
     * timer; otherwise the error count goes up.  Words keep their letters
     * and cells.
     */
    method ScoreSelection(word: string) returns (outcome: Outcome)
      requires Consistent(Counters())
      modifies this`words, this`foundWordsCount, this`score, this`errors, this`timerRunning
      ensures Consistent(Counters())
      ensures (outcome, Counters()) == Evaluate(old(Counters()), word)
      ensures SameLines(old(words), words)
      ensures outcome.Matched? && outcome.won ==> !timerRunning
      ensures !(outcome.Matched? && outcome.won) ==> timerRunning == old(timerRunning)
    {
      ghost var t := Counters();
      var reversedWord := Reversed(word);
      var m := FirstMatch(words, word, reversedWord);
      if m.Some? {
        var i := m.value;
        var w := words[i];
        EvaluateWhenMatched(t, word, i);
        MarkFoundCounts(words, i);
        words := MarkFound(words, i);
        foundWordsCount := foundWordsCount + 1;
        score := score + |w.word| * 10;
        outcome := Matched(i, foundWordsCount == |words|);
        if foundWordsCount == |words| {
          HandleWin();
        }
      } else {
        EvaluateWhenMissed(t, word);
        errors := errors + 1;
        outcome := Missed;
      }
    }

    /** checkSelectedWord: nothing for an empty selection; otherwise score the text the selected cells read. */
    method CheckSelectedWord(ghost letters: string) returns (outcome: Outcome)
      requires grid.Length0 == size && grid.Length1 == size && WordsOnGrid(grid, words) && Consistent(Counters())
      requires forall i :: 0 <= i < |selectedCells| ==> InGrid(size, selectedCells[i])
      requires selectedCells != [] ==> AllInArray(grid, selectedCells) && letters == ReadLetters(grid, selectedCells)
      modifies this`words, this`foundWordsCount, this`score, this`errors, this`timerRunning
      ensures WordsOnGrid(grid, words) && Consistent(Counters())
      ensures selectedCells == [] ==> outcome == NoSelection && Counters() == old(Counters()) && timerRunning == old(timerRunning)
      ensures selectedCells != [] ==>
                (outcome, Counters()) == Evaluate(old(Counters()), letters)
      ensures outcome.Matched? && outcome.won ==> !timerRunning
      ensures !(outcome.Matched? && outcome.won) ==> timerRunning == old(timerRunning)
    {
      if |selectedCells| == 0 {
        return NoSelection;
      }
      var word := ReadLetters(grid, selectedCells);
      ghost var before := words;
      outcome := ScoreSelection(word);
      SameLinesOnGrid(grid, before, words);
    }

    /** clearSelection. */
    method ClearSelection()
      requires BoardOk() && Consistent(Counters()) && !isSelecting
      modifies this`selectedCells, this`selectionStart, this`selectionEnd
      ensures Valid() && selectedCells == [] && selectionStart.None? && selectionEnd.None?
      ensures Counters() == old(Counters())
    {
      selectedCells := [];
      selectionStart := None;
      selectionEnd := None;
    }

    /** handleMouseUp (also touchend): end the drag, check the selection, clear it. */
    method MouseUp() returns (outcome: Option<Outcome>)
      requires Valid()
      modifies this`isSelecting, this`selectionStart, this`selectionEnd, this`selectedCells
      modifies this`words, this`foundWordsCount, this`score, this`errors, this`timerRunning
      ensures Valid()
      ensures !old(isSelecting) ==> outcome.None? && unchanged(this)
      ensures old(isSelecting) ==>
                !isSelecting && selectedCells == [] && selectionStart.None? && selectionEnd.None? &&
                old(selectedCells) != [] && AllInArray(grid, old(selectedCells)) && outcome.Some? &&
                (outcome.value, Counters()) == Evaluate(old(Counters()), old(ReadLetters(grid, selectedCells)))
      ensures old(isSelecting) && outcome.value.Matched? && outcome.value.won ==> !timerRunning
      ensures old(isSelecting) && !(outcome.value.Matched? && outcome.value.won) ==> timerRunning == old(timerRunning)
    {
      if !isSelecting {
        return None;
      }
      var o := EndSelection();
      outcome := Some(o);
    }

    /** The part of handleMouseUp that runs while a selection is being made. */
    method EndSelection() returns (o: Outcome)
      requires Valid() && isSelecting
      modifies this`isSelecting, this`selectionStart, this`selectionEnd, this`selectedCells
      modifies this`words, this`foundWordsCount, this`score, this`errors, this`timerRunning
      ensures Valid()
      ensures !isSelecting && selectedCells == [] && selectionStart.None? && selectionEnd.None?
      ensures old(selectedCells) != [] && AllInArray(grid, old(selectedCells))
      ensures (o, Counters()) == Evaluate(old(Counters()), old(ReadLetters(grid, selectedCells)))
      ensures o.Matched? && o.won ==> !timerRunning
      ensures !(o.Matched? && o.won) ==> timerRunning == old(timerRunning)
    {
      GridCellsInArray(grid, size, selectedCells);
      ghost var letters := ReadLetters(grid, selectedCells);
      isSelecting := false;
      o := CheckSelectedWord(letters);
      ClearSelection();
    }

    /** handleTouchStart: `hit` is the grid cell under the finger, if any. */
    method TouchStart(hit: Option<Pos>)
      requires Valid() && (hit.Some? ==> InGrid(size, hit.value))
      modifies this`isSelecting, this`selectionStart, this`selectionEnd, this`selectedCells
      ensures Valid()
      ensures hit.None? ==> unchanged(this)
      ensures hit.Some? ==> isSelecting && selectionStart == hit && selectionEnd == hit && selectedCells == [hit.value]
    {
      if hit.Some? {
        MouseDown(hit.value);
      }
    }

    /** handleTouchMove: like a mouse entering the cell under the finger. */
    method TouchMove(hit: Option<Pos>)
      requires Valid() && (hit.Some? ==> InGrid(size, hit.value))
      modifies this`selectionEnd, this`selectedCells
      ensures Valid()
      ensures !old(isSelecting) || hit.None? ==> unchanged(this)
      ensures old(isSelecting) && hit.Some? ==> selectionEnd == hit
      ensures old(isSelecting) && hit.Some? && IsStraight(selectionStart.value, hit.value) ==>
                selectedCells == LineCells(selectionStart.value, hit.value)
      ensures old(isSelecting) && hit.Some? && !IsStraight(selectionStart.value, hit.value) ==>
                selectedCells == old(selectedCells)
    {
      if !isSelecting {
        return;
      }
      if hit.Some? {
        MouseEnter(hit.value);
      }
    }

    /** handleGiveUp: only the timer stops; no word and no counter changes. */
    method GiveUp()
      requires Valid()
      modifies this`timerRunning
      ensures Valid() && !timerRunning
      ensures words == old(words) && Counters() == old(Counters())
    {
      timerRunning := false;
    }

    /** A grid-size button: a different size starts a new game of that size; the current size does nothing. */
    method ChangeGridSize(newSize: int, o: Oracle, now: int)
      requires Valid() && newSize >= 0 && ValidOracle(o, |wordsAndClues|, newSize)
      modifies this
      ensures Valid()
      ensures newSize == old(size) ==> unchanged(this)
      ensures newSize != old(size) ==>
                size == newSize && fresh(grid) && GeneratedFrom(o) &&
                score == 0 && errors == 0 && foundWordsCount == 0 &&
                startTime == now && timerRunning && !isSelecting && selectedCells == []
    {
      if newSize != size {
        size := newSize;
        InitGame(o, now);
      }
    }

    /**
     * The timer text updateTimer shows at time `now`: from the start time on,
     * reading it back gives the elapsed whole seconds; before it (a clock set
     * back) the text starts with '-'.
     */
    function TimerText(now: int): (t: string)
      reads this`startTime
      ensures startTime <= now ==> IsClockText(t) && ParseClock(t) == ElapsedSeconds(startTime, now)
      ensures |t| >= 5 && ((t[0] == '-') <==> now < startTime)
    {
      var secs := ElapsedSeconds(startTime, now);
      if secs >= 0 then
        ClockTextRoundTrip(secs);
        ClockText(secs)
      else
        ClockText(secs)
    }
  }
}
