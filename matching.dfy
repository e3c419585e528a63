/**
 * The match engine (checkSelectedWord): the letters under a selection, the
 * first unfound placed word equal to them read forwards or backwards, and
 * the found-word count and score the session keeps.
 */
module Matching {
  import opened Util
  import opened Geometry
  import opened Placement

  /** An entry of the session's word list: `{ ...item, found, cells }`. */
  datatype PlacedWord = PlacedWord(word: string, clue: string, found: bool, cells: seq<Pos>)

  /** The text of a cell as `join('')` uses it: '' contributes nothing. */
  function CellText(cell: Cell): string
  {
    match cell
    case Empty => ""
    case Letter(ch) => [ch]
  }

  predicate AllInArray(g: array2<Cell>, cells: seq<Pos>)
  {
    forall p :: p in cells ==> InArray(g, p)
  }

  /** Cells inside a size-by-size grid are inside its array. */
  lemma GridCellsInArray(g: array2<Cell>, size: int, cells: seq<Pos>)
    requires g.Length0 == size && g.Length1 == size
    requires forall i :: 0 <= i < |cells| ==> InGrid(size, cells[i])
    ensures AllInArray(g, cells)
  {
    forall p | p in cells ensures InArray(g, p) {
      var i :| 0 <= i < |cells| && cells[i] == p;
    }
  }

  predicate AllLetters(g: array2<Cell>, cells: seq<Pos>)
    reads g
    requires AllInArray(g, cells)
  {
    forall p :: p in cells ==> At(g, p).Letter?
  }

  /** `selectedCells.map(pos => grid[pos.r][pos.c]).join('')`. */
  function ReadLetters(g: array2<Cell>, cells: seq<Pos>): (s: string)
    reads g
    requires AllInArray(g, cells)
    ensures AllLetters(g, cells) ==>
              |s| == |cells| && forall i :: 0 <= i < |cells| ==> s[i] == At(g, cells[i]).ch
  {
    if cells == [] then []
    else ReadLetters(g, cells[..|cells| - 1]) + CellText(At(g, cells[|cells| - 1]))
  }

  /** Reading a selection backwards gives the reversed text. */
  lemma ReadLettersReversed(g: array2<Cell>, cells: seq<Pos>)
    requires AllInArray(g, cells) && AllLetters(g, cells)
    ensures AllInArray(g, Reversed(cells)) && AllLetters(g, Reversed(cells))
    ensures ReadLetters(g, Reversed(cells)) == Reversed(ReadLetters(g, cells))
  {
    var rc := Reversed(cells);
    var n := |cells|;
    forall p | p in rc
      ensures p in cells
    {
      var i :| 0 <= i < |rc| && rc[i] == p;
      assert cells[n - 1 - i] == p;
    }
    assert AllInArray(g, rc);
    assert AllLetters(g, rc);
    var s := ReadLetters(g, cells);
    var a := ReadLetters(g, rc);
    var b := Reversed(s);
    forall i | 0 <= i < n
      ensures a[i] == b[i]
    {
      assert a[i] == At(g, rc[i]).ch;
      assert rc[i] == cells[n - 1 - i];
      assert b[i] == s[n - 1 - i];
    }
    assert a == b;
  }

  /** A non-empty selection over letters reads as a non-empty text. */
  lemma ReadLettersNonEmpty(g: array2<Cell>, cells: seq<Pos>)
    requires AllInArray(g, cells) && AllLetters(g, cells) && cells != []
    ensures ReadLetters(g, cells) != ""
  {
  }

  /** The letters of the grid along a word's cells spell the word. */
  predicate Spells(g: array2<Cell>, w: PlacedWord)
    reads g
  {
    |w.cells| == |w.word| &&
    (forall i :: 0 <= i < |w.cells| ==> InArray(g, w.cells[i])) &&
    (forall i :: 0 <= i < |w.cells| ==> At(g, w.cells[i]) == Letter(w.word[i]))
  }

  /** Selecting a placed word's own cells reads the word. */
  lemma ReadLettersSpells(g: array2<Cell>, w: PlacedWord)
    requires Spells(g, w)
    ensures AllInArray(g, w.cells) && AllLetters(g, w.cells)
    ensures ReadLetters(g, w.cells) == w.word
  {
  }

  /** The predicate `find` is called with. */
  predicate Matches(w: PlacedWord, word: string, reversedWord: string)
  {
    !w.found && (w.word == word || w.word == reversedWord)
  }

  /** `words.find(...)` from position k on: the first matching index, if any. */
  function FirstMatchFrom(ws: seq<PlacedWord>, word: string, reversedWord: string, k: nat): (m: Option<nat>)
    requires k <= |ws|
    ensures m.Some? ==> k <= m.value < |ws| && Matches(ws[m.value], word, reversedWord)
    ensures m.Some? ==> forall j :: k <= j < m.value ==> !Matches(ws[j], word, reversedWord)
    ensures m.None? ==> forall j :: k <= j < |ws| ==> !Matches(ws[j], word, reversedWord)
    decreases |ws| - k
  {
    if k == |ws| then None
    else if Matches(ws[k], word, reversedWord) then Some(k)
    else FirstMatchFrom(ws, word, reversedWord, k + 1)
  }

  /** The index of the word `find` returns. */
  function FirstMatch(ws: seq<PlacedWord>, word: string, reversedWord: string): (m: Option<nat>)
    ensures m.Some? ==> m.value < |ws| && Matches(ws[m.value], word, reversedWord)
    ensures m.Some? ==> forall j :: 0 <= j < m.value ==> !Matches(ws[j], word, reversedWord)
    ensures m.None? ==> forall j :: 0 <= j < |ws| ==> !Matches(ws[j], word, reversedWord)
  {
    FirstMatchFrom(ws, word, reversedWord, 0)
  }

  /** Number of words marked found. */
  function CountFound(ws: seq<PlacedWord>): nat
  {
    if ws == [] then 0 else CountFound(ws[..|ws| - 1]) + (if ws[|ws| - 1].found then 1 else 0)
  }

  /** Total length of the words marked found (the score is ten times this). */
  function FoundLetters(ws: seq<PlacedWord>): nat
  {
    if ws == [] then 0 else FoundLetters(ws[..|ws| - 1]) + (if ws[|ws| - 1].found then |ws[|ws| - 1].word| else 0)
  }

  /** `ws` with entry i marked found (`match.found = true`). */
  function MarkFound(ws: seq<PlacedWord>, i: nat): seq<PlacedWord>
    requires i < |ws|
  {
    ws[i := ws[i].(found := true)]
  }

  /**
   * The found count never exceeds the number of words, and equals it exactly
   * when every word is found.
   */
  lemma {:induction false} CountFoundBound(ws: seq<PlacedWord>)
    ensures CountFound(ws) <= |ws|
    ensures CountFound(ws) == |ws| <==> forall j :: 0 <= j < |ws| ==> ws[j].found
  {
    if ws != [] {
      var init := ws[..|ws| - 1];
      CountFoundBound(init);
      assert forall j :: 0 <= j < |init| ==> init[j] == ws[j];
    }
  }

  /** A list with no found word has count 0 and no found letters. */
  lemma {:induction false} NoneFoundCountsZero(ws: seq<PlacedWord>)
    requires forall j :: 0 <= j < |ws| ==> !ws[j].found
    ensures CountFound(ws) == 0 && FoundLetters(ws) == 0
  {
    if ws != [] {
      NoneFoundCountsZero(ws[..|ws| - 1]);
    }
  }

  /**
   * Marking an unfound word found raises the count by exactly one and the
   * found letters by exactly that word's length.
   */
  lemma {:induction false} MarkFoundCounts(ws: seq<PlacedWord>, i: nat)
    requires i < |ws| && !ws[i].found
    ensures CountFound(MarkFound(ws, i)) == CountFound(ws) + 1
    ensures FoundLetters(MarkFound(ws, i)) == FoundLetters(ws) + |ws[i].word|
  {
    var ws' := MarkFound(ws, i);
    var n := |ws|;
    if i == n - 1 {
      assert ws'[..n - 1] == ws[..n - 1];
    } else {
      assert ws'[..n - 1] == MarkFound(ws[..n - 1], i);
      MarkFoundCounts(ws[..n - 1], i);
    }
  }

  /** Once every word is found, no selection matches any more. */
  lemma AllFoundNoMatch(ws: seq<PlacedWord>, word: string, reversedWord: string)
    requires CountFound(ws) == |ws|
    ensures FirstMatch(ws, word, reversedWord).None?
  {
    CountFoundBound(ws);
  }

  /** An empty word can never be matched: a selection always reads at least one letter. */
  lemma EmptyWordNeverMatched(g: array2<Cell>, cells: seq<Pos>, w: PlacedWord)
    requires AllInArray(g, cells) && AllLetters(g, cells) && cells != []
    requires w.word == ""
    ensures !Matches(w, ReadLetters(g, cells), Reversed(ReadLetters(g, cells)))
  {
  }

  /** What a finished selection led to. */
  datatype Outcome = NoSelection | Missed | Matched(index: nat, won: bool)

  /** The part of the session state a match updates. */
  datatype Tally = Tally(words: seq<PlacedWord>, foundWordsCount: int, score: int, errors: int)

  /** The tally agrees with the word list: the count and the score are those of the found words. */
  predicate Consistent(t: Tally)
  {
    t.foundWordsCount == CountFound(t.words) && t.score == 10 * FoundLetters(t.words) && t.errors >= 0
  }

  /**
   * checkSelectedWord for a non-empty selection that reads `letters`: the
   * first unfound word equal to the text or its reverse is marked found, the
   * count goes up by one and the score by ten per letter, and the game is won
   * when the count reaches the number of words; with no such word, only the
   * error count goes up.
   */
  function Evaluate(t: Tally, letters: string): (r: (Outcome, Tally))
    ensures r.0.Matched? || r.0.Missed?
    ensures |r.1.words| == |t.words| && r.1.score >= t.score
    ensures r.0.Missed? ==> r.1.errors == t.errors + 1 && r.1.foundWordsCount == t.foundWordsCount
    ensures r.0.Matched? ==>
              r.0.index < |t.words| && r.1.errors == t.errors &&
              r.1.foundWordsCount == t.foundWordsCount + 1 &&
              r.0.won == (r.1.foundWordsCount == |t.words|)
  {
    var reversedWord := Reversed(letters);
    var m := FirstMatch(t.words, letters, reversedWord);
    if m.Some? then
      var t' := Tally(MarkFound(t.words, m.value), t.foundWordsCount + 1,
                      t.score + |t.words[m.value].word| * 10, t.errors);
      (Matched(m.value, t'.foundWordsCount == |t'.words|), t')
    else
      (Missed, t.(errors := t.errors + 1))
  }

  /**
   * What a match step does: a selection misses exactly when no unfound word
   * equals its text or the reversed text, and then only the error count
   * goes up; otherwise the first such word is marked found, the count goes
   * up by one, the score by ten per letter of that word, and the step wins
   * exactly when the count reaches the number of words.
   */
  lemma EvaluateMeaning(t: Tally, letters: string)
    ensures !Evaluate(t, letters).0.NoSelection?
    ensures Evaluate(t, letters).0.Missed? <==>
              forall j :: 0 <= j < |t.words| ==> !Matches(t.words[j], letters, Reversed(letters))
    ensures Evaluate(t, letters).0.Missed? ==> Evaluate(t, letters).1 == t.(errors := t.errors + 1)
    ensures Evaluate(t, letters).0.Matched? ==>
              var i := Evaluate(t, letters).0.index;
              var t' := Evaluate(t, letters).1;
              i < |t.words| && Matches(t.words[i], letters, Reversed(letters)) &&
              (forall j :: 0 <= j < i ==> !Matches(t.words[j], letters, Reversed(letters))) &&
              t'.words == MarkFound(t.words, i) &&
              t'.foundWordsCount == t.foundWordsCount + 1 &&
              t'.score == t.score + 10 * |t.words[i].word| &&
              t'.errors == t.errors &&
              Evaluate(t, letters).0.won == (t'.foundWordsCount == |t.words|)
  {
    var m := FirstMatch(t.words, letters, Reversed(letters));
    if m.Some? {
      EvaluateWhenMatched(t, letters, m.value);
    } else {
      EvaluateWhenMissed(t, letters);
    }
  }

  /** Evaluate when the first match is word i. */
  lemma EvaluateWhenMatched(t: Tally, letters: string, i: nat)
    requires FirstMatch(t.words, letters, Reversed(letters)) == Some(i)
    ensures Evaluate(t, letters) ==
              (Matched(i, t.foundWordsCount + 1 == |t.words|),
               Tally(MarkFound(t.words, i), t.foundWordsCount + 1, t.score + |t.words[i].word| * 10, t.errors))
  {
  }

  /** Evaluate when no word matches. */
  lemma EvaluateWhenMissed(t: Tally, letters: string)
    requires FirstMatch(t.words, letters, Reversed(letters)).None?
    ensures Evaluate(t, letters) == (Missed, t.(errors := t.errors + 1))
  {
  }

  /**
   * A match step keeps the tally consistent with the word list, so the found
   * count never exceeds the number of words and never decreases, and a word
   * once found stays found.
   */
  lemma EvaluateKeepsConsistent(t: Tally, letters: string)
    requires Consistent(t)
    ensures Consistent(Evaluate(t, letters).1)
    ensures Evaluate(t, letters).1.foundWordsCount <= |Evaluate(t, letters).1.words|
    ensures Evaluate(t, letters).1.foundWordsCount >= t.foundWordsCount
    ensures |Evaluate(t, letters).1.words| == |t.words|
    ensures forall j :: 0 <= j < |t.words| && t.words[j].found ==> Evaluate(t, letters).1.words[j].found
  {
    var res := Evaluate(t, letters);
    if res.0.Matched? {
      MarkFoundCounts(t.words, res.0.index);
    }
    CountFoundBound(res.1.words);
  }

  /**
   * There is no terminal "won" state: once every word is found, a further
   * selection is counted as an error.
   */
  lemma AfterWinEverySelectionIsAnError(t: Tally, letters: string)
    requires Consistent(t) && t.foundWordsCount == |t.words|
    ensures Evaluate(t, letters).0 == Missed
    ensures Evaluate(t, letters).1 == t.(errors := t.errors + 1)
  {
    AllFoundNoMatch(t.words, letters, Reversed(letters));
  }
}
