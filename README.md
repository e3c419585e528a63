# Sopa de Letras — a verified model of the word-search block

The `sopa-letras` block of the plugin renders a word-search game. The server
template reads the block's fields and builds a game configuration: a title,
a grid size and a list of `{word, clue}` entries. The browser script then runs
a game session over that configuration:

- it generates a square grid, placing each word along one of four directions
  (right, down, down-right, down-left) at random tries and filling every cell
  still empty with a random letter;
- it tracks a drag selection that only ever holds a straight line
  (horizontal, vertical or diagonal) of cells;
- when the drag ends it reads the letters under the selection and matches
  them, forwards or backwards, against the first word not yet found, keeping
  a found count, a score (ten points per letter) and an error count;
- it shows the elapsed time as `mm:ss`, restarts on reset or on a grid-size
  change, and stops the timer on a win or when the player gives up.

The model is written in Dafny, in eight modules:

| module | file | what it holds |
|---|---|---|
| `Util` | util.dfy | `Option` and sequence reversal |
| `Numerals` | numerals.dfy | decimal digits: `toString` of a natural number and the value of a digit string |
| `Geometry` | geometry.dfy | cell positions, the four placement directions, and the inclusive line `getCellsInLine` produces |
| `Placement` | placement.dfy | grid cells (`''` is `Empty`) and the `canPlaceWord` test |
| `Matching` | matching.dfy | reading a selection, the first-match search and the counters of a match step |
| `Clock` | clock.dfy | the `updateTimer` arithmetic and its `mm:ss` text |
| `Config` | config.dfy | the template's defaults and its word-list loop |
| `Session` | session.dfy | the game state as a class `WordSearch` over a 2-D array, with the generation methods and the event handlers |

Every `Math.random()` draw is a choice taken from an `Oracle` value:
- a permutation of the word list for the shuffle;
- `100` (direction index, row, column) tries per word;
- one alphabet index per cell for the filler letters.

Each choice is constrained the way `Math.floor(Math.random() * n)` constrains
it: an index in `[0, n)`, or `0` when `n` is `0`. `Date.now()` is a parameter
`now` in milliseconds. The touch handlers take the cell under the finger, if
any, as a parameter.

The session invariant `WordSearch.Valid` says four things:
- the grid is `size` by `size` and has no empty cell;
- every placed word can be read along its cells, which form a selectable line;
- `foundWordsCount` and `score` are the number of found words and ten times their letters;
- a drag in progress holds a straight line of in-grid cells from its start.

Every handler keeps the invariant.

## Model

| member | source | states |
|---|---|---|
| Util.Reversed | blocks/sopa-letras/sopa-letras.js:371 | the reversed string has the same length and holds at position i the character at n-1-i |
| Util.ReversedTwice | blocks/sopa-letras/sopa-letras.js:371 | reversing twice gives back the original sequence |
| Numerals.DigitChar | blocks/sopa-letras/sopa-letras.js:427-428 | a digit below ten is written as a decimal digit character whose value is that digit |
| Numerals.DigitValue | blocks/sopa-letras/render.php:37 | a decimal digit character has a value below ten |
| Numerals.NatToString | blocks/sopa-letras/sopa-letras.js:427-428 | `toString` of a natural number is a non-empty digit string; it starts with '0' only for 0 and has one digit exactly below 10 |
| Numerals.NatToStringValue | blocks/sopa-letras/sopa-letras.js:427-428 | the value of the decimal text of n is n |
| Numerals.LeadingZeroValue | blocks/sopa-letras/sopa-letras.js:427-428 | a leading '0' does not change the value of a digit string |
| Clock.ElapsedSeconds | blocks/sopa-letras/sopa-letras.js:426 | the result is the whole number of seconds between the two timestamps, rounded down, and it is not negative when now is not before the start |
| Clock.PadStart2 | blocks/sopa-letras/sopa-letras.js:427-428 | `padStart(2, '0')` keeps a string of length at least 2 and left-pads a shorter one with '0' to length 2 |
| Clock.PadStart2Value | blocks/sopa-letras/sopa-letras.js:427-428 | padding a digit string keeps it a digit string with the same value |
| Clock.IntToString | blocks/sopa-letras/sopa-letras.js:427-428 | `toString` of an integer is non-empty, starts with '-' exactly for a negative one, which takes at least two characters, and is the decimal text of a non-negative one |
| Clock.JsRem60 | blocks/sopa-letras/sopa-letras.js:428 | `diff % 60` truncates toward zero: it lies strictly between -60 and 60, has the sign of the dividend, and the dividend minus it is 60 times the truncated quotient |
| Clock.ClockText | blocks/sopa-letras/sopa-letras.js:427-429 | the text has at least five characters and starts with '-' exactly when the difference is negative |
| Clock.NatToStringShort | blocks/sopa-letras/sopa-letras.js:428 | the seconds field (below 100) has at most two digits |
| Clock.ClockFields | blocks/sopa-letras/sopa-letras.js:429 | `m:s` with at least two minute digits and two second digits is a timer text whose fields read back as m and s |
| Clock.ClockTextOfNat | blocks/sopa-letras/sopa-letras.js:427-428 | for a non-negative difference the text is the padded minutes, a colon and the padded seconds, both as natural-number decimal text |
| Clock.PaddedFields | blocks/sopa-letras/sopa-letras.js:427-429 | padded minutes and seconds below 60 joined by a colon form a timer text that reads back as minutes·60 + seconds, five characters long below 100 minutes |
| Clock.ClockTextRoundTrip | blocks/sopa-letras/sopa-letras.js:424-430 | the `mm:ss` text is well formed, has exactly five characters below 100 minutes, and reads back as the elapsed seconds |
| Clock.ClockTextBeforeStart | blocks/sopa-letras/sopa-letras.js:424-430 | before the start the text is '-' and the floored minutes, a colon, and '-' and the truncated seconds remainder ("00" when it is zero), with no padding once a field carries a sign |
| Clock.ClockTextSixtyFiveSecondsEarly | blocks/sopa-letras/sopa-letras.js:424-430 | a start 65 seconds in the future shows "-2:-5" |
| Session.WordSearch.TimerText | blocks/sopa-letras/sopa-letras.js:424-430 | for every now: from the start on, the text is well formed and reads back as the whole seconds elapsed; it starts with '-' exactly when now is before the start |
| Config.TrimLeft | blocks/sopa-letras/render.php:44 | the result is a suffix of the input; everything dropped is trim whitespace and the result does not start with it |
| Config.TrimRight | blocks/sopa-letras/render.php:44 | the result is a prefix of the input; everything dropped is trim whitespace and the result does not end with it |
| Config.Trim | blocks/sopa-letras/render.php:44 | `trim` leaves a string that is empty or neither starts nor ends with trim whitespace |
| Config.TrimStart | blocks/sopa-letras/render.php:44 | the offset of the trimmed text lies within the input |
| Config.TrimIsSlice | blocks/sopa-letras/render.php:44 | `trim(s)` is the slice of s between a leading and a trailing run of trim whitespace |
| Config.PrefixOfSuffix | blocks/sopa-letras/render.php:44 | a prefix of a suffix of s is a slice of s, and whitespace after the prefix lies at the end of s |
| Config.TrimOfBlank | blocks/sopa-letras/render.php:44 | a string made only of trim whitespace trims to the empty string |
| Config.StrToUpper | blocks/sopa-letras/render.php:44 | `strtoupper` keeps the length, maps a-z to A-Z, keeps every other character and leaves no lower-case ASCII letter |
| Config.LeadingDigits | blocks/sopa-letras/render.php:37 | the result is the longest prefix of decimal digits |
| Config.LeadingDigitsOf | blocks/sopa-letras/render.php:37 | a digit string followed by a non-digit (or nothing) is exactly the leading digits |
| Config.IntCastSkipsSpace | blocks/sopa-letras/render.php:37 | the `(int)` cast skips leading whitespace |
| Config.IntCastOfSigned | blocks/sopa-letras/render.php:37 | a '-' or '+' before the digits negates or keeps their value; whatever follows the digits is ignored |
| Config.IntCastOfUnsigned | blocks/sopa-letras/render.php:37 | the cast of digits followed by a non-digit suffix is the value of the digits, and a string starting with no digit, sign or space casts to 0 |
| Config.Title | blocks/sopa-letras/render.php:30 | the title is the field when it is not PHP-empty and "Sopa de Letras" otherwise; it is never empty |
| Config.GridSize | blocks/sopa-letras/render.php:32 | an empty grid-size field gives 16 |
| Config.GridSizeOfChoice | blocks/sopa-letras/render.php:32-37 | a grid-size field holding the decimal text of n is cast to n, and "0" falls back to 16 |
| Config.KeptIndicesAreKeptRows | blocks/sopa-letras/render.php:41-42 | the kept positions are strictly increasing and are exactly the rows whose word and clue are both non-empty |
| Config.NormalisedWords | blocks/sopa-letras/render.php:41-48 | the loop appends at most one entry per row |
| Config.NormalisedWordsFromKeptRows | blocks/sopa-letras/render.php:41-47 | the k-th output entry is the normalised k-th kept row, so each comes from a row passing the filter and input order is preserved |
| Config.BlankWordKeptAsEmpty | blocks/sopa-letras/render.php:42-44 | a whitespace-only word with a non-empty clue passes the emptiness test and becomes the empty word |
| Config.BuildGameConfig | blocks/sopa-letras/render.php:30-48 | the configuration has the defaulted title, the cast grid size, and the normalised kept rows in order; a missing repeater gives no words |
| Geometry.StepInjective | blocks/sopa-letras/sopa-letras.js:150-151 | distinct offsets along a direction give distinct cells |
| Geometry.OffsetOf | blocks/sopa-letras/sopa-letras.js:150-151 | a non-negative offset of a cell from an origin along a direction is the number of steps that reaches that cell |
| Geometry.OffsetOfStep | blocks/sopa-letras/sopa-letras.js:150-151 | the offset of the cell i steps along a direction is i |
| Geometry.InWordCells | blocks/sopa-letras/sopa-letras.js:148-156 | a cell lies on a word's n cells exactly when its offset along the direction is in [0, n) |
| Geometry.StepBetween | blocks/sopa-letras/sopa-letras.js:166-169 | when the start and the end cell are in the grid, so is every cell between them |
| Geometry.LineFromAt | blocks/sopa-letras/sopa-letras.js:339-343 | the i-th cell of a line is the start plus i unit steps |
| Geometry.LineFromLength | blocks/sopa-letras/sopa-letras.js:339-343 | a line of n steps has n cells |
| Geometry.LineCells | blocks/sopa-letras/sopa-letras.js:331-345 | the line from start to end has one cell more than the step count and begins at the start |
| Geometry.LineCellsAt | blocks/sopa-letras/sopa-letras.js:331-345 | the line has `max(abs dr, abs dc) + 1` cells and the i-th is start + i·(sign dr, sign dc) |
| Geometry.SignProduct | blocks/sopa-letras/sopa-letras.js:333-334 | i times the sign of x is i, -i or 0 as x is positive, negative or zero |
| Geometry.LineCellsShape | blocks/sopa-letras/sopa-letras.js:331-345 | for an accepted line the cells run from the start to the end inclusive, each one unit step (sign dr, sign dc) after the previous |
| Geometry.LineCellsInGrid | blocks/sopa-letras/sopa-letras.js:331-345 | a straight line between two in-grid cells stays in the grid |
| Geometry.GetCellsInLine | blocks/sopa-letras/sopa-letras.js:331-345 | the loop returns exactly the inclusive unit-step line from start to end |
| Geometry.WordCellsSelectable | blocks/sopa-letras/sopa-letras.js:148-156 | the cells of a placed word form a straight line that a drag from its first to its last cell selects, and a drag the other way selects them reversed |
| Placement.CanPlaceWord | blocks/sopa-letras/sopa-letras.js:162-182 | the result is true exactly when the end cell is in bounds and every cell on the line is empty or holds the same letter |
| Placement.Fits | blocks/sopa-letras/sopa-letras.js:162-182 | a word that fits is no longer than the grid side |
| Placement.BlankBoard | blocks/sopa-letras/sopa-letras.js:105 | the fresh grid is size by size and every cell is empty |
| Placement.FitsSnapshot | blocks/sopa-letras/sopa-letras.js:162-182 | the fit test on the grid agrees with the same test on its cell-by-cell value |
| Placement.WriteOn | blocks/sopa-letras/sopa-letras.js:148-153 | writing a word gives a board of the same size where each cell holds its letter if it is on the word and its old value otherwise |
| Placement.WriteOnMeaning | blocks/sopa-letras/sopa-letras.js:148-153 | after writing, cell k of the word holds word[k], every cell off the word is unchanged and, for a word that fits, no letter already present changes |
| Placement.WrittenBoard | blocks/sopa-letras/sopa-letras.js:148-153 | a board holding the word's letters on its cells and the old value elsewhere is the written board |
| Placement.FitsIffLineCompatible | blocks/sopa-letras/sopa-letras.js:171-181 | a non-empty word fits exactly when every cell i of its line is in the grid and is empty or equals word[i] |
| Matching.ReadLetters | blocks/sopa-letras/sopa-letras.js:370 | over cells that hold letters, the text has one character per cell, the letter of that cell |
| Matching.ReadLettersReversed | blocks/sopa-letras/sopa-letras.js:370-371 | reading the selection backwards gives the reversed text |
| Matching.ReadLettersNonEmpty | blocks/sopa-letras/sopa-letras.js:368-370 | a non-empty selection over letters reads a non-empty text |
| Matching.ReadLettersSpells | blocks/sopa-letras/sopa-letras.js:370 | reading the cells of a placed word gives back the word |

| Matching.FirstMatchFrom | blocks/sopa-letras/sopa-letras.js:372 | the search from k returns the first unfound word from k on equal to the text or its reverse, or none when there is no such word |
| Matching.FirstMatch | blocks/sopa-letras/sopa-letras.js:372 | `find` returns the first unfound word equal to the text or its reverse, or nothing when no word is |
| Matching.CountFoundBound | blocks/sopa-letras/sopa-letras.js:372-410 | the number of found words is at most the number of words, and equals it exactly when every word is found |
| Matching.NoneFoundCountsZero | blocks/sopa-letras/sopa-letras.js:115 | a list with no found word has found count and found letters 0 |
| Matching.MarkFoundCounts | blocks/sopa-letras/sopa-letras.js:375-377 | marking an unfound word found adds one to the found count and its length to the found letters |
| Matching.AllFoundNoMatch | blocks/sopa-letras/sopa-letras.js:372 | once every word is found no selection matches |
| Matching.EmptyWordNeverMatched | blocks/sopa-letras/sopa-letras.js:372 | an empty placed word (zero cells) is never matched by a non-empty selection |
| Matching.Evaluate | blocks/sopa-letras/sopa-letras.js:370-414 | a step either misses, adding one error and keeping the count, or matches a word, keeping errors, adding one to the count, never lowering the score, and winning exactly when the count reaches the number of words |
| Matching.EvaluateMeaning | blocks/sopa-letras/sopa-letras.js:367-415 | a selection misses exactly when no unfound word equals its text or reverse, and then only errors goes up; otherwise the first such word is marked found, the count goes up by 1, the score by 10·len, errors is unchanged and the step wins exactly when the count reaches the number of words |
| Matching.EvaluateKeepsConsistent | blocks/sopa-letras/sopa-letras.js:372-377 | a step keeps the count and score equal to those of the found words, keeps the count at most the number of words, never lowers it and never unsets a found flag |
| Matching.AfterWinEverySelectionIsAnError | blocks/sopa-letras/sopa-letras.js:372-414 | after a win every further selection is a miss that adds one error |
| Session.WordsOnGridIff | blocks/sopa-letras/sopa-letras.js:115 | the word-by-word form of "every placed word is on the grid" says the same as the quantified form |
| Session.SameLinesOnGrid | blocks/sopa-letras/sopa-letras.js:375 | changing found flags keeps every placed word readable on the grid |
| Session.FirstFit | blocks/sopa-letras/sopa-letras.js:141-158 | the first fitting try: none exactly when no try from a on fits, otherwise an index from a on that fits with no fitting try before it |
| Session.PlaceOnFirstFit | blocks/sopa-letras/sopa-letras.js:141-159 | the tries loop leaves the board unchanged with null when no try fits, and otherwise writes the word along the first fitting try and returns its cells |
| Session.PlaceStepDrops | blocks/sopa-letras/sopa-letras.js:112-116 | a step keeps the list exactly when none of the item's tries fits, and then keeps the board |
| Session.PlaceStepKeeps | blocks/sopa-letras/sopa-letras.js:112-116 | when try a is the first that fits, the step appends the item unfound with that try's cells and writes its letters there, leaving every other cell and every existing letter alone |
| Session.PlaceFirstKeeps | blocks/sopa-letras/sopa-letras.js:111-117 | the k-th item is kept exactly when one of its tries fits the board the earlier items left, and is then appended unfound with its word and clue |
| Session.PlaceFirstPicks | blocks/sopa-letras/sopa-letras.js:108-117 | the kept words are the word and clue of shuffled items at strictly increasing positions below k, so they keep the shuffled order |
| Session.PlaceStepPlaced | blocks/sopa-letras/sopa-letras.js:112-116 | a step keeps every placed word spelled along a selectable line, unfound and no longer than the side, and every letter of the board covered by a placed word |
| Session.PlaceFirstPlaced | blocks/sopa-letras/sopa-letras.js:111-117 | from a blank board, after any number of items every kept word is spelled along a selectable line, is unfound and every letter is covered by a kept word |
| Session.PlaceAllOnGrid | blocks/sopa-letras/sopa-letras.js:110-118 | a grid whose value is the placement of the items on a blank board holds every placed word along its line, unfound, and covers every letter by a placed word |
| Session.WriteWord | blocks/sopa-letras/sopa-letras.js:148-156 | the i-th letter is written to start + i·dir, the cells are returned in order, and every other cell keeps its value |
| Session.PlaceAt | blocks/sopa-letras/sopa-letras.js:146-156 | for a try that fits, the returned cells are the word's line, they spell the word, no other cell changes, no letter already in the grid changes, and the grid's value is the written board of its old value |
| Session.PlaceWord | blocks/sopa-letras/sopa-letras.js:131-160 | the grid and the result are those of the first of the 100 tries that fits (written along its line, exactly len cells, spelling the word, a selectable line, nothing else changed); when no try fits the result is null and the grid is unchanged |
| Session.PlaceNext | blocks/sopa-letras/sopa-letras.js:112-117 | the grid and the list after one item are the placement step on the grid and the list before it: the item is appended unfound exactly when one of its tries fits, otherwise grid and list stay as they were |
| Session.PlaceWords | blocks/sopa-letras/sopa-letras.js:110-118 | the grid and the list are the placement of the items in order on a blank board; the placed words are unfound, readable along their lines and cover every letter of the grid |
| Session.PicksStep | blocks/sopa-letras/sopa-letras.js:115 | appending the k-th item extends the sub-list positions by k |
| Session.FillEmptyCells | blocks/sopa-letras/sopa-letras.js:120-128 | every empty cell gets the alphabet letter its choice picks and every other cell keeps its letter |
| Session.FillBoard | blocks/sopa-letras/sopa-letras.js:120-128 | each cell of the filled board is its old letter, or for an empty cell the filler letter its choice picks |
| Session.FillBoardPlaced | blocks/sopa-letras/sopa-letras.js:120-128 | filling a placed board leaves no empty cell, keeps every placed word spelled, and puts the chosen filler letter in every cell no word covers |
| Session.GenerateBoard | blocks/sopa-letras/sopa-letras.js:102-128 | the fresh grid is size by size, its value is the filled placement of the shuffled list, and the placed words are the kept ones of that placement |
| Session.GeneratedMeaning | blocks/sopa-letras/sopa-letras.js:102-129 | a generated grid has no empty cell, every kept word is spelled along a selectable line and unfound, the kept words are a sub-list of the shuffled list in order, and every cell outside them holds its filler letter |
| Session.WordSearch.constructor | blocks/sopa-letras/sopa-letras.js:10-12 | the session takes the configured words and size and starts a game: a grid and word list determined by the choices (the placement of the shuffled list, then the filler letters), zero counters, running timer, no selection |
| Session.WordSearch.GenerateGrid | blocks/sopa-letras/sopa-letras.js:102-129 | a fresh size-by-size grid whose every cell and kept word are those of placing the shuffled list try by try on a blank grid and filling the rest; the kept words are unfound and on the grid, and no cell is empty |
| Session.WordSearch.InitGame | blocks/sopa-letras/sopa-letras.js:70-99 | a new game: counters zero, start time now, no selection, the grid and word list generated from the choices, the timer running, and the session invariant holds |
| Session.WordSearch.ResetState | blocks/sopa-letras/sopa-letras.js:72-79 | the timer is stopped, score, errors and count are zero, the start time is now, and the words and the selection are emptied |
| Session.WordSearch.UpdateSelection | blocks/sopa-letras/sopa-letras.js:296-319 | the end becomes the new cell; a straight extension replaces the selection with the line from the start, any other leaves the selection unchanged |
| Session.WordSearch.MouseDown | blocks/sopa-letras/sopa-letras.js:248-254 | a drag starts at the cell, which is the whole selection |
| Session.WordSearch.MouseEnter | blocks/sopa-letras/sopa-letras.js:256-261 | outside a drag nothing changes; in a drag the selection follows UpdateSelection |
| Session.WordSearch.HandleWin | blocks/sopa-letras/sopa-letras.js:517-518 | the timer stops |
| Session.WordSearch.ScoreSelection | blocks/sopa-letras/sopa-letras.js:371-414 | the counters change as the match step prescribes, the words keep their letters and cells, and the timer stops exactly on a win |
| Session.WordSearch.CheckSelectedWord | blocks/sopa-letras/sopa-letras.js:367-415 | an empty selection changes nothing; otherwise the counters change as the match step on the selection's text prescribes, the words stay on the grid, and the timer stops on a win |
| Session.WordSearch.ClearSelection | blocks/sopa-letras/sopa-letras.js:356-361 | the selection, its start and its end are emptied and the counters are kept |
| Session.WordSearch.MouseUp | blocks/sopa-letras/sopa-letras.js:263-268 | outside a drag nothing changes; otherwise the drag ends, the match step runs on the text under the selection, the selection is cleared, and the timer stops on a win and is untouched otherwise |
| Session.WordSearch.EndSelection | blocks/sopa-letras/sopa-letras.js:264-267 | ending a drag clears the selection, runs the match step on the selected text, and stops the timer exactly on a win |
| Session.WordSearch.TouchStart | blocks/sopa-letras/sopa-letras.js:271-282 | a touch on a grid cell starts a drag there; a touch elsewhere changes nothing |
| Session.WordSearch.TouchMove | blocks/sopa-letras/sopa-letras.js:284-294 | in a drag, a move over a grid cell updates the selection as UpdateSelection does; otherwise nothing changes |
| Session.WordSearch.GiveUp | blocks/sopa-letras/sopa-letras.js:539-554 | only the timer stops: no found flag and no counter changes |
| Session.WordSearch.ChangeGridSize | blocks/sopa-letras/sopa-letras.js:617-626 | choosing the current size does nothing; another size starts a new game of that size with a grid and word list generated from the choices |

## Left out

- Rendering and styling: `renderGrid`, `renderClues`, `updateCounts`, `updateGridSizeButtons`, `clearVisualSelection`, `getCell`, the highlight classes, the modal texts and icons, `showCelebration` and its timeouts. They only change the page.
- Timer scheduling: `setInterval`/`clearInterval` are the boolean `timerRunning`, and `Date.now()` is the parameter `now`. Only the arithmetic of `updateTimer` is modelled.
- Randomness: `Math.random()` and its floating-point index arithmetic are the choices of an `Oracle`.
- Shuffle: the comparator-based sort of the word list is modelled as an arbitrary permutation, because its result depends on the engine's sort.
- `wordColorMap`, `WORD_COLORS` and the `color` property of a found word are left out; they are display only and hold a single colour.
- Session.WordSearch.TouchStart: the hit test with `document.elementFromPoint` is browser geometry; the handler receives the touched cell, if any, as a parameter.
- Session.WordSearch.TouchMove: the hit test is left out in the same way.
- Session.WordSearch.CheckSelectedWord: the text read from the selection is passed in as a ghost parameter. The method itself computes the text with `ReadLetters`, and its contract ties the two together.
- Session.WordSearch.MouseUp: `mouseup` and `touchend` are registered on each grid cell (blocks/sopa-letras/sopa-letras.js:209-213), not on the document, so a button released outside the grid never reaches the handler and leaves `isSelecting` true until the next release over a cell; the model covers the release over a cell, and the event wiring is left out.
- Start-up: the bootstrapping through `DOMContentLoaded` and the block-preview hook, the double-initialisation guard, `JSON.parse` of the data attribute and every `console.log` call are left out. The constructor receives the parsed configuration.
- The alphabet is the script's string as stored (with `Ã` and `‘` where `Ñ` was meant); the model keeps those characters and proves nothing about the letters chosen.
- The template's markup, `json_encode`, `htmlspecialchars`, `uniqid`, `plugin_dir_url`, the description field and `fields.php` are left out; the field reads of `get_field` are parameters of `Config.BuildGameConfig`.
- Config.GridSize: the `(int)` cast models leading whitespace, a sign and a decimal digit prefix; exponent and other numeric-string forms and overflow are left out, and a non-string field value is not modelled.
- Config.StrToUpper: only ASCII letters are upper-cased, as PHP 8.2 and later do (earlier versions followed the locale); a multi-byte character is kept whole, so the model works on characters rather than bytes.
- Session.WordSearch.GiveUp: the highlighting of unfound words and the loss modal are left out; the state part is modelled.
- Session.WordSearch.HandleWin: the victory modal is left out; the state part is modelled.
- Text length: JavaScript strings, `word.length` and `split('')` count UTF-16 code units, so a letter outside the Basic Multilingual Plane takes two grid cells in the script; the model treats every string as a sequence of Dafny characters, one cell each.
- Session.WordSearch.constructor: `requires config.gridSize >= 0` leaves out a negative grid size, for which `Array(size)` throws a `RangeError` and the game never starts; the template's `(int)` cast can produce one from a field such as "-3".
- Session.WordSearch.ChangeGridSize: `requires newSize >= 0` for the same reason; the buttons only offer positive sizes, and a `NaN` from `parseInt` is not modelled.
- Session.PlaceNext: the grid-level facts (every placed word on the grid, every letter covered) follow from `Session.PlaceStepPlaced` through `Session.PlaceAllOnGrid` rather than from this method's own contract.
- Config.IntCast: has no contract of its own; what it computes is stated by `Config.IntCastSkipsSpace`, `Config.IntCastOfSigned`, `Config.IntCastOfUnsigned` and `Config.GridSizeOfChoice`.
