/**
 * The block template's preparation of the game configuration: the defaults
 * for the title and the grid size, and the loop that keeps the repeater rows
 * whose word and clue are both non-empty, normalising each word.
 *
 * PHP strings are modelled as sequences of characters. `strtoupper` is the
 * locale-independent one (ASCII letters only); bytes of multi-byte UTF-8
 * characters are never ASCII letters, so a character-level model agrees.
 */
module Config {
  import opened Numerals
  import opened Util

  /** A row of the words_clues repeater as the field API returns it; a missing sub-field reads as "". */
  datatype RawRow = RawRow(word: string, clue: string)

  /** An entry of the configuration handed to the game script. */
  datatype WordClue = WordClue(word: string, clue: string)

  datatype GameConfig = GameConfig(title: string, gridSize: int, words: seq<WordClue>)

  const DefaultTitle: string := "Sopa de Letras"
  const DefaultGridSize: int := 16

  /** PHP's `empty()` on a string, which is also its falsiness for `?:`: "" and "0". */
  predicate PhpEmpty(s: string) { s == "" || s == "0" }

  /** The characters PHP's `trim` strips by default. */
  predicate IsTrimSpace(ch: char)
  {
    ch == ' ' || ch == '\t' || ch == '\n' || ch == '\r' || ch == '\0' || ch == '\U{000B}'
  }

  function TrimLeft(s: string): (r: string)
    ensures |r| <= |s| && r == s[|s| - |r|..]
    ensures forall k :: 0 <= k < |s| - |r| ==> IsTrimSpace(s[k])
    ensures r == [] || !IsTrimSpace(r[0])
  {
    if s != [] && IsTrimSpace(s[0]) then TrimLeft(s[1..]) else s
  }

  function TrimRight(s: string): (r: string)
    ensures |r| <= |s| && r == s[..|r|]
    ensures forall k :: |r| <= k < |s| ==> IsTrimSpace(s[k])
    ensures r == [] || !IsTrimSpace(r[|r| - 1])
  {
    if s != [] && IsTrimSpace(s[|s| - 1]) then TrimRight(s[..|s| - 1]) else s
  }

  /** PHP's `trim($s)`. */
  function Trim(s: string): (r: string)
    ensures r == [] || (!IsTrimSpace(r[0]) && !IsTrimSpace(r[|r| - 1]))
  {
    TrimRight(TrimLeft(s))
  }

  /** Where the text `trim` keeps starts in its input. */
  function TrimStart(s: string): (i: nat)
    ensures i <= |s|
  {
    |s| - |TrimLeft(s)|
  }

  /**
   * `trim` removes exactly a run of leading and a run of trailing trim
   * characters: the result is a contiguous slice of the input and everything
   * outside it is a trim character.
   */
  lemma TrimIsSlice(s: string)
    ensures TrimStart(s) + |Trim(s)| <= |s|
    ensures Trim(s) == s[TrimStart(s)..TrimStart(s) + |Trim(s)|]
    ensures forall k :: 0 <= k < TrimStart(s) ==> IsTrimSpace(s[k])
    ensures forall k :: TrimStart(s) + |Trim(s)| <= k < |s| ==> IsTrimSpace(s[k])
  {
    var l := TrimLeft(s);
    var i := |s| - |l|;
    var r := TrimRight(l);
    assert Trim(s) == r && TrimStart(s) == i;
    PrefixOfSuffix(s, l, r);
  }

  /**
   * A prefix r of a suffix l of s is the slice of s where it sits, and what
   * follows r in l is what follows it in s.
   */
  lemma PrefixOfSuffix(s: string, l: string, r: string)
    requires |l| <= |s| && l == s[|s| - |l|..]
    requires |r| <= |l| && r == l[..|r|]
    requires forall k :: |r| <= k < |l| ==> IsTrimSpace(l[k])
    ensures r == s[|s| - |l|..|s| - |l| + |r|]
    ensures forall k :: |s| - |l| + |r| <= k < |s| ==> IsTrimSpace(s[k])
  {
    var i := |s| - |l|;
    forall k | i + |r| <= k < |s|
      ensures IsTrimSpace(s[k])
    {
      assert s[k] == l[k - i];
    }
  }

  /** A string made only of trim characters trims to "". */
  lemma TrimOfBlank(s: string)
    requires forall k :: 0 <= k < |s| ==> IsTrimSpace(s[k])
    ensures Trim(s) == ""
  {
  }

  function UpperAscii(ch: char): char
  {
    if 'a' <= ch <= 'z' then (ch as int - 32) as char else ch
  }

  /** PHP 8's `strtoupper`: ASCII a-z become A-Z, every other character is kept. */
  function StrToUpper(s: string): (r: string)
    ensures |r| == |s|
    ensures forall k :: 0 <= k < |r| ==> !('a' <= r[k] <= 'z')
    ensures forall k :: 0 <= k < |s| && !('a' <= s[k] <= 'z') ==> r[k] == s[k]
    ensures forall k :: 0 <= k < |s| && 'a' <= s[k] <= 'z' ==> r[k] as int == s[k] as int - 32
  {
    seq(|s|, k requires 0 <= k < |s| => UpperAscii(s[k]))
  }

  /** The whitespace PHP skips before a numeric prefix. */
  predicate IsCastSpace(ch: char)
  {
    ch == ' ' || ch == '\t' || ch == '\n' || ch == '\r' || ch == '\U{000B}' || ch == '\U{000C}'
  }

  /** The longest prefix of `s` made of decimal digits. */
  function LeadingDigits(s: string): (r: string)
    ensures AllDigits(r) && |r| <= |s| && r == s[..|r|]
    ensures |r| == |s| || !IsDigit(s[|r|])
  {
    if s != [] && IsDigit(s[0]) then [s[0]] + LeadingDigits(s[1..]) else []
  }

  /** PHP's `(int)` cast of a string: leading whitespace, an optional sign, then the digit prefix (0 if none). */
  function IntCast(s: string): int
  {
    if s != [] && IsCastSpace(s[0]) then IntCast(s[1..]) else SignedDigits(s)
  }

  /** The value `(int)` reads once the leading whitespace is skipped. */
  function SignedDigits(s: string): int
  {
    if s != [] && s[0] == '-' then -(DigitsValue(LeadingDigits(s[1..])) as int)
    else if s != [] && s[0] == '+' then DigitsValue(LeadingDigits(s[1..]))
    else DigitsValue(LeadingDigits(s))
  }

  /** The digit prefix of digits followed by a non-digit is those digits. */
  lemma {:induction false} LeadingDigitsOf(digits: string, rest: string)
    requires AllDigits(digits) && (rest == [] || !IsDigit(rest[0]))
    ensures LeadingDigits(digits + rest) == digits
  {
    if digits != [] {
      assert (digits + rest)[1..] == digits[1..] + rest;
      LeadingDigitsOf(digits[1..], rest);
    } else {
      assert digits + rest == rest;
    }
  }

  /** `(int)` skips leading whitespace. */
  lemma {:induction false} IntCastSkipsSpace(ws: string, t: string)
    requires forall k :: 0 <= k < |ws| ==> IsCastSpace(ws[k])
    ensures IntCast(ws + t) == IntCast(t)
  {
    if ws != [] {
      assert (ws + t)[0] == ws[0] && (ws + t)[1..] == ws[1..] + t;
      IntCastSkipsSpace(ws[1..], t);
    } else {
      assert ws + t == t;
    }
  }

  /** `(int)` of a sign, digits and a tail that starts with no digit. */
  lemma IntCastOfSigned(sign: char, digits: string, rest: string)
    requires sign == '-' || sign == '+'
    requires AllDigits(digits) && (rest == [] || !IsDigit(rest[0]))
    ensures IntCast([sign] + digits + rest) == if sign == '-' then -(DigitsValue(digits) as int) else DigitsValue(digits)
  {
    var s := [sign] + digits + rest;
    assert s != [] && s[0] == sign && s[1..] == digits + rest;
    assert IntCast(s) == SignedDigits(s);
    LeadingDigitsOf(digits, rest);
  }

  /** `(int)` of digits and a tail that starts with no digit, space or sign when there are no digits. */
  lemma IntCastOfUnsigned(digits: string, rest: string)
    requires AllDigits(digits) && (rest == [] || !IsDigit(rest[0]))
    requires digits == "" && rest != [] ==> !IsCastSpace(rest[0]) && rest[0] != '-' && rest[0] != '+'
    ensures IntCast(digits + rest) == DigitsValue(digits)
  {
    var s := digits + rest;
    if digits != "" {
      assert s[0] == digits[0];
    } else {
      assert s == rest;
    }
    LeadingDigitsOf(digits, rest);
  }

  /** `$title = get_field('title') ?: 'Sopa de Letras'`. */
  function Title(field: string): (t: string)
    ensures t != ""
    ensures PhpEmpty(field) ==> t == DefaultTitle
    ensures !PhpEmpty(field) ==> t == field
  {
    if PhpEmpty(field) then DefaultTitle else field
  }

  /** `(int) (get_field('grid_size') ?: 16)`. */
  function GridSize(field: string): (n: int)
    ensures PhpEmpty(field) ==> n == DefaultGridSize
  {
    if PhpEmpty(field) then DefaultGridSize else IntCast(field)
  }

  /**
   * A grid-size choice stored as its decimal text is read back as that
   * number ("16", "20", "28" give 16, 20, 28); "0" falls back to the default.
   */
  lemma {:induction false} GridSizeOfChoice(n: nat)
    ensures GridSize(NatToString(n)) == if n == 0 then DefaultGridSize else n
  {
    var s := NatToString(n);
    if n != 0 {
      assert s != "0";
      assert !IsCastSpace(s[0]) && s[0] != '-' && s[0] != '+';
      assert LeadingDigits(s) == s;
      NatToStringValue(n);
    }
  }

  /** The repeater test `!empty($item['word']) && !empty($item['clue'])`. */
  predicate Keep(row: RawRow) { !PhpEmpty(row.word) && !PhpEmpty(row.clue) }

  /** The entry built for a kept row. */
  function Normalise(row: RawRow): WordClue
  {
    WordClue(StrToUpper(Trim(row.word)), row.clue)
  }

  /** `get_field('words_clues') ?: []`. */
  function RowsOrEmpty(rows: Option<seq<RawRow>>): seq<RawRow>
  {
    if rows.Some? then rows.value else []
  }

  /** The entries the template's loop appends, for the rows in order. */
  function NormalisedWords(rows: seq<RawRow>): (words: seq<WordClue>)
    ensures |words| <= |rows|
  {
    if rows == [] then []
    else
      var last := rows[|rows| - 1];
      NormalisedWords(rows[..|rows| - 1]) + (if Keep(last) then [Normalise(last)] else [])
  }

  /** Positions of the kept rows, in increasing order. */
  function KeptIndices(rows: seq<RawRow>): seq<nat>
  {
    if rows == [] then []
    else KeptIndices(rows[..|rows| - 1]) + (if Keep(rows[|rows| - 1]) then [|rows| - 1] else [])
  }

  /** The kept positions are exactly those of rows with a non-empty word and clue, strictly increasing. */
  lemma {:induction false} KeptIndicesAreKeptRows(rows: seq<RawRow>)
    ensures forall k :: 0 <= k < |KeptIndices(rows)| ==> KeptIndices(rows)[k] < |rows|
    ensures forall k, l :: 0 <= k < l < |KeptIndices(rows)| ==> KeptIndices(rows)[k] < KeptIndices(rows)[l]
    ensures forall j :: 0 <= j < |rows| ==> (j in KeptIndices(rows) <==> Keep(rows[j]))
  {
    if rows != [] {
      var init := rows[..|rows| - 1];
      KeptIndicesAreKeptRows(init);
      assert forall j :: 0 <= j < |init| ==> rows[j] == init[j];
    }
  }

  /**
   * The output is the kept rows, in input order, each normalised: its k-th
   * entry comes from the k-th kept row, its word is `strtoupper(trim(word))`
   * and its clue is copied unchanged.
   */
  lemma {:induction false} NormalisedWordsFromKeptRows(rows: seq<RawRow>)
    ensures |NormalisedWords(rows)| == |KeptIndices(rows)|
    ensures forall k :: 0 <= k < |KeptIndices(rows)| ==>
              KeptIndices(rows)[k] < |rows| &&
              NormalisedWords(rows)[k] == Normalise(rows[KeptIndices(rows)[k]])
  {
    KeptIndicesAreKeptRows(rows);
    if rows != [] {
      var init, last := rows[..|rows| - 1], rows[|rows| - 1];
      NormalisedWordsFromKeptRows(init);
      KeptIndicesAreKeptRows(init);
      var ki, wi := KeptIndices(init), NormalisedWords(init);
      var tailIndex: seq<nat> := if Keep(last) then [|rows| - 1] else [];
      var tailWord := if Keep(last) then [Normalise(last)] else [];
      assert KeptIndices(rows) == ki + tailIndex;
      assert NormalisedWords(rows) == wi + tailWord;
      forall k | 0 <= k < |ki| + |tailIndex|
        ensures (ki + tailIndex)[k] < |rows| && (wi + tailWord)[k] == Normalise(rows[(ki + tailIndex)[k]])
      {
        if k < |ki| {
          assert (ki + tailIndex)[k] == ki[k] && (wi + tailWord)[k] == wi[k];
          assert rows[ki[k]] == init[ki[k]];
        } else {
          assert (ki + tailIndex)[k] == |rows| - 1 && (wi + tailWord)[k] == Normalise(last);
        }
      }
    }
  }

  /**
   * The emptiness test runs before trimming: a row whose word is only
   * whitespace (and whose clue is non-empty) is kept and yields the word "".
   */
  lemma BlankWordKeptAsEmpty(row: RawRow)
    requires row.word != "" && forall k :: 0 <= k < |row.word| ==> IsTrimSpace(row.word[k])
    requires !PhpEmpty(row.clue)
    ensures Keep(row) && Normalise(row).word == ""
  {
    assert row.word != "0" by { assert IsTrimSpace(row.word[0]); }
    TrimOfBlank(row.word);
  }

  /** One more row of the list adds its entry when it is kept. */
  lemma NormalisedWordsStep(rows: seq<RawRow>, i: nat)
    requires i < |rows|
    ensures NormalisedWords(rows[..i + 1]) ==
            NormalisedWords(rows[..i]) + (if Keep(rows[i]) then [Normalise(rows[i])] else [])
  {
    assert rows[..i + 1][..i] == rows[..i];
  }

  /** Builds `$game_config` the way the template does: defaults, then the row loop. */
  method BuildGameConfig(titleField: string, gridField: string, rows: Option<seq<RawRow>>)
    returns (config: GameConfig)
    ensures config.title == Title(titleField)
    ensures config.gridSize == GridSize(gridField)
    ensures config.words == NormalisedWords(RowsOrEmpty(rows))
    ensures rows.None? ==> config.words == []
  {
    var items := if rows.Some? then rows.value else [];
    var words: seq<WordClue> := [];
    var i := 0;
    while i < |items|
      invariant 0 <= i <= |items|
      invariant words == NormalisedWords(items[..i])
    {
      var item := items[i];
      NormalisedWordsStep(items, i);
      if !PhpEmpty(item.word) && !PhpEmpty(item.clue) {
        words := words + [WordClue(StrToUpper(Trim(item.word)), item.clue)];
      }
      i := i + 1;
    }
    assert items[..|items|] == items;
    config := GameConfig(Title(titleField), GridSize(gridField), words);
  }
}
