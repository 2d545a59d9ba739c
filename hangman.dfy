/** The guess-processing rules of the Hangman game: a secret word drawn from
    a fixed list, the letters guessed so far, and the count of wrong guesses
    that picks one of seven gallows drawings. */
module HangmanGame {

  const MaxWrongGuesses := 6

  /** Number of gallows drawings; getHangmanArt indexes them by the wrong count. */
  const ArtStages := 7

  /** The word list (the hints are display text and are not modelled). */
  const Words: seq<string> := [
    "NEBULOSA", "GRAVEDAD", "GALAXIA", "METEORO", "ASTRONAUTA",
    "SATELITE", "CONSTELACION", "AGUJERO NEGRO", "SUPERNOVA", "ASTEROIDE"
  ]

  datatype Option<T> = None | Some(value: T)

  predicate IsUpper(c: char) {
    'A' <= c <= 'Z'
  }

  /** A word of the list: capital letters and spaces. */
  predicate IsWord(w: string) {
    forall i | 0 <= i < |w| :: IsUpper(w[i]) || w[i] == ' '
  }

  predicate NoDuplicates(g: seq<char>) {
    forall i, j | 0 <= i < j < |g| :: g[i] != g[j]
  }

  /** toUpperCase leaves every listed word as it is. */
  lemma {:induction false} WordsAreUpper(k: nat)
    requires k < |Words|
    ensures IsWord(Words[k]) && |Words[k]| > 0
  {
  }

  // ------------------------------------------------------------ pure views

  /** checkWin: every character is a space or a guessed letter. */
  function CheckWin(word: string, guessed: seq<char>): (won: bool)
    ensures won <==> forall i | 0 <= i < |word| :: word[i] == ' ' || word[i] in guessed
  {
    if word == [] then true
    else (word[0] == ' ' || word[0] in guessed) && CheckWin(word[1..], guessed)
  }

  /** One character of getWordDisplay: a space becomes " / ", a guessed letter
      itself and any other letter "_". */
  function Cell(c: char, guessed: seq<char>): (s: string)
    ensures |s| >= 1
    ensures c == ' ' ==> s == " / "
    ensures c != ' ' ==> |s| == 1 && (c in guessed ==> s[0] == c) && (c !in guessed ==> s[0] == '_')
  {
    if c == ' ' then " / " else if c in guessed then [c] else "_"
  }

  /** getWordDisplay: the cells of the word joined by single spaces. */
  function WordDisplay(word: string, guessed: seq<char>): (d: string)
    ensures word == [] <==> d == []
  {
    if word == [] then ""
    else if |word| == 1 then Cell(word[0], guessed)
    else Cell(word[0], guessed) + " " + WordDisplay(word[1..], guessed)
  }

  /** The display still shows a blank exactly when the game is not won. */
  lemma {:induction false} DisplayBlankIffNotWon(word: string, guessed: seq<char>)
    requires IsWord(word)
    ensures '_' in WordDisplay(word, guessed) <==> !CheckWin(word, guessed)
  {
    if word != [] {
      var c := Cell(word[0], guessed);
      assert '_' in c <==> word[0] != ' ' && word[0] !in guessed;
      if |word| == 1 {
        assert CheckWin(word, guessed) == (word[0] == ' ' || word[0] in guessed) by {
          assert word[1..] == [];
        }
      } else {
        DisplayBlankIffNotWon(word[1..], guessed);
        var d := WordDisplay(word, guessed);
        var rest := WordDisplay(word[1..], guessed);
        assert d == c + " " + rest;
      }
    }
  }

  /** For a word without spaces the display is letter, space, letter, ...:
      position 2i shows letter i or a blank, odd positions are spaces. */
  lemma {:induction false} DisplayOfSpaceFreeWord(word: string, guessed: seq<char>)
    requires word != [] && forall i | 0 <= i < |word| :: word[i] != ' '
    ensures |WordDisplay(word, guessed)| == 2 * |word| - 1
    ensures forall i | 0 <= i < |word| ::
      WordDisplay(word, guessed)[2 * i] == if word[i] in guessed then word[i] else '_'
    ensures forall i | 0 <= i < |word| - 1 :: WordDisplay(word, guessed)[2 * i + 1] == ' '
  {
    if |word| > 1 {
      assert forall i | 0 <= i < |word| - 1 :: word[1..][i] == word[i + 1];
      DisplayOfSpaceFreeWord(word[1..], guessed);
      var d := WordDisplay(word, guessed);
      var rest := WordDisplay(word[1..], guessed);
      assert d == Cell(word[0], guessed) + " " + rest;
      assert |Cell(word[0], guessed)| == 1;
      forall i | 1 <= i < |word|
        ensures d[2 * i] == if word[i] in guessed then word[i] else '_'
      {
        assert d[2 * i] == rest[2 * (i - 1)];
        assert word[1..][i - 1] == word[i];
      }
      forall i | 1 <= i < |word| - 1
        ensures d[2 * i + 1] == ' '
      {
        assert d[2 * i + 1] == rest[2 * (i - 1) + 1];
      }
    }
  }

  /** Where the cell of word[i] starts in the display: the width of every
      earlier cell plus the single space after it. */
  function Offset(word: string, guessed: seq<char>, i: nat): (o: nat)
    requires i <= |word|
    ensures o >= 2 * i
  {
    if i == 0 then 0 else Offset(word, guessed, i - 1) + |Cell(word[i - 1], guessed)| + 1
  }

  /** Offsets of a word are its first cell and a space followed by the
      offsets of the rest of the word. */
  lemma {:induction false} OffsetShift(word: string, guessed: seq<char>, i: nat)
    requires 0 < i <= |word|
    ensures Offset(word, guessed, i) == |Cell(word[0], guessed)| + 1 + Offset(word[1..], guessed, i - 1)
    decreases i
  {
    if i > 1 {
      OffsetShift(word, guessed, i - 1);
      assert word[i - 1] == word[1..][i - 2];
    }
  }

  /** The display ends one space short of the offset past the last cell. */
  lemma {:induction false} DisplayLength(word: string, guessed: seq<char>)
    requires word != []
    ensures |WordDisplay(word, guessed)| + 1 == Offset(word, guessed, |word|)
    decreases |word|
  {
    OffsetShift(word, guessed, |word|);
    if |word| > 1 {
      DisplayLength(word[1..], guessed);
    }
  }

  /** Reading past a cell and its separator reads the rest of the join. */
  lemma {:induction false} SliceAfterSeparator(d: string, a: string, b: string, k: nat, n: nat)
    requires d == a + " " + b && k + n <= |b|
    ensures d[|a| + 1 + k..|a| + 1 + k + n] == b[k..k + n]
    ensures n > 0 ==> d[|a| + 1 + k] == b[k]
  {
    assert d[|a| + 1..] == b;
  }

  /** A cell found at offset k of the rest of the join is found |a| + 1
      further on in the whole join. */
  lemma {:induction false} ShiftedCell(d: string, a: string, b: string, k: nat, o: nat, c: string)
    requires d == a + " " + b && o == |a| + 1 + k
    requires k + |c| <= |b| && b[k..k + |c|] == c
    ensures o + |c| <= |d| && d[o..o + |c|] == c
  {
    SliceAfterSeparator(d, a, b, k, |c|);
  }

  /** A word of two or more characters shows its first cell, a space, and
      the display of the rest. */
  lemma {:induction false} DisplayUnfold(word: string, guessed: seq<char>)
    requires |word| >= 2
    ensures WordDisplay(word, guessed) == Cell(word[0], guessed) + " " + WordDisplay(word[1..], guessed)
  {
  }

  /** The display starts with the cell of the first character. */
  lemma {:induction false} FirstCell(word: string, guessed: seq<char>)
    requires word != []
    ensures Offset(word, guessed, 0) + |Cell(word[0], guessed)| <= |WordDisplay(word, guessed)|
    ensures WordDisplay(word, guessed)[Offset(word, guessed, 0)..Offset(word, guessed, 0) + |Cell(word[0], guessed)|]
      == Cell(word[0], guessed)
  {
    var d := WordDisplay(word, guessed);
    var c0 := Cell(word[0], guessed);
    if |word| > 1 {
      DisplayUnfold(word, guessed);
    }
    assert d[0..|c0|] == c0;
  }

  /** The cell of word[i] sits at its offset when the cell of word[1..][i - 1]
      sits at its offset in the display of the rest. */
  lemma {:induction false} CellAtStep(word: string, guessed: seq<char>, i: nat)
    requires 0 < i < |word|
    requires Offset(word[1..], guessed, i - 1) + |Cell(word[1..][i - 1], guessed)| <= |WordDisplay(word[1..], guessed)|
    requires WordDisplay(word[1..], guessed)[Offset(word[1..], guessed, i - 1)..
      Offset(word[1..], guessed, i - 1) + |Cell(word[1..][i - 1], guessed)|] == Cell(word[1..][i - 1], guessed)
    ensures Offset(word, guessed, i) + |Cell(word[i], guessed)| <= |WordDisplay(word, guessed)|
    ensures WordDisplay(word, guessed)[Offset(word, guessed, i)..Offset(word, guessed, i) + |Cell(word[i], guessed)|]
      == Cell(word[i], guessed)
  {
    OffsetShift(word, guessed, i);
    DisplayUnfold(word, guessed);
    assert word[i] == word[1..][i - 1];
    ShiftedCell(WordDisplay(word, guessed), Cell(word[0], guessed), WordDisplay(word[1..], guessed),
      Offset(word[1..], guessed, i - 1), Offset(word, guessed, i), Cell(word[i], guessed));
  }

  /** The display shows the cell of word[i] at its offset. */
  lemma {:induction false} CellAt(word: string, guessed: seq<char>, i: nat)
    requires i < |word|
    ensures Offset(word, guessed, i) + |Cell(word[i], guessed)| <= |WordDisplay(word, guessed)|
    ensures WordDisplay(word, guessed)[Offset(word, guessed, i)..Offset(word, guessed, i) + |Cell(word[i], guessed)|]
      == Cell(word[i], guessed)
    decreases i
  {
    if i == 0 {
      FirstCell(word, guessed);
    } else {
      CellAt(word[1..], guessed, i - 1);
      CellAtStep(word, guessed, i);
    }
  }

  /** A single space follows every cell but the last. */
  lemma {:induction false} SpaceAfter(word: string, guessed: seq<char>, i: nat)
    requires i < |word| - 1
    ensures Offset(word, guessed, i) + |Cell(word[i], guessed)| < |WordDisplay(word, guessed)|
    ensures WordDisplay(word, guessed)[Offset(word, guessed, i) + |Cell(word[i], guessed)|] == ' '
    decreases i
  {
    var d := WordDisplay(word, guessed);
    var c0 := Cell(word[0], guessed);
    var rest := word[1..];
    var d' := WordDisplay(rest, guessed);
    assert d == c0 + " " + d';
    if i > 0 {
      SpaceAfter(rest, guessed, i - 1);
      OffsetShift(word, guessed, i);
      assert word[i] == rest[i - 1];
      var k := Offset(rest, guessed, i - 1) + |Cell(rest[i - 1], guessed)|;
      SliceAfterSeparator(d, c0, d', k, 1);
    }
  }
  /** getHangmanArt: the drawing for the current wrong count, or none when the
      count is past the last drawing (the array read is undefined). */
  function ArtIndex(wrong: int): (stage: Option<nat>)
    ensures stage.Some? <==> 0 <= wrong < ArtStages
    ensures stage.Some? ==> stage.value == wrong
  {
    if 0 <= wrong < ArtStages then Some(wrong) else None
  }

  // --------------------------------------------------------- guess rules

  /** How makeGuess answered: the three rejections, then the four results
      of an accepted letter. */
  datatype Outcome = NotOneChar | NotALetter | AlreadyUsed | Correct | Won | Wrong | Lost

  /** The state makeGuess reads and writes. */
  datatype Round = Round(word: string, guessed: seq<char>, wrong: int)

  /** The number of guessed letters that do not occur in the word. */
  function Misses(word: string, guessed: seq<char>): (n: nat)
    ensures n <= |guessed|
  {
    if guessed == [] then 0
    else Misses(word, guessed[..|guessed| - 1]) + (if guessed[|guessed| - 1] in word then 0 else 1)
  }

  /** The state of a game in progress or finished: a listed word, distinct
      capital letters, and a wrong count equal to the misses. */
  ghost predicate Sound(r: Round) {
    && r.word in Words
    && NoDuplicates(r.guessed)
    && (forall i | 0 <= i < |r.guessed| :: IsUpper(r.guessed[i]))
    && r.wrong == Misses(r.word, r.guessed)
  }

  /** makeGuess on the upper-cased, trimmed input `letter`, as written: it
      answers whatever the state, also after the game was won or lost. */
  function Guess(r: Round, letter: string): (res: (Round, Outcome))
    ensures res.0.word == r.word
    ensures res.0.wrong == r.wrong || res.0.wrong == r.wrong + 1
    ensures res.0.guessed == r.guessed || (|letter| == 1 && res.0.guessed == r.guessed + letter)
  {
    if |letter| != 1 then (r, NotOneChar)
    else if !IsUpper(letter[0]) then (r, NotALetter)
    else if letter[0] in r.guessed then (r, AlreadyUsed)
    else
      var guessed := r.guessed + [letter[0]];
      if letter[0] in r.word then
        (r.(guessed := guessed), if CheckWin(r.word, guessed) then Won else Correct)
      else
        var wrong := r.wrong + 1;
        (r.(guessed := guessed, wrong := wrong), if wrong >= MaxWrongGuesses then Lost else Wrong)
  }

  /** A rejected input changes nothing; an accepted one appends exactly that
      letter and keeps the word. */
  lemma {:induction false} GuessEffect(r: Round, letter: string)
    ensures var (r', o) := Guess(r, letter);
      && r'.word == r.word
      && (o in {NotOneChar, NotALetter, AlreadyUsed} <==> r' == r)
      && (o !in {NotOneChar, NotALetter, AlreadyUsed} ==>
            |letter| == 1 && IsUpper(letter[0]) && letter[0] !in r.guessed && r'.guessed == r.guessed + letter)
  {
    var (r', o) := Guess(r, letter);
    if o !in {NotOneChar, NotALetter, AlreadyUsed} {
      assert |r'.guessed| == |r.guessed| + 1;
    }
  }

  /** A letter of the word never costs a try; any other letter costs exactly
      one. The game is won exactly when the letter completes the word and
      lost exactly when the count reaches the limit. */
  lemma {:induction false} GuessScoring(r: Round, letter: string)
    requires |letter| == 1 && IsUpper(letter[0]) && letter[0] !in r.guessed
    ensures var (r', o) := Guess(r, letter);
      && (letter[0] in r.word ==> r'.wrong == r.wrong && (o == Won <==> CheckWin(r.word, r'.guessed)) && o in {Correct, Won})
      && (letter[0] !in r.word ==> r'.wrong == r.wrong + 1 && (o == Lost <==> r'.wrong >= MaxWrongGuesses) && o in {Wrong, Lost})
  {
  }

  lemma {:induction false} MissesAppend(word: string, guessed: seq<char>, c: char)
    ensures Misses(word, guessed + [c]) == Misses(word, guessed) + (if c in word then 0 else 1)
  {
    assert (guessed + [c])[..|guessed|] == guessed;
  }

  /** Every guess keeps the state sound: no letter is ever listed twice and
      the wrong count is always the number of missed letters. */
  lemma {:induction false} GuessKeepsSound(r: Round, letter: string)
    requires Sound(r)
    ensures Sound(Guess(r, letter).0)
  {
    if |letter| == 1 && IsUpper(letter[0]) && letter[0] !in r.guessed {
      MissesAppend(r.word, r.guessed, letter[0]);
      var g := r.guessed + [letter[0]];
      assert g[|r.guessed|] == letter[0];
    }
  }

  // ------------------------------------------------- game already decided

  /** The game has been decided: all letters found or the tries used up. */
  predicate Finished(r: Round) {
    CheckWin(r.word, r.guessed) || r.wrong >= MaxWrongGuesses
  }

  /** As written, a lost game keeps taking guesses: a further letter outside
      the word takes the count to 7, past the last drawing. */
  lemma {:induction false} GuessAfterLossOverrunsArt(r: Round, letter: string)
    requires Sound(r) && r.wrong == MaxWrongGuesses
    requires |letter| == 1 && IsUpper(letter[0]) && letter[0] !in r.guessed && letter[0] !in r.word
    ensures Finished(r)
    ensures Sound(Guess(r, letter).0) && Guess(r, letter).0.wrong == ArtStages
    ensures ArtIndex(Guess(r, letter).0.wrong) == None
  {
    GuessKeepsSound(r, letter);
  }

  /** As written, a won game keeps taking guesses too, and with five misses
      before the win a sixth after it reports the game lost. */
  lemma {:induction false} WonThenLost(r: Round, letter: string)
    requires Sound(r) && CheckWin(r.word, r.guessed) && r.wrong == MaxWrongGuesses - 1
    requires |letter| == 1 && IsUpper(letter[0]) && letter[0] !in r.guessed && letter[0] !in r.word
    ensures Finished(r) && Guess(r, letter).1 == Lost
  {
  }

  /** makeGuess as evidently intended: once the game is decided the input is
      ignored. */
  function GuardedGuess(r: Round, letter: string): (res: (Round, Option<Outcome>))
    ensures Finished(r) ==> res == (r, None)
    ensures !Finished(r) ==> res == (Guess(r, letter).0, Some(Guess(r, letter).1))
  {
    if Finished(r) then (r, None) else var (r', o) := Guess(r, letter); (r', Some(o))
  }

  /** With the guard the wrong count never passes the limit, so the drawing
      always exists, and a won game stays won. */
  lemma {:induction false} GuardedGuessKeepsArt(r: Round, letter: string)
    requires 0 <= r.wrong <= MaxWrongGuesses
    ensures 0 <= GuardedGuess(r, letter).0.wrong <= MaxWrongGuesses
    ensures ArtIndex(GuardedGuess(r, letter).0.wrong).Some?
    ensures CheckWin(r.word, r.guessed) ==> GuardedGuess(r, letter).0 == r
  {
  }

  // ---------------------------------------------------------------- game

  /** The game object: current word, guessed letters and wrong count. */
  class Hangman {
    var word: string
    var guessed: seq<char>
    var wrong: int

    function State(): Round
      reads this
    {
      Round(word, guessed, wrong)
    }

    ghost predicate Valid()
      reads this
    {
      Sound(State())
    }

    /** Construction runs init, which draws a word. */
    constructor (k: nat)
      requires k < |Words|
      ensures Valid()
      ensures word == Words[k] && guessed == [] && wrong == 0
    {
      word := Words[k];
      guessed := [];
      wrong := 0;
    }

    /** selectWord: word `k` of the list (the random draw), no letters guessed. */
    method SelectWord(k: nat)
      requires k < |Words|
      modifies this
      ensures Valid()
      ensures word == Words[k] && guessed == [] && wrong == 0
    {
      word := Words[k];
      guessed := [];
      wrong := 0;
    }

    /** makeGuess on the upper-cased, trimmed input. */
    method MakeGuess(letter: string) returns (outcome: Outcome)
      requires Valid()
      modifies this
      ensures Valid()
      ensures (State(), outcome) == Guess(old(State()), letter)
    {
      if |letter| != 1 {
        return NotOneChar;
      }
      var c := letter[0];
      if !IsUpper(c) {
        return NotALetter;
      }
      if c in guessed {
        return AlreadyUsed;
      }
      GuessKeepsSound(State(), letter);
      guessed := guessed + [c];
      if c in word {
        outcome := if CheckWin(word, guessed) then Won else Correct;
      } else {
        wrong := wrong + 1;
        outcome := if wrong >= MaxWrongGuesses then Lost else Wrong;
      }
    }
  }
}
