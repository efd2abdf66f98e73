/** The Hangman game state machine: one game's state, word choice, guess
    evaluation, the end-of-game score and the append-only score store. */
module Game {
  import opened Common

  /** The fixed word list of the game. */
  const WORDS: seq<string> := ["3dhubs", "marvin", "print", "filament", "order", "layer"]

  /** Slot value of a letter that has not been guessed yet. */
  const PLACEHOLDER: char := '_'

  /** Attempts a fresh game starts with. */
  const MAX_ATTEMPTS: int := 5

  /** One row of the score store; the completion timestamp is not modelled. */
  datatype ScoreRecord = ScoreRecord(name: string, score: real)

  /** Raised when the score store cannot be written. */
  datatype ScoreDataProblem = ScoreDataProblem

  /** A word letter equals the user's guess, compared as one-character strings. */
  predicate Matches(letter: char, guess: string) {
    guess == [letter]
  }

  /** Some letter of `word` equals the guess; that is, the guess is one
      character long and that character is in the word. */
  predicate Occurs(word: string, guess: string)
    ensures Occurs(word, guess) <==> |guess| == 1 && guess[0] in word
  {
    exists i :: 0 <= i < |word| && Matches(word[i], guess)
  }

  /** Every slot of the revealed pattern is a placeholder or the word's own letter. */
  predicate Consistent(pattern: seq<char>, word: string) {
    |pattern| == |word| &&
    forall i :: 0 <= i < |word| ==> pattern[i] == PLACEHOLDER || pattern[i] == word[i]
  }

  /** The pattern after the scan of one guess: every placeholder whose letter
      matches the guess is replaced by that letter. On a consistent pattern
      this puts the letter at every matching position, leaves every other
      slot as it was, and keeps the pattern consistent. */
  function Reveal(pattern: seq<char>, word: string, guess: string): (r: seq<char>)
    requires |pattern| == |word|
    ensures |r| == |word|
    ensures Consistent(pattern, word) ==> Consistent(r, word)
    ensures Consistent(pattern, word) ==>
      forall i :: 0 <= i < |word| ==> r[i] == if Matches(word[i], guess) then word[i] else pattern[i]
  {
    seq(|word|, i requires 0 <= i < |word| =>
      if Matches(word[i], guess) && pattern[i] == PLACEHOLDER then word[i] else pattern[i])
  }

  /** Number of slots still hidden. */
  function Unguessed(pattern: seq<char>): (n: nat) {
    Occurrences(pattern, PLACEHOLDER)
  }

  /** The end-of-game score, on exact reals: half of it for the attempts
      left, half for the share of the word revealed. It lies in [0, 100]
      whenever the attempts and the hidden count are in range, and a fully
      revealed word scores ten points per attempt left plus fifty. */
  function Score(attemptsLeft: int, totalLength: nat, numberOfUnguessed: nat): (s: real)
    requires totalLength > 0
    ensures 0 <= attemptsLeft <= MAX_ATTEMPTS && numberOfUnguessed <= totalLength ==> 0.0 <= s <= 100.0
    ensures numberOfUnguessed == 0 ==> s == 10.0 * attemptsLeft as real + 50.0
  {
    var revealedShare := (totalLength - numberOfUnguessed) as real / totalLength as real;
    assert revealedShare * totalLength as real == (totalLength - numberOfUnguessed) as real;
    assert numberOfUnguessed <= totalLength ==> 0.0 <= revealedShare;
    assert numberOfUnguessed <= totalLength ==> revealedShare <= 1.0;
    assert numberOfUnguessed == 0 ==> revealedShare == 1.0;
    attemptsLeft as real / 5.0 * 50.0 + revealedShare * 50.0
  }

  /** Every word of the list is non-empty and has no placeholder letter. */
  lemma WordsHaveNoPlaceholder(id: nat)
    requires id < |WORDS|
    ensures |WORDS[id]| > 0 && PLACEHOLDER !in WORDS[id]
  {
  }

  /** Scanning the same guess twice changes nothing the second time. */
  lemma RevealIdempotent(pattern: seq<char>, word: string, guess: string)
    requires |pattern| == |word|
    ensures Reveal(Reveal(pattern, word, guess), word, guess) == Reveal(pattern, word, guess)
  {
  }

  /** A guess whose positions are all revealed already leaves the pattern unchanged. */
  lemma RevealAlreadyGuessed(pattern: seq<char>, word: string, guess: string)
    requires Consistent(pattern, word)
    requires forall i :: 0 <= i < |word| && Matches(word[i], guess) ==> pattern[i] == word[i]
    ensures Reveal(pattern, word, guess) == pattern
  {
  }

  /** A guess that is not in the word leaves the pattern unchanged. */
  lemma RevealMiss(pattern: seq<char>, word: string, guess: string)
    requires |pattern| == |word|
    requires !Occurs(word, guess)
    ensures Reveal(pattern, word, guess) == pattern
  {
  }

  /** A scan never hides a slot again, and a guess that matches a hidden
      letter of a word without placeholder letters reveals at least one slot. */
  lemma RevealProgress(pattern: seq<char>, word: string, guess: string, k: nat)
    requires Consistent(pattern, word) && PLACEHOLDER !in word
    requires k < |word| && Matches(word[k], guess) && pattern[k] == PLACEHOLDER
    ensures Unguessed(Reveal(pattern, word, guess)) < Unguessed(pattern)
  {
    OccurrencesStrictlyMonotone(pattern, Reveal(pattern, word, guess), PLACEHOLDER, k);
  }

  /** Losing all attempts without revealing anything scores zero. */
  lemma ScoreOfNothingRevealed(totalLength: nat)
    requires 0 < totalLength
    ensures Score(0, totalLength, totalLength) == 0.0
  {
  }

  class Core {
    var userName: Option<string>
    var selectedWordId: Option<nat>
    var currentGuess: Option<seq<char>>
    var attemptsLeft: Option<int>
    var active: bool
    var userGuessed: bool
    var score: Option<real>
    /** The persistent score table, only ever appended to. */
    var scores: seq<ScoreRecord>

    /** No game has been started since the last reset. */
    ghost predicate Idle()
      reads this
    {
      userName.None? && selectedWordId.None? && currentGuess.None? &&
      attemptsLeft.None? && !active && !userGuessed && score.None?
    }

    /** A game has been started; its fields are set. */
    ghost predicate Started()
      reads this
    {
      userName.Some? && selectedWordId.Some? && selectedWordId.value < |WORDS| &&
      currentGuess.Some? && attemptsLeft.Some? && score.Some?
    }

    /** The secret word of a started game. */
    ghost function Word(): string
      reads this
      requires Started()
    {
      WORDS[selectedWordId.value]
    }

    /** The object invariant of the game. */
    ghost predicate Valid()
      reads this
    {
      Idle() ||
      (Started() &&
       Consistent(currentGuess.value, Word()) &&
       0 <= attemptsLeft.value <= MAX_ATTEMPTS &&
       (userGuessed <==> PLACEHOLDER !in currentGuess.value) &&
       (active <==> attemptsLeft.value > 0 && !userGuessed) &&
       (active ==> score.value == 0.0) &&
       (!active ==>
          score.value == Score(attemptsLeft.value, |Word()|, Unguessed(currentGuess.value))))
    }

    /** A won game is never active. */
    lemma WonImpliesInactive()
      requires Valid()
      ensures userGuessed ==> !active
    {
    }

    /** A finished game's score lies in [0, 100]. */
    lemma FinishedScoreInRange()
      requires Valid() && Started() && !active
      ensures 0.0 <= score.value <= 100.0
    {
      WordsHaveNoPlaceholder(selectedWordId.value);
    }

    /** A fresh core with no game, over an existing score table. */
    constructor(history: seq<ScoreRecord>)
      ensures Valid() && Idle()
      ensures scores == history
    {
      userName := None;
      selectedWordId := None;
      currentGuess := None;
      attemptsLeft := None;
      active := false;
      userGuessed := false;
      score := None;
      scores := history;
    }

    /** Clears every game field; the score table is untouched. */
    method ResetVariables()
      modifies this
      ensures Valid() && Idle()
      ensures scores == old(scores)
    {
      userName := None;
      selectedWordId := None;
      currentGuess := None;
      attemptsLeft := None;
      active := false;
      userGuessed := false;
      score := None;
    }

    /** Ends the game, discarding it without writing a score. */
    method End()
      modifies this
      ensures Valid() && Idle()
      ensures scores == old(scores)
    {
      ResetVariables();
    }

    /** Starts a fresh game on a word picked at random, discarding any game in
        progress without writing a score. */
    method Start(name: string)
      modifies this
      ensures Valid() && Started()
      ensures userName == Some(name)
      ensures selectedWordId.value < |WORDS|
      ensures attemptsLeft == Some(MAX_ATTEMPTS)
      ensures currentGuess == Some(seq(|Word()|, _ => PLACEHOLDER))
      ensures active && !userGuessed && score == Some(0.0)
      ensures scores == old(scores)
    {
      var id: nat :| id < |WORDS|;
      userName := Some(name);
      selectedWordId := Some(id);
      attemptsLeft := Some(MAX_ATTEMPTS);
      currentGuess := Some(seq(|WORDS[id]|, _ => PLACEHOLDER));
      active := true;
      userGuessed := false;
      score := Some(0.0);
      WordsHaveNoPlaceholder(id);
      assert currentGuess.value[0] == PLACEHOLDER;
    }

    /** Scans the secret word and reveals, in place, every hidden slot whose
        letter matches the guess; reports whether any letter matched. */
    method CheckCurrentGuess(guess: string) returns (correctGuess: bool)
      requires Started() && |currentGuess.value| == |Word()|
      modifies this
      ensures correctGuess <==> Occurs(old(Word()), guess)
      ensures currentGuess == Some(Reveal(old(currentGuess.value), old(Word()), guess))
      ensures userName == old(userName) && selectedWordId == old(selectedWordId)
      ensures attemptsLeft == old(attemptsLeft) && active == old(active)
      ensures userGuessed == old(userGuessed) && score == old(score)
      ensures scores == old(scores)
    {
      var word := WORDS[selectedWordId.value];
      ghost var before := currentGuess.value;
      correctGuess := false;
      var idx := 0;
      while idx < |word|
        invariant 0 <= idx <= |word|
        invariant currentGuess.Some? && |currentGuess.value| == |word|
        invariant forall k :: 0 <= k < idx ==> currentGuess.value[k] == Reveal(before, word, guess)[k]
        invariant forall k :: idx <= k < |word| ==> currentGuess.value[k] == before[k]
        invariant correctGuess <==> exists k :: 0 <= k < idx && Matches(word[k], guess)
        invariant userName == old(userName) && selectedWordId == old(selectedWordId)
        invariant attemptsLeft == old(attemptsLeft) && active == old(active)
        invariant userGuessed == old(userGuessed) && score == old(score)
        invariant scores == old(scores)
      {
        if Matches(word[idx], guess) {
          if currentGuess.value[idx] == PLACEHOLDER {
            currentGuess := Some(currentGuess.value[idx := word[idx]]);
          }
          correctGuess := true;
        }
        idx := idx + 1;
      }
      assert currentGuess.value == Reveal(before, word, guess);
    }

    /** Plays one guess of an active game. A miss costs one attempt; a hit
        keeps the attempts. When the game thereby ends, the score is computed
        and one record is appended to the score table, unless the table
        cannot be written, in which case the state change stands and the
        write failure is reported. */
    method HandleNewCharacter(usersCharacter: string, storeWritable: bool)
      returns (result: Result<bool, ScoreDataProblem>)
      requires Valid() && active
      modifies this
      ensures Valid() && Started()
      ensures userName == old(userName) && selectedWordId == old(selectedWordId)
      ensures currentGuess == Some(Reveal(old(currentGuess.value), old(Word()), usersCharacter))
      ensures !Occurs(Word(), usersCharacter) ==>
        attemptsLeft == Some(old(attemptsLeft.value) - 1) &&
        active == (attemptsLeft.value > 0) && !userGuessed
      ensures Occurs(Word(), usersCharacter) ==>
        attemptsLeft == old(attemptsLeft) &&
        active == (PLACEHOLDER in currentGuess.value) && userGuessed == !active
      ensures active ==>
        score == Some(0.0) && scores == old(scores) &&
        result == Success(Occurs(Word(), usersCharacter))
      ensures !active ==>
        score == Some(Score(attemptsLeft.value, |Word()|, Unguessed(currentGuess.value)))
      ensures !active && storeWritable ==>
        scores == old(scores) + [ScoreRecord(userName.value, score.value)] &&
        result == Success(Occurs(Word(), usersCharacter))
      ensures !active && !storeWritable ==>
        scores == old(scores) && result == Failure(ScoreDataProblem)
    {
      ghost var word := Word();
      ghost var before := currentGuess.value;
      var success := CheckCurrentGuess(usersCharacter);
      if !success {
        RevealMiss(before, word, usersCharacter);
        attemptsLeft := Some(attemptsLeft.value - 1);
        active := attemptsLeft.value > 0;
      } else {
        active := PLACEHOLDER in currentGuess.value;
        if !active {
          userGuessed := true;
        }
      }
      result := Success(success);
      if !active {
        var numberOfUnguessed := Occurrences(currentGuess.value, PLACEHOLDER);
        var totalLength := |WORDS[selectedWordId.value]|;
        score := Some(Score(attemptsLeft.value, totalLength, numberOfUnguessed));
        if storeWritable {
          scores := scores + [ScoreRecord(userName.value, score.value)];
        } else {
          result := Failure(ScoreDataProblem);
        }
      }
    }
  }

  /** Five misses from a fresh start lose the game: it is over, not won and
      out of attempts, the score is zero, and the score table gains exactly
      that one record. */
  method FiveMisses(name: string)
    returns (finalScore: real, stored: seq<ScoreRecord>, stillActive: bool, won: bool, attempts: Option<int>)
    ensures !stillActive && !won && attempts == Some(0)
    ensures finalScore == 0.0
    ensures stored == [ScoreRecord(name, 0.0)]
  {
    var game := new Core([]);
    game.Start(name);
    var blank := game.currentGuess.value;
    WordsHaveNoPlaceholder(game.selectedWordId.value);
    assert !Occurs(game.Word(), "#");
    var i := 0;
    while i < 5
      invariant 0 <= i <= 5
      invariant game.Valid() && game.Started() && game.userName == Some(name)
      invariant game.currentGuess == Some(blank) && |blank| == |game.Word()|
      invariant game.attemptsLeft == Some(5 - i)
      invariant !Occurs(game.Word(), "#")
      invariant game.active <==> i < 5
      invariant !game.userGuessed
      invariant game.scores == (if i < 5 then [] else [ScoreRecord(name, game.score.value)])
    {
      RevealMiss(blank, game.Word(), "#");
      var _ := game.HandleNewCharacter("#", true);
      i := i + 1;
    }
    assert Unguessed(blank) == |blank| by {
      assert forall k :: 0 <= k < |blank| ==> blank[k] == PLACEHOLDER;
      OccurrencesAllEqual(blank, PLACEHOLDER);
    }
    ScoreOfNothingRevealed(|blank|);
    finalScore := game.score.value;
    stored := game.scores;
    stillActive, won, attempts := game.active, game.userGuessed, game.attemptsLeft;
  }

  /** A sequence made of one value only counts that value at every position. */
  lemma {:induction false} OccurrencesAllEqual(s: seq<char>, x: char)
    requires forall k :: 0 <= k < |s| ==> s[k] == x
    ensures Occurrences(s, x) == |s|
    decreases |s|
  {
    if s != [] {
      OccurrencesAllEqual(s[..|s| - 1], x);
    }
  }
}
