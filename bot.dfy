/** The automated player's strategy: letter frequencies over the words that
    are still possible, the choice of the next guess, and the narrowing of
    the candidate words by the server's answer. */
module Bot {
  import opened Common

  /** Total number of occurrences of `c` over all words, repeats within a
      word included; it is positive exactly when some word holds `c`. */
  function TotalCount(words: seq<string>, c: char): (n: nat)
    ensures n > 0 <==> exists w :: w in words && c in w
    decreases |words|
  {
    if words == [] then 0
    else
      var init := words[..|words| - 1];
      assert forall w :: w in words <==> w in init || w == words[|words| - 1] by {
        assert words == init + [words[|words| - 1]];
      }
      TotalCount(init, c) + Occurrences(words[|words| - 1], c)
  }

  /** `a` is listed before `b`: the larger count first, and among equal
      counts the larger character first. */
  predicate RanksAbove(countA: nat, a: char, countB: nat, b: char) {
    countA > countB || (countA == countB && a > b)
  }

  /** Count of a character in a frequency table, zero when absent. */
  function Lookup(freq: map<char, nat>, c: char): (n: nat) {
    if c in freq then freq[c] else 0
  }

  /** `r` lists characters of `freq` in strictly descending rank. */
  predicate SortedByRank(freq: map<char, nat>, r: seq<char>) {
    forall i, j :: 0 <= i < j < |r| ==> RanksAbove(Lookup(freq, r[i]), r[i], Lookup(freq, r[j]), r[j])
  }

  /** `r` lists characters in strictly descending rank of their total count over `words`. */
  predicate RankedByCount(words: seq<string>, r: seq<char>) {
    forall i, j :: 0 <= i < j < |r| ==>
      RanksAbove(TotalCount(words, r[i]), r[i], TotalCount(words, r[j]), r[j])
  }

  /** Puts `c` into its rank position in an already ranked list. */
  function InsertByRank(freq: map<char, nat>, r: seq<char>, c: char): (s: seq<char>)
    requires SortedByRank(freq, r) && c !in r
    ensures |s| == |r| + 1
    ensures forall x :: x in s <==> x in r || x == c
    ensures SortedByRank(freq, s)
    decreases |r|
  {
    if r == [] then [c]
    else if RanksAbove(Lookup(freq, c), c, Lookup(freq, r[0]), r[0]) then
      assert forall j :: 0 < j < |r| ==> RanksAbove(Lookup(freq, r[0]), r[0], Lookup(freq, r[j]), r[j]);
      [c] + r
    else
      var rest := InsertByRank(freq, r[1..], c);
      assert forall x :: x in r <==> x == r[0] || x in r[1..] by {
        assert r == [r[0]] + r[1..];
      }
      assert c != r[0];
      assert forall x :: x in rest ==> RanksAbove(Lookup(freq, r[0]), r[0], Lookup(freq, x), x) by {
        forall x | x in rest
          ensures RanksAbove(Lookup(freq, r[0]), r[0], Lookup(freq, x), x)
        {
          if x != c {
            var k :| 0 <= k < |r[1..]| && r[1..][k] == x;
            assert r[k + 1] == x;
          }
        }
      }
      [r[0]] + rest
  }

  /** The frequency table of the first phase: for each character, its total
      count over the words, built by one increment per letter. */
  method CharacterFrequencies(possibleWords: seq<string>) returns (freq: map<char, nat>)
    ensures forall c :: Lookup(freq, c) == TotalCount(possibleWords, c)
    ensures forall c :: c in freq ==> freq[c] > 0
  {
    freq := map[];
    var i := 0;
    while i < |possibleWords|
      invariant 0 <= i <= |possibleWords|
      invariant forall c :: Lookup(freq, c) == TotalCount(possibleWords[..i], c)
      invariant forall c :: c in freq ==> freq[c] > 0
    {
      var word := possibleWords[i];
      var j := 0;
      while j < |word|
        invariant 0 <= j <= |word|
        invariant forall c :: Lookup(freq, c) == TotalCount(possibleWords[..i], c) + Occurrences(word[..j], c)
        invariant forall c :: c in freq ==> freq[c] > 0
      {
        var c := word[j];
        if c !in freq {
          freq := freq[c := 1];
        } else {
          freq := freq[c := freq[c] + 1];
        }
        assert word[..j + 1][..j] == word[..j];
        j := j + 1;
      }
      assert word[..j] == word;
      assert possibleWords[..i + 1][..i] == possibleWords[..i];
      i := i + 1;
    }
    assert possibleWords[..i] == possibleWords;
  }

  /** The keys of a frequency table in strictly descending rank (the sort of
      the second phase). */
  method RankCharacters(freq: map<char, nat>) returns (ranked: seq<char>)
    ensures forall c :: c in ranked <==> c in freq
    ensures SortedByRank(freq, ranked)
  {
    var rest := freq.Keys;
    ranked := [];
    while rest != {}
      invariant rest <= freq.Keys
      invariant forall c :: c in ranked <==> c in freq && c !in rest
      invariant SortedByRank(freq, ranked)
      decreases |rest|
    {
      var c :| c in rest;
      ranked := InsertByRank(freq, ranked, c);
      rest := rest - {c};
    }
  }

  /** The characters of the words, each once, in descending order of their
      total count and, among equal counts, in descending character order. */
  method GetSortedCharacters(possibleWords: seq<string>) returns (sortedCharacters: seq<char>)
    ensures forall c :: c in sortedCharacters <==> TotalCount(possibleWords, c) > 0
    ensures RankedByCount(possibleWords, sortedCharacters)
    ensures possibleWords == [] ==> sortedCharacters == []
  {
    var freq := CharacterFrequencies(possibleWords);
    sortedCharacters := RankCharacters(freq);
    if possibleWords == [] && sortedCharacters != [] {
      assert TotalCount(possibleWords, sortedCharacters[0]) == 0;
    }
  }

  /** Every character is listed at most once. */
  lemma SortedCharactersDistinct(words: seq<string>, r: seq<char>)
    requires RankedByCount(words, r)
    ensures forall i, j :: 0 <= i < j < |r| ==> r[i] != r[j]
  {
  }

  /** The required-keys check on a server answer: every required field is a key. */
  function CheckData<V>(jsonDict: map<string, V>, requiredFields: seq<string>): (ok: bool)
    ensures ok <==> forall f :: f in requiredFields ==> f in jsonDict
    ensures requiredFields == [] ==> ok
    decreases |requiredFields|
  {
    if requiredFields == [] then true
    else
      assert forall f :: f in requiredFields <==> f == requiredFields[0] || f in requiredFields[1..] by {
        assert requiredFields == [requiredFields[0]] + requiredFields[1..];
      }
      requiredFields[0] in jsonDict && CheckData(jsonDict, requiredFields[1..])
  }

  /** The ranked characters that have not been attempted yet, in ranked order. */
  function Unattempted(sortedCharacters: seq<char>, attemptedLetters: seq<char>): (r: seq<char>)
    ensures forall c :: c in r <==> c in sortedCharacters && c !in attemptedLetters
    ensures |r| <= |sortedCharacters|
    decreases |sortedCharacters|
  {
    if sortedCharacters == [] then []
    else
      var tail := Unattempted(sortedCharacters[1..], attemptedLetters);
      assert forall c :: c in sortedCharacters <==> c == sortedCharacters[0] || c in sortedCharacters[1..] by {
        assert sortedCharacters == [sortedCharacters[0]] + sortedCharacters[1..];
      }
      if sortedCharacters[0] in attemptedLetters then tail else [sortedCharacters[0]] + tail
  }

  /** Dropping attempted letters keeps the original order: it distributes over concatenation. */
  lemma {:induction false} UnattemptedConcat(a: seq<char>, b: seq<char>, attemptedLetters: seq<char>)
    ensures Unattempted(a + b, attemptedLetters) == Unattempted(a, attemptedLetters) + Unattempted(b, attemptedLetters)
    decreases |a|
  {
    if a == [] {
      assert a + b == b;
    } else {
      assert (a + b)[1..] == a[1..] + b;
      UnattemptedConcat(a[1..], b, attemptedLetters);
    }
  }

  /** Dropping attempted letters from a ranked list leaves a ranked list. */
  lemma {:induction false} UnattemptedKeepsRank(words: seq<string>, sortedCharacters: seq<char>, attemptedLetters: seq<char>)
    requires RankedByCount(words, sortedCharacters)
    ensures RankedByCount(words, Unattempted(sortedCharacters, attemptedLetters))
    decreases |sortedCharacters|
  {
    if sortedCharacters != [] {
      var head := sortedCharacters[0];
      var rest := sortedCharacters[1..];
      assert RankedByCount(words, rest) by {
        forall i, j | 0 <= i < j < |rest|
          ensures RanksAbove(TotalCount(words, rest[i]), rest[i], TotalCount(words, rest[j]), rest[j])
        {
          assert rest[i] == sortedCharacters[i + 1] && rest[j] == sortedCharacters[j + 1];
        }
      }
      UnattemptedKeepsRank(words, rest, attemptedLetters);
      var tail := Unattempted(rest, attemptedLetters);
      forall x | x in tail
        ensures RanksAbove(TotalCount(words, head), head, TotalCount(words, x), x)
      {
        var k :| 0 <= k < |rest| && rest[k] == x;
        assert sortedCharacters[k + 1] == x;
      }
    }
  }

  /** The character appears in every remaining word, so guessing it splits
      nothing; checked one word after the other. */
  predicate InEveryWord(c: char, possibleWords: seq<string>)
    ensures InEveryWord(c, possibleWords) <==> forall w :: w in possibleWords ==> c in w
    decreases |possibleWords|
  {
    possibleWords == [] ||
    (c in possibleWords[0] && InEveryWord(c, possibleWords[1..]))
  }

  /** Picks the first candidate that is missing from some remaining word, or
      else the first candidate. With no candidate at all the solver stops
      with an index error, which is `None` here. */
  method ChooseGuess(candidates: seq<char>, possibleWords: seq<string>) returns (guess: Option<char>)
    ensures guess.None? <==> candidates == []
    ensures guess.Some? ==> guess.value in candidates
    ensures forall k :: (0 <= k < |candidates| && !InEveryWord(candidates[k], possibleWords) &&
                         (forall j :: 0 <= j < k ==> InEveryWord(candidates[j], possibleWords))) ==>
      guess == Some(candidates[k])
    ensures candidates != [] && (forall j :: 0 <= j < |candidates| ==> InEveryWord(candidates[j], possibleWords)) ==>
      guess == Some(candidates[0])
    ensures guess.Some? ==>
      exists k :: (0 <= k < |candidates| && candidates[k] == guess.value &&
                   (forall j :: 0 <= j < k ==> InEveryWord(candidates[j], possibleWords)) &&
                   (!InEveryWord(candidates[k], possibleWords) ||
                    (k == 0 && forall j :: 0 <= j < |candidates| ==> InEveryWord(candidates[j], possibleWords))))
  {
    var i := 0;
    while i < |candidates|
      invariant 0 <= i <= |candidates|
      invariant forall j :: 0 <= j < i ==> InEveryWord(candidates[j], possibleWords)
    {
      if !InEveryWord(candidates[i], possibleWords) {
        return Some(candidates[i]);
      }
      i := i + 1;
    }
    if candidates == [] {
      return None;
    }
    return Some(candidates[0]);
  }

  /** The words that stay possible after the server's answer to a guess:
      those holding the guess after a hit, those without it after a miss,
      in their original order. */
  function Narrow(possibleWords: seq<string>, guess: char, guessed: bool): (r: seq<string>)
    ensures forall w :: w in r <==> w in possibleWords && (guess in w) == guessed
    ensures |r| <= |possibleWords|
    decreases |possibleWords|
  {
    if possibleWords == [] then []
    else
      var tail := Narrow(possibleWords[1..], guess, guessed);
      assert forall w :: w in possibleWords <==> w == possibleWords[0] || w in possibleWords[1..] by {
        assert possibleWords == [possibleWords[0]] + possibleWords[1..];
      }
      if (guess in possibleWords[0]) == guessed then [possibleWords[0]] + tail else tail
  }

  /** Narrowing keeps the original order: it distributes over concatenation. */
  lemma {:induction false} NarrowConcat(a: seq<string>, b: seq<string>, guess: char, guessed: bool)
    ensures Narrow(a + b, guess, guessed) == Narrow(a, guess, guessed) + Narrow(b, guess, guessed)
    decreases |a|
  {
    if a == [] {
      assert a + b == b;
    } else {
      assert (a + b)[1..] == a[1..] + b;
      NarrowConcat(a[1..], b, guess, guessed);
    }
  }

  /** A hit and a miss split the words between them. */
  lemma {:induction false} NarrowPartition(possibleWords: seq<string>, guess: char)
    ensures |Narrow(possibleWords, guess, true)| + |Narrow(possibleWords, guess, false)| == |possibleWords|
    decreases |possibleWords|
  {
    if possibleWords != [] {
      NarrowPartition(possibleWords[1..], guess);
    }
  }

  /** A guess held by some but not all words makes either answer shrink the list. */
  lemma NarrowShrinks(possibleWords: seq<string>, guess: char, guessed: bool)
    requires exists w :: w in possibleWords && guess in w
    requires !InEveryWord(guess, possibleWords)
    ensures |Narrow(possibleWords, guess, guessed)| < |possibleWords|
  {
    NarrowPartition(possibleWords, guess);
    var hit :| hit in possibleWords && guess in hit;
    var miss :| miss in possibleWords && guess !in miss;
    assert hit in Narrow(possibleWords, guess, true);
    assert miss in Narrow(possibleWords, guess, false);
  }

  /** A letter the player may still guess: it occurs in some remaining word
      and has not been attempted. */
  predicate Guessable(possibleWords: seq<string>, attemptedLetters: seq<char>, c: char) {
    TotalCount(possibleWords, c) > 0 && c !in attemptedLetters
  }

  /** One round of the player's loop. The guess is the highest-ranked
      guessable letter missing from some remaining word, or, when every
      guessable letter is in every word, the highest-ranked guessable letter.
      The server's answer to the guess is the function `answer`. */
  method PlayRound(possibleWords: seq<string>, attemptedLetters: seq<char>, answer: char -> bool)
    returns (outcome: Option<(char, seq<string>, seq<char>)>)
    ensures outcome.Some? ==>
      var (guess, nextWords, nextAttempted) := outcome.value;
      && guess !in attemptedLetters
      && TotalCount(possibleWords, guess) > 0
      && nextAttempted == attemptedLetters + [guess]
      && nextWords == Narrow(possibleWords, guess, answer(guess))
    ensures outcome.None? <==>
      forall c :: TotalCount(possibleWords, c) > 0 ==> c in attemptedLetters
    ensures outcome.Some? && (exists c :: Guessable(possibleWords, attemptedLetters, c) && !InEveryWord(c, possibleWords)) ==>
      var guess := outcome.value.0;
      && !InEveryWord(guess, possibleWords)
      && forall c :: Guessable(possibleWords, attemptedLetters, c) && !InEveryWord(c, possibleWords) && c != guess ==>
           RanksAbove(TotalCount(possibleWords, guess), guess, TotalCount(possibleWords, c), c)
    ensures outcome.Some? && (forall c :: Guessable(possibleWords, attemptedLetters, c) ==> InEveryWord(c, possibleWords)) ==>
      var guess := outcome.value.0;
      forall c :: Guessable(possibleWords, attemptedLetters, c) && c != guess ==>
        RanksAbove(TotalCount(possibleWords, guess), guess, TotalCount(possibleWords, c), c)
  {
    var sortedCharacters := GetSortedCharacters(possibleWords);
    var candidates := Unattempted(sortedCharacters, attemptedLetters);
    var guess := ChooseGuess(candidates, possibleWords);
    if guess.None? {
      return None;
    }
    var c := guess.value;
    UnattemptedKeepsRank(possibleWords, sortedCharacters, attemptedLetters);
    var k :| 0 <= k < |candidates| && candidates[k] == c &&
      (forall j :: 0 <= j < k ==> InEveryWord(candidates[j], possibleWords)) &&
      (!InEveryWord(candidates[k], possibleWords) ||
       (k == 0 && forall j :: 0 <= j < |candidates| ==> InEveryWord(candidates[j], possibleWords)));
    forall x | Guessable(possibleWords, attemptedLetters, x) && x != c &&
               (!InEveryWord(x, possibleWords) || InEveryWord(c, possibleWords))
      ensures RanksAbove(TotalCount(possibleWords, c), c, TotalCount(possibleWords, x), x)
    {
      var m :| 0 <= m < |candidates| && candidates[m] == x;
      assert m != k;
      assert k < m;
    }
    if exists x :: Guessable(possibleWords, attemptedLetters, x) && !InEveryWord(x, possibleWords) {
      var x :| Guessable(possibleWords, attemptedLetters, x) && !InEveryWord(x, possibleWords);
      var m :| 0 <= m < |candidates| && candidates[m] == x;
      assert !InEveryWord(c, possibleWords);
    }
    var guessed := answer(c);
    outcome := Some((c, Narrow(possibleWords, c, guessed), attemptedLetters + [c]));
  }

  /** When the server answers truthfully for a secret among the candidates,
      the secret stays among them. */
  lemma SecretSurvives(possibleWords: seq<string>, guess: char, secret: string)
    requires secret in possibleWords
    ensures secret in Narrow(possibleWords, guess, guess in secret)
  {
  }

  /** On the words "ab" and "ac" the letters `b` and `c` occur once each. */
  lemma TiedOnTwoWords()
    ensures TotalCount(["ab", "ac"], 'b') == 1 && TotalCount(["ab", "ac"], 'c') == 1
  {
    var words := ["ab", "ac"];
    assert words[..1] == ["ab"] && words[..1][..0] == [];
    assert "ab"[..1] == "a" && "ac"[..1] == "a";
  }

  /** On the words "ab" and "ac" with nothing attempted, the letter `a` is in
      every word and `b`, `c` are tied at one occurrence each, so the first
      guess is `c`, the larger of the two. */
  method FirstGuessOnTwoWords(answer: char -> bool) returns (guess: char)
    ensures guess == 'c'
  {
    var words := ["ab", "ac"];
    var outcome := PlayRound(words, [], answer);
    assert 'c' in words[1] && 'c' !in words[0] && 'b' !in words[1];
    assert Guessable(words, [], 'c') && !InEveryWord('c', words);
    TiedOnTwoWords();
    guess := outcome.value.0;
    var w :| w in words && guess in w;
    assert guess in "ab" || guess in "ac";
  }
}
