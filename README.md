# Hangman game core, modelled in Dafny

This project models the core of a single-player Hangman game and proves
properties of the model. The game core (`Game.Core`) holds one game:
- the player's name;
- the index of the secret word in a fixed six-word list;
- the revealed pattern (one slot per letter, `_` until guessed);
- the attempts left, the active flag, the won flag and the score.

Each guess scans the secret word and reveals every matching letter. A miss
costs one attempt. When the game ends, by a full reveal or by running out of
attempts, the score is computed once and one `(name, score)` record is
appended to the score table. Besides the core, the project models two pieces
the front ends and the automated player rely on:
- the front ends' input validator (`Interface.Base`): a length check, then a
  per-character check, with error text accumulated in a field;
- the automated player's strategy (`Bot`): letter frequencies over the
  still-possible words, the choice of the next guess, the required-keys check
  on server answers, and the narrowing of the candidate words by the
  server's answer.

Files:
- `common.dfy` (module `Common`): `Option`, `Result`, and an occurrence count
  with monotonicity lemmas.
- `game.dfy` (module `Game`): `Game.py`.
- `interface.dfy` (module `Interface`): `Interface.py`, class `Base`.
- `bot.dfy` (module `Bot`): `Bot.py`, the solver helpers.

Modelling choices:
- **Unset fields.** The fields the source sets to `None` are `Option` values.
  `Core.Valid()` has two phases: idle (everything unset, inactive, not won) and
  started. In the started phase, the pattern is consistent with the word. The
  won flag holds exactly when no `_` is left. The active flag holds exactly
  when attempts remain and the game is not won. An active game's score is 0.
  A finished game's score is the formula below.
- **Word choice.** The random pick of the word index becomes a nondeterministic
  choice (`:|`) of an index below `|WORDS|`.
- **Score table.** The CSV score file is the field `scores`, a sequence that is
  only appended to. A write failure is the input `storeWritable == false`. The
  game state has then already changed, and the method returns
  `Failure(ScoreDataProblem)` instead of the hit/miss flag.
- **Score arithmetic.** The score is `attemptsLeft/5*50 + (len-unguessed)/len*50`
  on exact reals.
- **Guesses.** A guess is a string. A letter matches only a one-character string
  equal to it, as in the source's string comparison.
- **Read-only properties.** The source's getters are the public fields of
  `Core`.

## Model

| member | source | states |
|---|---|---|
| `Game.Core.constructor` | Game.py:32-34 | a new core holds no game (every game field unset, inactive, not won) over the given score table |
| `Game.Core.ResetVariables` | Game.py:36-43 | afterwards the name, word index, pattern, attempts and score are unset, active and won are false; the score table is unchanged |
| `Game.Core.End` | Game.py:55-56 | ending resets the game to the idle state and writes no score record |
| `Game.Core.Start` | Game.py:45-53 | the name is stored; the word index lies in [0, 5]; attempts are 5; the pattern is all `_` with the chosen word's length; active, not won, score 0; the score table is unchanged, so an abandoned game writes nothing |
| `Game.Core.CheckCurrentGuess` | Game.py:112-119 | returns true iff some letter of the word equals the guess; the new pattern is the scan of the old one; every other field is unchanged |
| `Game.Core.HandleNewCharacter` | Game.py:58-79 | keeps the invariant. A miss lowers attempts by exactly 1, sets active iff attempts stay positive and leaves the game unwon. A hit keeps attempts and sets active iff a `_` remains, won otherwise. While active, score 0 and nothing is stored. On ending, the score is the formula and exactly one (name, score) record is appended, or the write failure is reported with the state change kept |
| `Game.Core.WonImpliesInactive` | Game.py:63-66 | in every valid state a won game is not active |
| `Game.Core.FinishedScoreInRange` | Game.py:67-70 | a finished game's score lies in [0, 100] |
| `Game.Occurs` | Game.py:114-115 | some letter of the word equals the guess iff the guess is one character long and that character is in the word |
| `Game.Reveal` | Game.py:114-117 | the scanned pattern has the word's length; on a consistent pattern it stays consistent, holds the letter at every matching position and is unchanged at every other slot |
| `Game.Score` | Game.py:70 | with attempts in [0, 5] and at most `len` hidden slots the score lies in [0, 100]; a fully revealed word scores 10 per attempt left plus 50 |
| `Game.RevealIdempotent` | Game.py:116-117 | scanning the same guess twice equals scanning it once |
| `Game.RevealAlreadyGuessed` | Game.py:116-118 | a guess whose positions are all revealed leaves the pattern unchanged |
| `Game.RevealMiss` | Game.py:114-118 | a guess that matches no letter leaves the pattern unchanged |
| `Game.RevealProgress` | Game.py:116-117 | a guess that matches a hidden letter strictly lowers the number of `_` slots |
| `Game.WordsHaveNoPlaceholder` | Game.py:33 | every word of the fixed list is non-empty and has no `_` letter |
| `Game.ScoreOfNothingRevealed` | Game.py:70 | no attempts left and nothing revealed scores 0 |
| `Game.FiveMisses` | Game.py:58-79 | five misses from a fresh start end the game: it is inactive, not won and has 0 attempts left, the score is 0, and the table gains exactly the record (name, 0) |
| `Game.OccurrencesAllEqual` | Game.py:68 | a pattern of `_` only counts all its slots as unguessed |
| `Common.Occurrences` | Game.py:68 | the count of a value is at most the length, and zero iff the value is absent |
| `Common.OccurrencesMonotone` | Game.py:116-117 | a pattern that hides no slot the old one showed has no more `_` slots |
| `Common.OccurrencesStrictlyMonotone` | Game.py:116-117 | revealing at least one hidden slot strictly lowers the `_` count |
| `Interface.PermittedChar` | Interface.py:21 | a letter or digit is always permitted; a whitespace character is permitted iff whitespace is allowed |
| `Interface.AllPermitted` | Interface.py:21 | the input passes the character check iff every one of its characters is permitted |
| `Interface.Validation` | Interface.py:17-24 | the verdict is Accepted iff the length condition holds and every character is permitted; WrongLength iff the length condition fails, so the character check only matters after it |
| `Interface.Base.constructor` | Interface.py:13-14 | the error text starts empty |
| `Interface.Base.ValidateInput` | Interface.py:17-24 | returns true iff the length condition holds and every character is permitted. A failed length check appends exactly the length message. A failed character check appends exactly the character message. On success the error text is unchanged. Whitespace is refused unless the caller passes `true` for `allowWhitespaces` |
| `Interface.Base.ClearErrorMessage` | Interface.py:26-27 | the error text becomes empty |
| `Interface.WhitespaceRejected` | Interface.py:21 | with whitespace disallowed, an input holding a whitespace character is never accepted |
| `Interface.WhitespaceFlagIrrelevant` | Interface.py:21 | for an input without whitespace the flag does not change the verdict |
| `Interface.EmptyNameRejected` | Interface.py:103-104 | under the name rule `x > 0` an empty name fails with the length verdict |
| `Interface.SingleCharacterGuessAccepted` | Interface.py:106-108 | under the guess rule `x == 1` a single letter or digit is accepted |
| `Interface.TwoFailuresAccumulate` | Interface.py:17-27 | two failed validations leave both messages concatenated in order; clearing empties the text |
| `Bot.TotalCount` | Bot.py:122-128 | a character's total count over the words, repeats included, is positive iff some word holds it |
| `Bot.InsertByRank` | Bot.py:129 | inserting a new character into a rank-sorted list gives a rank-sorted list with one more element holding exactly the old ones and the new one |
| `Bot.CharacterFrequencies` | Bot.py:122-128 | the table maps each character to its total count over all words, repeats within a word included, and holds only characters with a positive count |
| `Bot.RankCharacters` | Bot.py:129 | the result lists exactly the table's keys, strictly descending by (count, character) |
| `Bot.GetSortedCharacters` | Bot.py:121-129 | the result holds exactly the characters that occur in some word. It is ordered by total count, non-increasing, and by descending character among equal counts. An empty word list gives an empty result |
| `Bot.SortedCharactersDistinct` | Bot.py:129 | a list ordered this way holds each character once |
| `Bot.CheckData` | Bot.py:47-48 | true iff every required field is a key of the dictionary; an empty requirement list gives true |
| `Bot.Unattempted` | Bot.py:144 | the result holds exactly the sorted characters not yet attempted |
| `Bot.UnattemptedConcat` | Bot.py:144 | dropping attempted letters distributes over concatenation, so the ranked order is kept |
| `Bot.UnattemptedKeepsRank` | Bot.py:144 | dropping attempted letters from a list ranked by (count, character) leaves a list ranked the same way |
| `Bot.InEveryWord` | Bot.py:149 | the character is in every remaining word iff each word holds it; true of an empty word list |
| `Bot.ChooseGuess` | Bot.py:147-153 | the guess is a candidate. It is the first candidate missing from some word, or the first candidate when every candidate is in every word; every candidate before it is in every word. An empty candidate list gives no guess (the index error at Bot.py:153) |
| `Bot.Narrow` | Bot.py:157-160 | the result holds exactly the words that contain the guess after a hit, or that lack it after a miss |
| `Bot.NarrowConcat` | Bot.py:157-160 | narrowing distributes over concatenation, so the original order is kept |
| `Bot.NarrowPartition` | Bot.py:157-160 | the hit list and the miss list together are as long as the word list |
| `Bot.NarrowShrinks` | Bot.py:149-160 | a guess held by some but not all words shortens the list whatever the answer |
| `Bot.PlayRound` | Bot.py:143-160 | a round's guess was never attempted and occurs in some word. When some such letter is missing from a remaining word, the guess is one of those and ranks above every other one by (count, character); otherwise it ranks above every other unattempted letter. It is appended to the attempted letters, and the words are narrowed by the server's answer. No guess is possible only when every occurring character was attempted |
| `Bot.FirstGuessOnTwoWords` | Bot.py:143-153 | on the words "ab" and "ac" with nothing attempted, the first guess is `c` |
| `Bot.SecretSurvives` | Bot.py:156-160 | with truthful answers, the secret word stays among the candidates |

## Left out

- Game.py score file details: the timestamp index, the CSV header logic and the pandas formatting (Game.py:71-76). The store keeps (name, score) records only.
- Game.py `getScores` (Game.py:105-110): reading the score file back, and the error raised when it cannot be read. The model only appends to the table.
- Game.py logging (Game.py:16-27): the module logger and the log line written when the score error is raised.
- Game.Core.Start: takes a name string. The source's default `userName=None` is not modelled, because both front ends always pass a validated name.
- Game.Core.Start: the never-used set `__attemptedWrongLetters` (Game.py:48) is not modelled.
- Game.Core.HandleNewCharacter: requires an active game. Game.py:58-78 has no guard; both callers check the active flag first (Api.py:190, Interface.py:107). Calls on a finished game are not modelled, and without the callers' guard the source does not keep "won implies inactive". On a lost game (no attempts left), a miss or a hit that completes the word appends another record, and after a miss the attempts fall below zero, so the stored score can be negative. A hit on a lost game that leaves letters hidden makes the game active again with no attempts left (Game.py:64) and appends nothing. On a won game (at least one attempt left), a hit appends a duplicate of the winning record (Game.py:64-78). A miss on a won game with two or more attempts left makes the game active again while it stays won (Game.py:61-62), and appends nothing. A miss on a won game with one attempt left ends it at zero attempts and appends a record scoring 50 (Game.py:70).
- Game.Score: exact reals; floating-point rounding of the score is not modelled.
- Interface.PermittedChar: letters, decimal digits and whitespace are the ASCII ones. Non-ASCII characters that Python's `isalpha`, `isdecimal` and `isspace` accept (such as `é`) are refused.
- Interface.AllPermitted: built on `PermittedChar`, so an input holding a non-ASCII letter, digit or whitespace character that Python accepts (such as "é") is refused.
- Interface.Validation: uses the same ASCII-only letters, digits and whitespace as `ValidateInput`. Non-ASCII characters that Python's Unicode classes accept are refused.
- Interface.Base.ValidateInput: letters, decimal digits and whitespace are the ASCII ones. Python's Unicode classes for non-ASCII characters are not modelled.
- Interface.py `Base` also creates a game core (Interface.py:15); that field and the terminal front end `InTerminal` (menus, prompts, screen clearing, display padding) are not modelled.
- Api.py (HTTP routing, JSON shaping, error-to-status mapping) and Execute.py (the launcher) are not modelled.
- Bot.py network calls (`getState`, `startGame`, `makeAGuess`, `endGame`), `checkForJson`, the exception classes and all printing are not modelled. The server's answer to a guess is the function parameter `answer` of `Bot.PlayRound`.
- Bot.PlayRound: models one round of the player's loop. The loop itself, which repeats while the server reports an active game, is not modelled.
- Bot.GetSortedCharacters: Python's `sorted` is a library sort. Here it is an insertion into a rank-ordered list. The keys are distinct, so the result is the same list.
