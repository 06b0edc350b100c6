# Hangman, modelled in Dafny

A model of a command-line game of Hangman (`Hangman.py`). A `Hangman` object
holds the secret word, a reveal mask with one entry per position (`'_'` until
the position is shown), the number of unique letters still to find, the lives
left and the list of accepted guesses. The guess evaluator (`check_guess`)
lowers the guess; a hit shows every matching position and takes one off the
letter counter, a miss takes one life. The input validator (`ask_for_input`)
rejects an input that is not a single letter or that was typed before, and
otherwise evaluates it and appends it to the list. The game loop (`play_game`)
checks, in order: zero lives is a loss, letters still to find means another
round of input, anything else is a win.

The project has five modules:

- `Letters` (`Letters.dfy`): ASCII versions of `str.isalpha` and `str.lower`.
  The letter test and the lowering of each capital are checked against the two
  alphabets written out letter by letter.
- `Rules` (`Rules.dfy`): the game as a pure state machine on a `State`
  value: `Init`, `EvalGuess` (check_guess), `Classify` and `Submit`
  (ask_for_input), `Step` (the test at the head of the loop), `Play` (the loop
  fed with a sequence of inputs), the derived `IncorrectGuesses` view, and the
  one-step properties.
- `Invariants` (`Invariants.dfy`): the mask invariant (a position is shown
  exactly when some accepted guess lowers to its letter), the counter
  invariant (the counter equals the number of distinct characters of the word
  the mask does not show), their preservation over single steps and whole
  runs, and the case-sensitivity quirks of the program, in general and on
  concrete games.
- `Game` (`Game.dfy`): the imperative form. Class `Game.Hangman` has the
  program's fields, with the mask as an `array<char>` updated in place by the
  position-by-position loop of `CheckGuess`. Each method is proved to have
  exactly the effect of the corresponding `Rules` function on the object's
  abstract value `View()`. `PlayGame` runs the `while True` loop over a fresh
  object and is proved to end where `Rules.Play` says.
- `Scenarios` (`Scenarios.dfy`): three short games worked out on the model.

Two behaviours of the code are kept as written, not corrected:

- The repeat test (line 57) and the recorded guess (line 61) use the input as
  typed; only the evaluator lowers it (line 33). So `A` after `a` is accepted,
  reveals nothing new and still takes one off the counter. The counter
  invariant is therefore proved for every run that ends with no two accepted
  guesses differing only in case; rejected inputs may differ only in case
  (`Invariants.PlayKeepsCounter`). `Invariants.CaseQuirk` shows a game on `ab`
  won after `a`, `A` with `b` still hidden. The incorrect-guess
  report (line 62) also uses the raw input, so a correct upper-case guess is
  reported as incorrect (`Invariants.UpperCaseHitReportedIncorrect`).
- A loss is detected only when lives equal zero (line 88). A game started with
  negative lives is never lost (`Rules.NegativeLivesNeverLose`), and the win
  test treats any non-zero lives as alive.

The comment at line 21 calls the counter the number of unique letters "that
have not been guessed yet", but line 40 takes one off on every hit, also on a
letter already shown through a guess in the other case; the model follows the
code. Further behaviours kept as written: the accepted guesses are a list in
input order (line 61); the lives count may be any integer, and zero or less is
not rejected (line 77). A word with a character that is neither a lower-case
letter nor `_` (an upper-case letter, a carriage return) counts that character
as hidden (line 21), but in the model, which knows only ASCII letters, only
lower-case letters are ever shown (lines 33-39; see the Unicode line under
"Left out").
Such a word is never fully shown (`Invariants.NotLowerNeverShown`), and it can
be won only by accepting two guesses that differ only in case
(`Invariants.NotLowerWonOnlyByCaseRepeat`), as `b` and then `B` win on `Ab`
with `A` still hidden (`Invariants.MixedCaseWordWon`).

## Model

| member | source | states |
|---|---|---|
| `Letters.IsAlphaAlphabet` | Hangman.py:55 | a character passes the letter test exactly when it is one of the 26 lower-case or 26 upper-case letters written out |
| `Letters.LowerChar` | Hangman.py:33 | lowering maps exactly the letters to lower-case letters, sends each capital to the lower-case letter at the same place in the alphabet, and leaves lower-case letters and non-letters unchanged |
| `Letters.LowerAlphabetMatch` | Hangman.py:33 | the k-th capital of the written-out alphabet lowers to the k-th lower-case letter |
| `Letters.Lower` | Hangman.py:33 | lowering a string keeps its length, turns exactly its letters into lower-case letters, sends each capital to the lower-case letter at the same place in the alphabet, and keeps every character that is not a capital |
| `Rules.OccursSingle` | Hangman.py:34 | a one-letter guess is contained in the word exactly when its letter occurs in the word |
| `Rules.BlankHidden` | Hangman.py:20-21 | against an all-`_` mask, the hidden characters of a word are exactly its distinct characters other than `_` |
| `Rules.Init` | Hangman.py:19-24 | a new game's word is a member of the list, its mask is all placeholders of the word's length, its counter is the number of distinct characters of the word other than the placeholder, no guess is recorded and lives are the argument |
| `Rules.EvalGuess` | Hangman.py:26-46 | word and guesses are kept; a guess whose lowered form occurs in the word costs one counted letter and no life, any other guess costs one life and changes nothing else; a mask position changes only to show the word's letter there when it equals the lowered guess |
| `Rules.CorrectGuess` | Hangman.py:33-40 | a hit shows every position holding the lowered letter, leaves every other position, drops the counter by exactly one however many positions matched, and does not touch lives |
| `Rules.IncorrectGuess` | Hangman.py:41-42 | a miss drops lives by exactly one and leaves mask, counter, word and guesses unchanged |
| `Rules.Classify` | Hangman.py:55-57 | the verdict is invalid exactly when the input is not one character or not a letter, repeated exactly when it is a letter already in the list as typed, and accepted exactly otherwise |
| `Rules.Submit` | Hangman.py:55-61 | the validator keeps the word and mask length, leaves the state unchanged if and only if the input is rejected, and an accepted input is appended once with earlier entries untouched while exactly one of lives or counter drops by one |
| `Rules.AcceptedHit` | Hangman.py:33-40 | an accepted input whose lowered form stands in the word shows the matching positions, takes one off the counter and is appended to the list |
| `Rules.IncorrectGuesses` | Hangman.py:62 | the set difference of the guess list and the word's characters holds exactly the guesses that are not a single character of the word, compared as typed |
| `Rules.SubmitKeepsMaskShape` | Hangman.py:37-39 | every validator call keeps the mask the word's length with each position blank or showing the word's letter, and never blanks a shown position |
| `Rules.Step` | Hangman.py:87-97 | exactly one of lost (lives zero), in progress (lives non-zero, letters left) and won (lives non-zero, no letters left) applies |
| `Rules.Play` | Hangman.py:87-97 | a run keeps the word and the mask length, only appends guesses, stops in the phase the loop test gives, never raises lives, never takes non-negative lives below zero, and records at most one guess per input |
| `Rules.NegativeLivesNeverLose` | Hangman.py:88 | a game started with negative lives is never reported lost |
| `Invariants.HiddenAfterReveal` | Hangman.py:37-40 | showing a hidden letter removes exactly that letter from the set of hidden distinct characters, so their number drops by one, matching the counter's decrement |
| `Invariants.InitConsistent` | Hangman.py:20-21 | a new game satisfies the mask invariant and the counter invariant |
| `Invariants.SubmitKeepsMask` | Hangman.py:49-61 | every validator call keeps the mask equal to "shown exactly where an accepted guess lowers to the letter" |
| `Invariants.SubmitKeepsCounter` | Hangman.py:40-42 | a validator call keeps the counter equal to the number of hidden distinct characters when the accepted input is not an earlier guess in another case |
| `Invariants.PlayKeepsMask` | Hangman.py:87-97 | every run of the loop keeps the mask invariant |
| `Invariants.PlayKeepsCounter` | Hangman.py:87-97 | every run of the loop that ends with no two accepted guesses differing only in case keeps the counter invariant, whatever the rejected inputs are |
| `Invariants.NoneHiddenIffRevealed` | Hangman.py:20-21 | under the mask invariant, no character is hidden exactly when the mask equals the word |
| `Invariants.PlayWinsIffRevealed` | Hangman.py:87-97 | when no two accepted guesses of the run differ only in case, the loop reports a win exactly when it stops with non-zero lives and the word fully shown, and a loss exactly when lives are zero |
| `Invariants.CaseQuirk` | Hangman.py:57-61 | on the word `ab`, inputs `a` then `A` are both accepted and the game is won with the mask `a_`, breaking the counter invariant |
| `Invariants.IncorrectGuessesAreMisses` | Hangman.py:62 | with lower-case guesses, a guess is reported incorrect exactly when its letter is not shown |
| `Invariants.UpperCaseHitReportedIncorrect` | Hangman.py:62 | on the word `a`, the input `A` finds the letter yet is reported as incorrect |
| `Invariants.PlayRecordsLetters` | Hangman.py:55-61 | every run of the loop records only single letters in the guess list |
| `Invariants.NotLowerNeverShown` | Hangman.py:33-39 | a character of the word that is neither a lower-case letter nor `_` stays `_` in the mask for the whole run, so the mask never equals the word |
| `Invariants.NotLowerWonOnlyByCaseRepeat` | Hangman.py:87-97 | a run on such a word that ends in a win has accepted two guesses differing only in case |
| `Invariants.MixedCaseWordWon` | Hangman.py:57-61 | on `Ab` with five lives, `b` and then `B` win the game with `A` still hidden |
| `Game.Hangman.constructor` | Hangman.py:11-24 | the new object's abstract value is `Rules.Init` of the list, the chosen index and the lives, with a fresh mask array |
| `Game.Hangman.CheckGuess` | Hangman.py:26-46 | the in-place reveal loop and counter updates give exactly `Rules.EvalGuess` of the old value |
| `Game.Hangman.AskForInput` | Hangman.py:49-65 | the verdict is `Rules.Classify` of the old value and the new value is `Rules.Submit` of it |
| `Game.PlayGame` | Hangman.py:85-97 | the loop over a new game stops in the phase and final state that `Rules.Play` gives for the initial state and the inputs |
| `Scenarios.AppleHitThenMiss` | Hangman.py:33-42 | on `apple` with three lives, `a` shows `a____` and drops the counter from 4 to 3, then `z` leaves two lives |
| `Scenarios.CatLost` | Hangman.py:87-90 | on `cat` with one life, a miss leaves zero lives and the loop reports a loss |
| `Scenarios.DogWon` | Hangman.py:91-97 | on `dog` with five lives, `d`, `o`, `g` show the word, zero the counter and win with five lives |

## Left out

- Printing, the messages and `time.sleep` (lines 35-36, 43-46, 56, 58, 63-65, 89, 92-93, 96): output only, no effect on the state.
- `input()` (lines 54, 77): the typed guess is a parameter of `AskForInput`, and the letters typed over a game are a sequence given to `PlayGame`; when that sequence runs out while the game is in progress, the model stops in phase `InProgress`, where the program would wait for more input.
- The retry loop that reads the number of lives (lines 75-82): parsing and re-prompting only; its result is the integer `lives` passed in.
- `random.choice` (line 19): the pick is an index `choice` supplied by the caller, which must lie in the list; this also excludes the empty list, on which the program would raise an exception, and which `main` never passes.
- `main`'s reading of the word file and its error handling (lines 104-113): file input/output.
- The list of five fruit names assigned to `self.word_list` (line 23): nothing reads it.
- The list of incorrect guesses (line 62) is a derived function, `Rules.IncorrectGuesses`, not a stored field, since it only feeds a message.
- The Unicode meaning of `str.isalpha` and `str.lower`: `Letters` treats only ASCII letters as letters, and lowering maps one character to one character. In the program a letter without case, such as `中`, passes the test at line 55, lowers to itself and can be shown; the model has no such letters.
