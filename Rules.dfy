/**
 * The game of Hangman as a pure state machine.
 *
 * `State` is the abstract value of one game object: the secret word, the
 * reveal mask (`word_guessed`), the count of unique letters still to find,
 * the lives left and the list of accepted guesses.  The functions below give
 * the effect of each operation of the game on that value; the class in module
 * `Game` is proved to have exactly these effects.
 */
module Rules {
  import opened Letters

  /** The symbol shown for a position that is not revealed yet. */
  const Placeholder: char := '_'

  datatype State = State(
    word: string,          // the secret word
    mask: seq<char>,       // one entry per position of the word
    remaining: int,        // unique letters not yet guessed
    lives: int,            // lives left; may start at any integer
    guesses: seq<string>)  // accepted guesses, in order, as typed

  /** Which branch the input validator takes. */
  datatype Verdict = Invalid | Repeated | Accepted

  /** The three states of the game loop. */
  datatype Phase = Lost | InProgress | Won

  /** Where a run of the game loop stops: the final state and its phase. */
  datatype Run = Run(state: State, phase: Phase)

  /** The distinct characters of `word` that do not appear in `mask`. */
  function Hidden(word: string, mask: seq<char>): set<char> {
    set c | c in word && c !in mask
  }

  /** The mask of a game that has just started: all placeholders. */
  function Blank(n: nat): seq<char> {
    seq(n, _ => Placeholder)
  }

  /** Against the blank mask, exactly the characters other than the placeholder are hidden. */
  lemma BlankHidden(word: string)
    ensures Hidden(word, Blank(|word|)) == set c | c in word && c != Placeholder
  {
    var mask := Blank(|word|);
    forall c | c in word
      ensures c in mask <==> c == Placeholder
    {
      assert mask[0] == Placeholder;
    }
  }

  /**
   * A new game.  `choice` stands for the random pick of a word; lives are
   * taken as given, whatever their sign.  The game picks a word of the list,
   * shows only placeholders, has accepted nothing, and counts the distinct
   * characters of the word other than the placeholder.
   */
  function Init(wordList: seq<string>, choice: nat, numLives: int): (s: State)
    requires choice < |wordList|
    ensures s.word in wordList
    ensures |s.mask| == |s.word| && forall i :: 0 <= i < |s.mask| ==> s.mask[i] == Placeholder
    ensures s.remaining == |set c | c in s.word && c != Placeholder|
    ensures s.guesses == [] && s.lives == numLives
  {
    var word := wordList[choice];
    BlankHidden(word);
    State(word, Blank(|word|), |Hidden(word, Blank(|word|))|, numLives, [])
  }

  /** `g` stands in `word` starting at position `k`. */
  predicate OccursAt(g: string, word: string, k: int) {
    0 <= k && k + |g| <= |word| && word[k..k + |g|] == g
  }

  /** `g` occurs in `word` as a contiguous piece (string containment). */
  predicate Occurs(g: string, word: string) {
    exists k :: 0 <= k <= |word| && OccursAt(g, word, k)
  }

  /** The mask after showing every position whose letter equals `g`. */
  function Reveal(word: string, mask: seq<char>, g: string): seq<char>
    requires |mask| == |word|
  {
    seq(|word|, i requires 0 <= i < |word| => if g == [word[i]] then word[i] else mask[i])
  }

  /**
   * The guess evaluator.  A hit (the lowered guess occurs in the word) costs
   * one remaining letter and no life; a miss costs one life and changes
   * nothing else.  A mask position changes only to show the word's letter
   * there, and only if that letter is the lowered guess.
   */
  function EvalGuess(s: State, guess: string): (r: State)
    requires |s.mask| == |s.word|
    ensures r.word == s.word && r.guesses == s.guesses && |r.mask| == |s.mask|
    ensures Occurs(Lower(guess), s.word) ==> r.lives == s.lives && r.remaining == s.remaining - 1
    ensures !Occurs(Lower(guess), s.word) ==> r == s.(lives := s.lives - 1)
    ensures forall i :: 0 <= i < |s.mask| && r.mask[i] != s.mask[i] ==>
      r.mask[i] == s.word[i] && Lower(guess) == [s.word[i]]
  {
    var g := Lower(guess);
    if Occurs(g, s.word) then
      s.(mask := Reveal(s.word, s.mask, g), remaining := s.remaining - 1)
    else
      s.(lives := s.lives - 1)
  }

  /**
   * The input validator's decision.  The repeat test compares the input as
   * typed with the accepted guesses as typed, so it is case-sensitive.
   */
  function Classify(s: State, input: string): (v: Verdict)
    ensures v == Invalid <==> |input| != 1 || !IsAlpha(input[0])
    ensures v == Repeated <==> |input| == 1 && IsAlpha(input[0]) && input in s.guesses
    ensures v == Accepted <==> |input| == 1 && IsAlpha(input[0]) && input !in s.guesses
  {
    if |input| != 1 || !IsAlpha(input[0]) then Invalid
    else if input in s.guesses then Repeated
    else Accepted
  }

  /**
   * One call of the input validator.  The state is left exactly as it was if
   * and only if the input is rejected.  An accepted input is recorded once at
   * the end of the list, earlier entries untouched, and costs exactly one of
   * a life or a remaining letter, never both.
   */
  function Submit(s: State, input: string): (r: State)
    requires |s.mask| == |s.word|
    ensures r.word == s.word && |r.mask| == |r.word|
    ensures r == s <==> Classify(s, input) != Accepted
    ensures Classify(s, input) == Accepted ==>
      && r.guesses == s.guesses + [input]
      && ((r.lives == s.lives - 1 && r.remaining == s.remaining && r.mask == s.mask) ||
          (r.lives == s.lives && r.remaining == s.remaining - 1))
  {
    if Classify(s, input) == Accepted then
      var t := EvalGuess(s, input);
      t.(guesses := t.guesses + [input])
    else
      s
  }

  /**
   * The guesses reported as incorrect: the set of accepted guesses minus the
   * set of the word's characters, each a one-character string.  So a guess
   * is reported exactly when it is not a single character of the word; the
   * test uses the guess as typed, not lowered.
   */
  function IncorrectGuesses(s: State): (r: set<string>)
    ensures forall g :: g in r <==> g in s.guesses && !(|g| == 1 && g[0] in s.word)
  {
    var r := (set g | g in s.guesses) - (set c | c in s.word :: [c]);
    forall g | g in s.guesses && |g| == 1 && g[0] in s.word
      ensures g in set c | c in s.word :: [c]
    {
      assert g == [g[0]];
    }
    r
  }

  /**
   * The test at the head of the game loop.  Exactly one phase applies, and
   * lost is checked first, by equality with zero.
   */
  function Step(lives: int, remaining: int): (p: Phase)
    ensures p == Lost <==> lives == 0
    ensures p == InProgress <==> lives != 0 && remaining > 0
    ensures p == Won <==> lives != 0 && remaining <= 0
  {
    if lives == 0 then Lost
    else if remaining > 0 then InProgress
    else Won
  }

  /**
   * The game loop fed with `inputs`, one per round that asks for input.  It
   * stops when the game is lost or won, or in progress once the inputs are
   * used up.
   */
  function Play(s: State, inputs: seq<string>): (r: Run)
    requires |s.mask| == |s.word|
    ensures r.state.word == s.word && |r.state.mask| == |r.state.word|
    ensures |s.guesses| <= |r.state.guesses| && r.state.guesses[..|s.guesses|] == s.guesses
    ensures r.phase == Step(r.state.lives, r.state.remaining)
    ensures r.state.lives <= s.lives
    ensures s.lives >= 0 ==> r.state.lives >= 0
    ensures |r.state.guesses| - |s.guesses| <= |inputs|
    decreases |inputs|
  {
    match Step(s.lives, s.remaining)
    case InProgress =>
      if inputs == [] then Run(s, InProgress)
      else Play(Submit(s, inputs[0]), inputs[1..])
    case p => Run(s, p)
  }

  /** A mask of the right length whose every position is blank or shows the word's letter. */
  predicate MaskShape(word: string, mask: seq<char>) {
    |mask| == |word| &&
    forall i :: 0 <= i < |word| ==> mask[i] == Placeholder || mask[i] == word[i]
  }

  /** A one-letter string occurs in a word exactly when its letter does. */
  lemma OccursSingle(c: char, word: string)
    ensures Occurs([c], word) <==> c in word
  {
    if c in word {
      var k :| 0 <= k < |word| && word[k] == c;
      assert word[k..k + 1] == [c];
      assert OccursAt([c], word, k);
    }
    if Occurs([c], word) {
      var k :| 0 <= k <= |word| && OccursAt([c], word, k);
      assert word[k] == word[k..k + 1][0];
    }
  }

  /**
   * A correct one-letter guess: every position holding the lowered letter
   * now shows it, all other positions are as before, the counter drops by
   * exactly one however many positions matched, and no life is lost.
   */
  lemma CorrectGuess(s: State, guess: string)
    requires |s.mask| == |s.word| && |guess| == 1
    requires LowerChar(guess[0]) in s.word
    ensures var t := EvalGuess(s, guess);
      && |t.mask| == |s.mask|
      && (forall i :: 0 <= i < |s.word| && s.word[i] == LowerChar(guess[0]) ==> t.mask[i] == s.word[i])
      && (forall i :: 0 <= i < |s.word| && s.word[i] != LowerChar(guess[0]) ==> t.mask[i] == s.mask[i])
      && t.remaining == s.remaining - 1
      && t.lives == s.lives
      && t.word == s.word && t.guesses == s.guesses
  {
    assert Lower(guess) == [LowerChar(guess[0])];
    OccursSingle(LowerChar(guess[0]), s.word);
  }

  /** A wrong one-letter guess costs exactly one life and changes nothing else. */
  lemma IncorrectGuess(s: State, guess: string)
    requires |s.mask| == |s.word| && |guess| == 1
    requires LowerChar(guess[0]) !in s.word
    ensures EvalGuess(s, guess) == s.(lives := s.lives - 1)
  {
    assert Lower(guess) == [LowerChar(guess[0])];
    OccursSingle(LowerChar(guess[0]), s.word);
  }

  /** An accepted input whose lowered form stands in the word at `k`, in one step. */
  lemma AcceptedHit(s: State, x: string, k: nat)
    requires |s.mask| == |s.word| && Classify(s, x) == Accepted
    requires OccursAt(Lower(x), s.word, k)
    ensures Submit(s, x) == s.(mask := Reveal(s.word, s.mask, Lower(x)),
                               remaining := s.remaining - 1, guesses := s.guesses + [x])
  {
  }

  /**
   * Every operation keeps the mask the length of the word with each
   * position blank or showing the word's letter, and never hides a
   * position again once it is shown.
   */
  lemma SubmitKeepsMaskShape(s: State, input: string)
    requires MaskShape(s.word, s.mask)
    ensures var t := Submit(s, input);
      && t.word == s.word
      && MaskShape(t.word, t.mask)
      && forall i :: 0 <= i < |s.mask| && s.mask[i] != Placeholder ==> t.mask[i] == s.mask[i]
  {
  }

  /** Losing needs lives to hit zero exactly: a game started with negative lives is never lost. */
  lemma NegativeLivesNeverLose(s: State, inputs: seq<string>)
    requires |s.mask| == |s.word| && s.lives < 0
    ensures Play(s, inputs).phase != Lost
  {
  }
}
