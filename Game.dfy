/**
 * The game object and the game loop, in the imperative form of the program:
 * a `Hangman` object whose fields the guess evaluator and the input
 * validator update in place, with the reveal mask as an array written
 * position by position.
 *
 * Each operation is specified by the function of module `Rules` that gives
 * its effect on the abstract value `View()`; the properties of those
 * functions are proved in `Rules` and `Invariants`.
 */
module Game {
  import opened Letters
  import opened Rules

  class Hangman {
    /** The secret word, fixed when the game is made. */
    const word: string
    /** The reveal mask: one entry per position of the word. */
    const wordGuessed: array<char>
    var numUniqueLettersRemaining: int
    var numLives: int
    /** Accepted guesses, as typed, in order. */
    var listOfGuesses: seq<string>

    ghost predicate Valid()
      reads this
    {
      wordGuessed.Length == |word|
    }

    /** The abstract value of the game. */
    function View(): State
      reads this, wordGuessed
    {
      State(word, wordGuessed[..], numUniqueLettersRemaining, numLives, listOfGuesses)
    }

    /**
     * A new game on the word at index `choice` of `wordList` (the random
     * pick), starting with `lives` lives.
     */
    constructor (wordList: seq<string>, choice: nat, lives: int)
      requires choice < |wordList|
      ensures Valid() && fresh(wordGuessed)
      ensures View() == Init(wordList, choice, lives)
    {
      word := wordList[choice];
      var mask := new char[|wordList[choice]|](_ => Placeholder);
      assert mask[..] == Blank(mask.Length);
      wordGuessed := mask;
      numUniqueLettersRemaining := |Hidden(wordList[choice], mask[..])|;
      numLives := lives;
      listOfGuesses := [];
    }

    /**
     * Evaluates a guess: on a hit, shows every position whose letter equals
     * the lowered guess and counts one letter found; on a miss, takes a life.
     */
    method CheckGuess(guess: string)
      requires Valid()
      modifies this, wordGuessed
      ensures Valid()
      ensures View() == EvalGuess(old(View()), guess)
    {
      var g := Lower(guess);
      if Occurs(g, word) {
        var i := 0;
        while i < |word|
          invariant 0 <= i <= |word|
          invariant forall k :: 0 <= k < i ==>
            wordGuessed[k] == (if g == [word[k]] then word[k] else old(wordGuessed[k]))
          invariant forall k :: i <= k < |word| ==> wordGuessed[k] == old(wordGuessed[k])
          invariant numUniqueLettersRemaining == old(numUniqueLettersRemaining)
          invariant numLives == old(numLives) && listOfGuesses == old(listOfGuesses)
        {
          if g == [word[i]] {
            wordGuessed[i] := word[i];
          }
          i := i + 1;
        }
        assert wordGuessed[..] == Reveal(word, old(wordGuessed[..]), g);
        numUniqueLettersRemaining := numUniqueLettersRemaining - 1;
      } else {
        numLives := numLives - 1;
      }
    }

    /**
     * The input validator: rejects an input that is not one letter or that
     * was typed before, and otherwise evaluates it and records it.  Returns
     * which of the three branches was taken.
     */
    method AskForInput(guess: string) returns (verdict: Verdict)
      requires Valid()
      modifies this, wordGuessed
      ensures Valid()
      ensures verdict == Classify(old(View()), guess)
      ensures View() == Submit(old(View()), guess)
    {
      if |guess| != 1 || !IsAlpha(guess[0]) {
        verdict := Invalid;
      } else if guess in listOfGuesses {
        verdict := Repeated;
      } else {
        CheckGuess(guess);
        listOfGuesses := listOfGuesses + [guess];
        verdict := Accepted;
      }
    }
  }

  /**
   * The game loop: a new game on the word at index `choice`, played with
   * `inputs` as the letters typed in turn.  Returns how the loop stopped and
   * the final state of the game.
   */
  method PlayGame(wordList: seq<string>, choice: nat, lives: int, inputs: seq<string>)
    returns (phase: Phase, final: State)
    requires choice < |wordList|
    ensures Play(Init(wordList, choice, lives), inputs) == Run(final, phase)
  {
    var game := new Hangman(wordList, choice, lives);
    ghost var start := game.View();
    var k := 0;
    while true
      invariant 0 <= k <= |inputs|
      invariant game.Valid() && fresh(game.wordGuessed)
      invariant Play(game.View(), inputs[k..]) == Play(start, inputs)
      decreases |inputs| - k
    {
      if game.numLives == 0 {
        phase := Lost;
        break;
      } else if game.numUniqueLettersRemaining > 0 {
        if k == |inputs| {
          phase := InProgress;
          break;
        }
        assert inputs[k..][1..] == inputs[k + 1..];
        var _ := game.AskForInput(inputs[k]);
        k := k + 1;
      } else if game.numLives != 0 && game.numUniqueLettersRemaining <= 0 {
        phase := Won;
        break;
      }
    }
    final := game.View();
  }
}
