/**
 * Invariants of the game state and what follows from them over whole runs
 * of the game loop.
 *
 * The mask is always determined by the accepted guesses: a position is shown
 * exactly when some accepted guess lowers to its letter.  The unique-letter
 * counter matches the number of distinct characters still hidden as long as
 * no two accepted guesses differ only in case; the repeat test of the
 * validator is case-sensitive, and `CaseQuirk` shows the counter drifting
 * when such a pair is accepted.
 */
module Invariants {
  import opened Letters
  import opened Rules

  /** Some accepted guess lowers to the one-letter string of `c`. */
  ghost predicate Revealed(gs: seq<string>, c: char) {
    exists g :: g in gs && Lower(g) == [c]
  }

  /** Each position is shown exactly when its letter has been guessed, in either case. */
  ghost predicate MaskMatchesGuesses(s: State) {
    |s.mask| == |s.word| &&
    forall i :: 0 <= i < |s.word| ==>
      s.mask[i] == (if Revealed(s.guesses, s.word[i]) then s.word[i] else Placeholder)
  }

  /** The mask invariant together with the counter invariant. */
  ghost predicate Consistent(s: State) {
    MaskMatchesGuesses(s) && s.remaining == |Hidden(s.word, s.mask)|
  }

  /** `x` does not lower to the same string as any accepted guess. */
  ghost predicate CaseFresh(gs: seq<string>, x: string) {
    forall g :: g in gs ==> Lower(g) != Lower(x)
  }

  /** No two strings of `xs` differ only in case. */
  ghost predicate CaseConsistent(xs: seq<string>) {
    forall a, b :: a in xs && b in xs && Lower(a) == Lower(b) ==> a == b
  }

  /**
   * Revealing a hidden letter other than the placeholder removes exactly
   * that letter from the hidden set, so the hidden count drops by one.
   */
  lemma HiddenAfterReveal(word: string, mask: seq<char>, c: char)
    requires MaskShape(word, mask)
    requires c != Placeholder && c in word && c !in mask
    ensures Hidden(word, Reveal(word, mask, [c])) == Hidden(word, mask) - {c}
    ensures |Hidden(word, Reveal(word, mask, [c]))| == |Hidden(word, mask)| - 1
  {
    var shown := Reveal(word, mask, [c]);
    forall d | d in word
      ensures d in shown <==> d in mask || d == c
    {
      if d in shown {
        var i :| 0 <= i < |shown| && shown[i] == d;
        if word[i] != c {
          assert mask[i] == d;
        }
      }
      if d == c {
        var i :| 0 <= i < |word| && word[i] == c;
        assert shown[i] == c;
      } else if d in mask {
        var i :| 0 <= i < |mask| && mask[i] == d;
        if word[i] == c {
          // mask[i] is the placeholder, and so is the word's letter wherever d stands
          var j :| 0 <= j < |word| && word[j] == d;
          assert shown[j] == d;
        } else {
          assert shown[i] == d;
        }
      }
    }
    assert c in Hidden(word, mask);
    assert Hidden(word, shown) == Hidden(word, mask) - {c};
  }

  /** A new game satisfies both invariants. */
  lemma InitConsistent(wordList: seq<string>, choice: nat, numLives: int)
    requires choice < |wordList|
    ensures Consistent(Init(wordList, choice, numLives))
  {
  }

  /** One call of the validator keeps the mask invariant, whatever the input. */
  lemma SubmitKeepsMask(s: State, x: string)
    requires MaskMatchesGuesses(s)
    ensures MaskMatchesGuesses(Submit(s, x))
  {
    if Classify(s, x) == Accepted {
      var t := Submit(s, x);
      var g := Lower(x);
      forall i | 0 <= i < |s.word|
        ensures t.mask[i] == (if Revealed(t.guesses, s.word[i]) then s.word[i] else Placeholder)
      {
        var c := s.word[i];
        if Revealed(t.guesses, c) {
          var h :| h in t.guesses && Lower(h) == [c];
          if h != x {
            assert h in s.guesses;
          }
        }
        if Revealed(s.guesses, c) {
          var h :| h in s.guesses && Lower(h) == [c];
          assert h in t.guesses;
        }
        if g == [c] {
          assert x in t.guesses;
          assert s.word[i..i + 1] == [c];
          assert OccursAt(g, s.word, i);
        }
      }
    }
  }

  /**
   * One call of the validator keeps the counter invariant, provided the
   * input, if accepted, is not an earlier guess in another case.
   */
  lemma SubmitKeepsCounter(s: State, x: string)
    requires Consistent(s)
    requires Classify(s, x) == Accepted ==> CaseFresh(s.guesses, x)
    ensures Consistent(Submit(s, x))
  {
    SubmitKeepsMask(s, x);
    if Classify(s, x) == Accepted {
      var c := LowerChar(x[0]);
      assert Lower(x) == [c];
      OccursSingle(c, s.word);
      if c in s.word {
        assert c !in s.mask;
        HiddenAfterReveal(s.word, s.mask, c);
      }
    }
  }

  /** Every run of the game loop keeps the mask invariant. */
  lemma {:induction false} PlayKeepsMask(s: State, inputs: seq<string>)
    requires MaskMatchesGuesses(s)
    ensures MaskMatchesGuesses(Play(s, inputs).state)
    decreases |inputs|
  {
    if Step(s.lives, s.remaining) == InProgress && inputs != [] {
      SubmitKeepsMask(s, inputs[0]);
      PlayKeepsMask(Submit(s, inputs[0]), inputs[1..]);
    }
  }

  /**
   * Every run of the game loop that ends with no two accepted guesses
   * differing only in case keeps the counter invariant.  Rejected inputs
   * are free to differ only in case.
   */
  lemma {:induction false} PlayKeepsCounter(s: State, inputs: seq<string>)
    requires Consistent(s)
    ensures CaseConsistent(Play(s, inputs).state.guesses) ==> Consistent(Play(s, inputs).state)
    decreases |inputs|
  {
    if Step(s.lives, s.remaining) == InProgress && inputs != [] {
      var x := inputs[0];
      var t := Submit(s, x);
      var fin := Play(t, inputs[1..]).state.guesses;
      assert Play(s, inputs).state.guesses == fin;
      if CaseConsistent(fin) {
        // the guesses after this step are a prefix of the final ones
        assert fin[..|t.guesses|] == t.guesses;
        forall g | g in t.guesses
          ensures g in fin
        {
          var k :| 0 <= k < |t.guesses| && t.guesses[k] == g;
          assert fin[k] == g;
        }
        if Classify(s, x) == Accepted {
          assert x in t.guesses;
          forall g | g in s.guesses
            ensures Lower(g) != Lower(x)
          {
            assert g in t.guesses;
          }
        }
        SubmitKeepsCounter(s, x);
        PlayKeepsCounter(t, inputs[1..]);
      }
    }
  }

  /**
   * Under the mask invariant, no character is hidden exactly when the mask
   * spells out the whole word.
   */
  lemma NoneHiddenIffRevealed(s: State)
    requires MaskMatchesGuesses(s)
    ensures Hidden(s.word, s.mask) == {} <==> s.mask == s.word
  {
    if Hidden(s.word, s.mask) == {} {
      forall i | 0 <= i < |s.word|
        ensures s.mask[i] == s.word[i]
      {
        var c := s.word[i];
        if c != Placeholder {
          assert c !in Hidden(s.word, s.mask);
          var j :| 0 <= j < |s.mask| && s.mask[j] == c;
          assert Revealed(s.guesses, s.word[j]);
        }
      }
    } else {
      var c :| c in Hidden(s.word, s.mask);
    }
  }

  /**
   * When no two accepted guesses of a run differ only in case, the loop
   * reports a win exactly when it stops with lives left and the whole word
   * shown, and a loss exactly when lives are zero.
   */
  lemma PlayWinsIffRevealed(s: State, inputs: seq<string>)
    requires Consistent(s)
    ensures var r := Play(s, inputs);
      CaseConsistent(r.state.guesses) ==>
        && (r.phase == Won <==> r.state.lives != 0 && r.state.mask == r.state.word)
        && (r.phase == Lost <==> r.state.lives == 0)
  {
    var r := Play(s, inputs);
    if CaseConsistent(r.state.guesses) {
      PlayKeepsCounter(s, inputs);
      NoneHiddenIffRevealed(r.state);
    }
  }

  /** A game on a word of two different characters, neither the placeholder, has both to find. */
  lemma TwoCharStart(a: char, b: char, numLives: int)
    requires a != b && a != Placeholder && b != Placeholder
    ensures Init([[a, b]], 0, numLives) == State([a, b], "__", 2, numLives, [])
  {
    assert Blank(2) == "__";
    assert Hidden([a, b], "__") == {a, b};
  }

  /** The first move of `CaseQuirk`: "a" is an accepted hit. */
  lemma CaseQuirkFirst()
    ensures Submit(State("ab", "__", 2, 5, []), "a") == State("ab", "a_", 1, 5, ["a"])
  {
    assert Lower("a") == "a";
    AcceptedHit(State("ab", "__", 2, 5, []), "a", 0);
    assert Reveal("ab", "__", "a") == "a_";
  }

  /** The second move of `CaseQuirk`: "A" is accepted again and counted again. */
  lemma CaseQuirkSecond()
    ensures Submit(State("ab", "a_", 1, 5, ["a"]), "A") == State("ab", "a_", 0, 5, ["a", "A"])
  {
    assert Lower("A") == "a";
    AcceptedHit(State("ab", "a_", 1, 5, ["a"]), "A", 0);
    assert Reveal("ab", "a_", "a") == "a_";
  }

  /** The end of the game in `CaseQuirk`: 'b' is hidden but the counter says none is. */
  lemma CaseQuirkEnd()
    ensures Hidden("ab", "a_") == {'b'}
    ensures !Consistent(State("ab", "a_", 0, 5, ["a", "A"]))
  {
    assert 'a' in "a_";
  }

  /**
   * The counter invariant does need case-consistent guesses: on the word
   * "ab", the input "a" and then "A" are both accepted, the counter reaches
   * zero and the game is won while 'b' is still hidden.
   */
  lemma CaseQuirk()
    ensures var r := Play(Init(["ab"], 0, 5), ["a", "A"]);
      && r == Run(State("ab", "a_", 0, 5, ["a", "A"]), Won)
      && r.state.mask != r.state.word
      && !Consistent(r.state)
  {
    var s0 := State("ab", "__", 2, 5, []);
    var s1 := State("ab", "a_", 1, 5, ["a"]);
    var s2 := State("ab", "a_", 0, 5, ["a", "A"]);
    assert Play(s2, []) == Run(s2, Won);
    assert Play(s1, ["A"]) == Play(s2, []) by {
      CaseQuirkSecond();
      assert ["A"][1..] == [];
    }
    assert Play(Init(["ab"], 0, 5), ["a", "A"]) == Play(s1, ["A"]) by {
      TwoCharStart('a', 'b', 5);
      CaseQuirkFirst();
      assert ["a", "A"][1..] == ["A"];
    }
    assert !Consistent(s2) by {
      CaseQuirkEnd();
    }
  }

  /**
   * With lower-case guesses and the mask invariant, the guesses reported
   * as incorrect are exactly those whose letter is not shown.
   */
  lemma IncorrectGuessesAreMisses(s: State)
    requires MaskMatchesGuesses(s)
    requires forall g :: g in s.guesses ==> |g| == 1 && IsLowerLetter(g[0])
    ensures forall g :: g in s.guesses ==> (g in IncorrectGuesses(s) <==> g[0] !in s.mask)
  {
  }

  /** The move of `UpperCaseHitReportedIncorrect`: "A" on the word "a" is an accepted hit. */
  lemma UpperCaseHitMove()
    ensures Init(["a"], 0, 1) == State("a", "_", 1, 1, [])
    ensures Submit(State("a", "_", 1, 1, []), "A") == State("a", "a", 0, 1, ["A"])
  {
    assert Init(["a"], 0, 1) == State("a", "_", 1, 1, []) by {
      assert Blank(1) == "_";
      assert Hidden("a", "_") == {'a'};
    }
    var s0 := State("a", "_", 1, 1, []);
    assert Lower("A") == "a";
    AcceptedHit(s0, "A", 0);
    assert Reveal("a", "_", "a") == "a";
  }

  /**
   * The incorrect-guess report uses the guess as typed: on the word "a",
   * the input "A" finds the letter and wins a letter, yet it is reported as
   * incorrect.
   */
  lemma UpperCaseHitReportedIncorrect()
    ensures var s := Submit(Init(["a"], 0, 1), "A");
      && s.remaining == 0 && s.lives == 1 && s.mask == "a"
      && IncorrectGuesses(s) == {"A"}
  {
    UpperCaseHitMove();
    var s1 := State("a", "a", 0, 1, ["A"]);
    assert "A" in IncorrectGuesses(s1);
  }

  /** Every string of `gs` is a single letter, as the validator accepts only those. */
  ghost predicate AllLetters(gs: seq<string>) {
    forall g :: g in gs ==> |g| == 1 && IsAlpha(g[0])
  }

  /** Every run of the game loop records only single letters. */
  lemma {:induction false} PlayRecordsLetters(s: State, inputs: seq<string>)
    requires |s.mask| == |s.word| && AllLetters(s.guesses)
    ensures AllLetters(Play(s, inputs).state.guesses)
    decreases |inputs|
  {
    if Step(s.lives, s.remaining) == InProgress && inputs != [] {
      PlayRecordsLetters(Submit(s, inputs[0]), inputs[1..]);
    }
  }

  /**
   * A character of the word that is neither a lower-case letter nor the
   * placeholder (a capital, a carriage return) stays hidden for the whole
   * run, so the mask never spells out such a word.
   */
  lemma NotLowerNeverShown(s: State, inputs: seq<string>, i: int)
    requires MaskMatchesGuesses(s) && AllLetters(s.guesses)
    requires 0 <= i < |s.word| && !IsLowerLetter(s.word[i]) && s.word[i] != Placeholder
    ensures var r := Play(s, inputs).state;
      r.mask[i] == Placeholder && r.mask != r.word
  {
    var r := Play(s, inputs).state;
    PlayKeepsMask(s, inputs);
    PlayRecordsLetters(s, inputs);
    forall g | g in r.guesses
      ensures Lower(g) != [s.word[i]]
    {
      assert IsLowerLetter(Lower(g)[0]);
    }
    assert !Revealed(r.guesses, s.word[i]);
  }

  /**
   * A word with a character that is neither a lower-case letter nor the
   * placeholder is won only by accepting two guesses that differ only in
   * case.
   */
  lemma NotLowerWonOnlyByCaseRepeat(s: State, inputs: seq<string>, i: int)
    requires Consistent(s) && AllLetters(s.guesses)
    requires 0 <= i < |s.word| && !IsLowerLetter(s.word[i]) && s.word[i] != Placeholder
    ensures var r := Play(s, inputs);
      r.phase == Won ==> !CaseConsistent(r.state.guesses)
  {
    NotLowerNeverShown(s, inputs, i);
    PlayWinsIffRevealed(s, inputs);
  }

  /** The first move of `MixedCaseWordWon`: "b" is an accepted hit. */
  lemma MixedCaseFirst()
    ensures Submit(State("Ab", "__", 2, 5, []), "b") == State("Ab", "_b", 1, 5, ["b"])
  {
    assert Lower("b") == "b";
    AcceptedHit(State("Ab", "__", 2, 5, []), "b", 1);
    assert Reveal("Ab", "__", "b") == "_b";
  }

  /** The second move of `MixedCaseWordWon`: "B" is accepted again and counted again. */
  lemma MixedCaseSecond()
    ensures Submit(State("Ab", "_b", 1, 5, ["b"]), "B") == State("Ab", "_b", 0, 5, ["b", "B"])
  {
    assert Lower("B") == "b";
    AcceptedHit(State("Ab", "_b", 1, 5, ["b"]), "B", 1);
    assert Reveal("Ab", "_b", "b") == "_b";
  }

  /**
   * A word with a capital can still be won, but only through a guess
   * repeated in the other case: on "Ab", "b" and then "B" win the game
   * while 'A' is still hidden.
   */
  lemma MixedCaseWordWon()
    ensures var r := Play(Init(["Ab"], 0, 5), ["b", "B"]);
      && r == Run(State("Ab", "_b", 0, 5, ["b", "B"]), Won)
      && 'A' in Hidden(r.state.word, r.state.mask)
  {
    var s1 := State("Ab", "_b", 1, 5, ["b"]);
    var s2 := State("Ab", "_b", 0, 5, ["b", "B"]);
    assert Play(s2, []) == Run(s2, Won);
    assert Play(s1, ["B"]) == Play(s2, []) by {
      MixedCaseSecond();
      assert ["B"][1..] == [];
    }
    assert Play(Init(["Ab"], 0, 5), ["b", "B"]) == Play(s1, ["B"]) by {
      TwoCharStart('A', 'b', 5);
      MixedCaseFirst();
      assert ["b", "B"][1..] == ["B"];
    }
    assert 'A' !in "_b";
  }
}
