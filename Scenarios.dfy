/**
 * Three short games worked out on the model: a hit and a miss on "apple",
 * a loss on "cat" and a win on "dog".
 */
module Scenarios {
  import opened Letters
  import opened Rules

  /** An accepted lower-case letter that does not occur in the word, in one step. */
  lemma SubmitMiss(s: State, x: string)
    requires |s.mask| == |s.word| && |x| == 1 && IsLowerLetter(x[0]) && x !in s.guesses
    requires x[0] !in s.word
    ensures Submit(s, x) == s.(lives := s.lives - 1, guesses := s.guesses + [x])
  {
    assert Lower(x) == x;
    OccursSingle(x[0], s.word);
    assert x == [x[0]];
  }

  /** A game on "apple" starts with four distinct letters to find. */
  lemma AppleStart()
    ensures Init(["apple"], 0, 3) == State("apple", "_____", 4, 3, [])
  {
    assert Blank(5) == "_____";
    assert Hidden("apple", "_____") == {'a', 'p', 'l', 'e'};
  }

  /** On "apple", "a" shows the first letter. */
  lemma AppleHit()
    ensures Submit(State("apple", "_____", 4, 3, []), "a") == State("apple", "a____", 3, 3, ["a"])
  {
    assert Lower("a") == "a";
    AcceptedHit(State("apple", "_____", 4, 3, []), "a", 0);
    assert Reveal("apple", "_____", "a") == "a____";
  }

  /** On "apple", "z" costs a life. */
  lemma AppleMiss()
    ensures Submit(State("apple", "a____", 3, 3, ["a"]), "z") == State("apple", "a____", 3, 2, ["a", "z"])
  {
    SubmitMiss(State("apple", "a____", 3, 3, ["a"]), "z");
  }

  /** On "apple" with three lives, "a" shows the first letter and "z" costs a life. */
  lemma AppleHitThenMiss()
    ensures Play(Init(["apple"], 0, 3), ["a", "z"]) ==
      Run(State("apple", "a____", 3, 2, ["a", "z"]), InProgress)
  {
    var s1 := State("apple", "a____", 3, 3, ["a"]);
    var s2 := State("apple", "a____", 3, 2, ["a", "z"]);
    assert Play(s1, ["z"]) == Play(s2, []) by {
      AppleMiss();
      assert ["z"][1..] == [];
    }
    assert Play(Init(["apple"], 0, 3), ["a", "z"]) == Play(s1, ["z"]) by {
      AppleStart();
      AppleHit();
      assert ["a", "z"][1..] == ["z"];
    }
  }

  /** A game on "cat" with one life starts with three letters to find. */
  lemma CatStart()
    ensures Init(["cat"], 0, 1) == State("cat", "___", 3, 1, [])
  {
    assert Blank(3) == "___";
    assert Hidden("cat", "___") == {'c', 'a', 't'};
  }

  /** On "cat" with one life, a miss leaves zero lives and the loop reports the loss. */
  lemma CatLost()
    ensures Play(Init(["cat"], 0, 1), ["z"]) == Run(State("cat", "___", 3, 0, ["z"]), Lost)
  {
    var s1 := State("cat", "___", 3, 0, ["z"]);
    assert Play(Init(["cat"], 0, 1), ["z"]) == Play(s1, []) by {
      CatStart();
      SubmitMiss(State("cat", "___", 3, 1, []), "z");
    }
  }

  /** A game on "dog" starts with three distinct letters to find. */
  lemma DogStart()
    ensures Init(["dog"], 0, 5) == State("dog", "___", 3, 5, [])
  {
    assert Blank(3) == "___";
    assert Hidden("dog", "___") == {'d', 'o', 'g'};
  }

  /** The first hit of the "dog" game. */
  lemma DogFirst()
    ensures Submit(State("dog", "___", 3, 5, []), "d") == State("dog", "d__", 2, 5, ["d"])
  {
    assert Lower("d") == "d";
    AcceptedHit(State("dog", "___", 3, 5, []), "d", 0);
    assert Reveal("dog", "___", "d") == "d__";
  }

  /** The second hit of the "dog" game. */
  lemma DogSecond()
    ensures Submit(State("dog", "d__", 2, 5, ["d"]), "o") == State("dog", "do_", 1, 5, ["d", "o"])
  {
    assert Lower("o") == "o";
    AcceptedHit(State("dog", "d__", 2, 5, ["d"]), "o", 1);
    assert Reveal("dog", "d__", "o") == "do_";
  }

  /** The third hit of the "dog" game. */
  lemma DogThird()
    ensures Submit(State("dog", "do_", 1, 5, ["d", "o"]), "g") ==
      State("dog", "dog", 0, 5, ["d", "o", "g"])
  {
    assert Lower("g") == "g";
    AcceptedHit(State("dog", "do_", 1, 5, ["d", "o"]), "g", 2);
    assert Reveal("dog", "do_", "g") == "dog";
  }

  /** On "dog" with five lives, "d", "o", "g" win with all five lives left. */
  lemma DogWon()
    ensures Play(Init(["dog"], 0, 5), ["d", "o", "g"]) ==
      Run(State("dog", "dog", 0, 5, ["d", "o", "g"]), Won)
  {
    var s1 := State("dog", "d__", 2, 5, ["d"]);
    var s2 := State("dog", "do_", 1, 5, ["d", "o"]);
    var s3 := State("dog", "dog", 0, 5, ["d", "o", "g"]);
    assert Play(s3, []) == Run(s3, Won);
    assert Play(s2, ["g"]) == Play(s3, []) by {
      DogThird();
      assert ["g"][1..] == [];
    }
    assert Play(s1, ["o", "g"]) == Play(s2, ["g"]) by {
      DogSecond();
      assert ["o", "g"][1..] == ["g"];
    }
    assert Play(Init(["dog"], 0, 5), ["d", "o", "g"]) == Play(s1, ["o", "g"]) by {
      DogStart();
      DogFirst();
      assert ["d", "o", "g"][1..] == ["o", "g"];
    }
  }
}
