/**
 * Character classification and case mapping used by the game.
 *
 * The game relies on the host language's `str.isalpha` and `str.lower`.
 * This module approximates both on ASCII: the letters are 'a'..'z' and
 * 'A'..'Z', and lowering maps 'A'..'Z' to 'a'..'z' and leaves every other
 * character as it is.
 */
module Letters {

  /** The alphabet in both cases, letter for letter. */
  const LowerAlphabet: string := "abcdefghijklmnopqrstuvwxyz"
  const UpperAlphabet: string := "ABCDEFGHIJKLMNOPQRSTUVWXYZ"

  /** A character accepted as a guess: an ASCII letter of either case. */
  predicate IsAlpha(c: char) {
    'a' <= c <= 'z' || 'A' <= c <= 'Z'
  }

  /** An ASCII lower-case letter. */
  predicate IsLowerLetter(c: char) {
    'a' <= c <= 'z'
  }

  /** Each letter of the two alphabets has the code of 'a' or 'A' plus its place. */
  lemma AlphabetCodes()
    ensures |LowerAlphabet| == |UpperAlphabet| == 26
    ensures forall j :: 0 <= j < |UpperAlphabet| ==> UpperAlphabet[j] as int == 'A' as int + j
    ensures forall j :: 0 <= j < |LowerAlphabet| ==> LowerAlphabet[j] as int == 'a' as int + j
  {
  }

  /** The lower-case alphabet is the character range 'a'..'z'. */
  lemma LowerAlphabetRange(c: char)
    ensures c in LowerAlphabet <==> 'a' <= c <= 'z'
  {
    AlphabetCodes();
    if 'a' <= c <= 'z' {
      var k := c as int - 'a' as int;
      assert LowerAlphabet[k] == c;
    }
  }

  /** The upper-case alphabet is the character range 'A'..'Z'. */
  lemma UpperAlphabetRange(c: char)
    ensures c in UpperAlphabet <==> 'A' <= c <= 'Z'
  {
    AlphabetCodes();
    if 'A' <= c <= 'Z' {
      var k := c as int - 'A' as int;
      assert UpperAlphabet[k] == c;
    }
  }

  /** The accepted characters are exactly the letters of the two alphabets. */
  lemma IsAlphaAlphabet(c: char)
    ensures IsAlpha(c) <==> c in LowerAlphabet || c in UpperAlphabet
  {
    LowerAlphabetRange(c);
    UpperAlphabetRange(c);
  }

  /**
   * Lower-case form of one character: a capital becomes the lower-case
   * letter at the same place in the alphabet, everything else is kept.
   */
  function LowerChar(c: char): (r: char)
    ensures IsAlpha(c) <==> IsLowerLetter(r)
    ensures IsLowerLetter(c) ==> r == c
    ensures !IsAlpha(c) ==> r == c
    ensures 'A' <= c <= 'Z' ==> r as int - 'a' as int == c as int - 'A' as int
  {
    if 'A' <= c <= 'Z' then (c as int + ('a' as int - 'A' as int)) as char else c
  }

  /** The k-th capital of the alphabet lowers to the k-th lower-case letter. */
  lemma LowerAlphabetMatch(k: nat)
    requires k < |UpperAlphabet|
    ensures LowerChar(UpperAlphabet[k]) == LowerAlphabet[k]
  {
    AlphabetCodes();
    var u := UpperAlphabet[k];
    assert 'A' <= u <= 'Z';
    assert LowerChar(u) as int == LowerAlphabet[k] as int;
  }

  /**
   * Lower-case form of a string, character by character: same length,
   * letters become lower-case letters, everything else is kept.
   */
  function Lower(s: string): (r: string)
    ensures |r| == |s|
    ensures forall i :: 0 <= i < |s| ==> (IsAlpha(s[i]) <==> IsLowerLetter(r[i]))
    ensures forall i :: 0 <= i < |s| && !('A' <= s[i] <= 'Z') ==> r[i] == s[i]
    ensures forall i :: 0 <= i < |s| && 'A' <= s[i] <= 'Z' ==>
      r[i] as int - 'a' as int == s[i] as int - 'A' as int
  {
    seq(|s|, i requires 0 <= i < |s| => LowerChar(s[i]))
  }

}
