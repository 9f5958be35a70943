/** The alphabet the three rules draw letters from, in the order they try them. */
module Alphabet {

  /** The rules' alphabet, the 26 lower-case letters. */
  const Letters: string := "abcdefghijklmnopqrstuvwxyz"

  /** Letter j of the alphabet: the j-th letter after `a`. */
  function Letter(j: nat): char
    requires j < 26
  {
    ('a' as int + j) as char
  }

  /** Letter j is the alphabet's character at index j. */
  lemma LetterSpelled()
    ensures |Letters| == 26
    ensures forall j :: 0 <= j < 26 ==> Letter(j) == Letters[j]
  {
  }

  /** A character is a letter of the alphabet. */
  predicate IsLetter(ch: char)
  {
    'a' <= ch <= 'z'
  }

  /** The letters are exactly the characters between `a` and `z`. */
  lemma LetterIsLetter(ch: char)
    ensures IsLetter(ch) <==> exists j :: 0 <= j < 26 && Letter(j) == ch
  {
    if IsLetter(ch) {
      assert Letter(ch as int - 'a' as int) == ch;
    }
  }
}
