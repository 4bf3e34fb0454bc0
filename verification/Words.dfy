/**
 * The fixed puzzle parameters and the letter-level predicates of the game:
 * which keys count as letters and which guesses pass the word-list check.
 */
module Words {

  /** The word to guess. Its length is WordLength. */
  const Target: string := "PHONE"

  /** The number of rows on the board. */
  const MaxGuesses: nat := 6

  /** The number of letters in a row. */
  const WordLength: nat := 5

  /** The letter keys of the on-screen keyboard, in the order they are laid out. */
  const KeyboardLetters: seq<string> := [
    "Q", "W", "E", "R", "T", "Y", "U", "I", "O", "P",
    "A", "S", "D", "F", "G", "H", "J", "K", "L",
    "Z", "X", "C", "V", "B", "N", "M"
  ]

  predicate IsUpper(c: char) {
    'A' <= c <= 'Z'
  }

  /**
   * A key is a letter when it is exactly one character from A to Z; these
   * are exactly the letter keys of the on-screen keyboard.
   */
  function IsLetter(key: string): (r: bool)
    ensures r <==> key in KeyboardLetters
  {
    SingleLettersOnKeyboard(key);
    |key| == 1 && IsUpper(key[0])
  }

  /** Every character of the text is an upper-case letter. */
  predicate AllLetters(text: string) {
    forall i :: 0 <= i < |text| ==> IsUpper(text[i])
  }

  /**
   * The word-list check: some character of the guess occurs somewhere in the
   * target. Computed one character at a time, from the front.
   */
  function ContainsValidLetter(guess: string): (r: bool)
    ensures r <==> exists i :: 0 <= i < |guess| && guess[i] in Target
  {
    if guess == [] then false
    else if guess[0] in Target then true
    else
      var rest := ContainsValidLetter(guess[1..]);
      assert forall i :: 1 <= i < |guess| ==> guess[i] == guess[1..][i - 1];
      rest
  }

  /** A guess the submission accepts: full length and passing the word-list check. */
  predicate Accepted(guess: string) {
    |guess| == WordLength && ContainsValidLetter(guess)
  }

  /** Every one-character key from A to Z is on the keyboard. */
  lemma SingleLettersOnKeyboard(key: string)
    ensures |key| == 1 && IsUpper(key[0]) ==> key in KeyboardLetters
  {
    if |key| == 1 && IsUpper(key[0]) {
      var c := key[0];
      assert key == [c];
      if c <= 'I' { FirstLettersOnKeyboard(c); }
      else if c <= 'R' { MiddleLettersOnKeyboard(c); }
      else { LastLettersOnKeyboard(c); }
    }
  }

  lemma FirstLettersOnKeyboard(c: char)
    requires 'A' <= c <= 'I'
    ensures [c] in KeyboardLetters
  {
  }

  lemma MiddleLettersOnKeyboard(c: char)
    requires 'J' <= c <= 'R'
    ensures [c] in KeyboardLetters
  {
  }

  lemma LastLettersOnKeyboard(c: char)
    requires 'S' <= c <= 'Z'
    ensures [c] in KeyboardLetters
  {
  }
}
