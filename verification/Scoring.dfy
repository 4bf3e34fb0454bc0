/**
 * Per-cell colouring of the board. A cell of a submitted row is coloured
 * from its own character and the target alone: there is no duplicate-letter
 * accounting, so a repeated guess letter may be marked present more often
 * than it occurs in the target.
 */
module Scoring {
  import opened Wrappers
  import opened Words

  /** The colour class of a cell; Blank is the uncoloured cell of a row not yet submitted. */
  datatype Color = Blank | Green | Yellow | Gray

  /**
   * The colour of one cell. The guess character is None when the row's text
   * is shorter than the column; such a character equals no target character
   * and is found nowhere in the target, so a submitted cell without one is Gray.
   */
  function CellColor(guessChar: Option<char>, targetChar: char, isSubmitted: bool): (r: Color)
    ensures r == Blank <==> !isSubmitted
    ensures r == Green <==> isSubmitted && guessChar == Some(targetChar)
    ensures r == Yellow <==>
      isSubmitted && guessChar != Some(targetChar) && guessChar.Some? && guessChar.value in Target
    ensures r == Gray <==>
      isSubmitted && guessChar != Some(targetChar) && (guessChar.None? || guessChar.value !in Target)
  {
    if !isSubmitted then Blank
    else if guessChar == Some(targetChar) then Green
    else if guessChar.Some? && guessChar.value in Target then Yellow
    else Gray
  }

  /** The colours of the WordLength cells of a row holding the text guess. */
  function RowColors(guess: string, isSubmitted: bool): (r: seq<Color>)
    ensures |r| == WordLength
  {
    seq(WordLength, col requires 0 <= col < WordLength =>
      CellColor(if col < |guess| then Some(guess[col]) else None, Target[col], isSubmitted))
  }

  /** A row whose every cell has colour c. */
  function Uniform(c: Color): seq<Color> {
    seq(WordLength, _ => c)
  }

  /** A row that is not submitted shows no colour, whatever its text. */
  lemma UnsubmittedRowIsBlank(guess: string)
    ensures RowColors(guess, false) == Uniform(Blank)
  {
  }

  /**
   * A cell of a submitted row is Green exactly when its character is the
   * target's character in that column, Yellow exactly when it is another
   * character of the target, and Gray exactly when it is missing or occurs
   * nowhere in the target.
   */
  lemma SubmittedCellColor(guess: string, col: nat)
    requires col < WordLength
    ensures var c := RowColors(guess, true)[col];
      && (c == Green <==> col < |guess| && guess[col] == Target[col])
      && (c == Yellow <==> col < |guess| && guess[col] != Target[col] && guess[col] in Target)
      && (c == Gray <==> col >= |guess| || guess[col] !in Target)
      && c != Blank
  {
  }

  /** A row of at most WordLength letters is all Green exactly when it spells the target. */
  lemma AllGreenIffTarget(guess: string)
    requires |guess| <= WordLength
    ensures RowColors(guess, true) == Uniform(Green) <==> guess == Target
  {
    if RowColors(guess, true) == Uniform(Green) {
      assert RowColors(guess, true)[WordLength - 1] == Green;
      assert |guess| == WordLength;
      forall col | 0 <= col < WordLength
        ensures guess[col] == Target[col]
      {
        assert RowColors(guess, true)[col] == Green;
      }
    }
  }

  /**
   * A full-length guess passes the word-list check exactly when its
   * submitted row would show at least one cell that is not Gray.
   */
  lemma ValidLetterIffNotAllGray(guess: string)
    requires |guess| == WordLength
    ensures ContainsValidLetter(guess) <==> RowColors(guess, true) != Uniform(Gray)
  {
    if ContainsValidLetter(guess) {
      var i :| 0 <= i < |guess| && guess[i] in Target;
      assert RowColors(guess, true)[i] != Gray;
    } else {
      forall col | 0 <= col < WordLength
        ensures RowColors(guess, true)[col] == Gray
      {
        assert guess[col] !in Target;
      }
    }
  }

  /** "PHONY" against "PHONE": four exact matches and an absent Y. */
  lemma PhonyScore()
    ensures RowColors("PHONY", true) == [Green, Green, Green, Green, Gray]
  {
  }

  /** "HOUSE" against "PHONE": H and O misplaced, U and S absent, E exact. */
  lemma HouseScore()
    ensures RowColors("HOUSE", true) == [Yellow, Yellow, Gray, Gray, Green]
  {
  }

  /**
   * "EEEEE" against "PHONE": the single E of the target makes the last cell
   * Green and still marks the other four Yellow.
   */
  lemma RepeatedLetterScore()
    ensures RowColors("EEEEE", true) == [Yellow, Yellow, Yellow, Yellow, Green]
  {
  }
}
