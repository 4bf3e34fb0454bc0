/**
 * The App component's state machine as an object: five mutable slots and
 * the handlers that update them step by step. Each handler is proved to
 * produce the state the matching GameSpec function describes and to keep
 * GameSpec.Inv.
 */
module App {
  import opened Wrappers
  import opened Words
  import GameSpec

  class Game {
    var guesses: seq<string>
    var submitted: seq<bool>
    var currentGuessIndex: nat
    var currentGuess: string
    var modalOpen: bool

    /** The current values of the five slots. */
    function Snapshot(): GameSpec.State
      reads this
    {
      GameSpec.State(guesses, submitted, currentGuessIndex, currentGuess, modalOpen)
    }

    ghost predicate Valid()
      reads this
    {
      GameSpec.Inv(Snapshot())
    }

    /** Mounting the component: MaxGuesses empty, unsubmitted rows, row 0, dialog closed. */
    constructor ()
      ensures Valid()
      ensures Snapshot() == GameSpec.Initial()
    {
      guesses := seq(MaxGuesses, _ => "");
      submitted := seq(MaxGuesses, _ => false);
      currentGuessIndex := 0;
      currentGuess := "";
      modalOpen := false;
      GameSpec.InitialIsValid();
    }

    /** The row-sync effect: the current guess is written into its row, extending the rows at the end. */
    method SyncRow()
      requires currentGuessIndex <= |guesses|
      modifies this
      ensures Snapshot() == GameSpec.SyncRow(old(Snapshot()))
    {
      if currentGuessIndex < |guesses| {
        guesses := guesses[currentGuessIndex := currentGuess];
      } else {
        guesses := guesses + [currentGuess];
      }
    }

    /** The key dispatcher; the returned notice stands for the toast a submission may show. */
    method KeyPress(key: string) returns (notice: Option<GameSpec.Notice>)
      requires Valid()
      modifies this
      ensures Valid()
      ensures (Snapshot(), notice) == GameSpec.Key(old(Snapshot()), key)
    {
      if key == "Enter" {
        notice := Submit();
      } else if key == "Delete" {
        DeleteLast();
        notice := None;
      } else if IsLetter(key) && |currentGuess| < WordLength {
        AddChar(key);
        notice := None;
      } else {
        notice := None;
      }
    }

    method Submit() returns (notice: Option<GameSpec.Notice>)
      requires Valid()
      modifies this
      ensures Valid()
      ensures (Snapshot(), notice) == GameSpec.Submit(old(Snapshot()))
    {
      GameSpec.SubmitPreservesInv(Snapshot());
      if |currentGuess| < WordLength {
        return Some(GameSpec.TooShort);
      }
      if !ContainsValidLetter(currentGuess) {
        return Some(GameSpec.NotInWordList);
      }
      if currentGuess == Target {
        modalOpen := true;
        MarkSubmitted();
        return None;
      }
      if |currentGuess| == WordLength && currentGuessIndex < MaxGuesses {
        MarkSubmitted();
        MoveNext();
      }
      notice := None;
    }

    /** Flags the row being edited as submitted; at the end of the flags this adds one. */
    method MarkSubmitted()
      requires Valid()
      modifies this
      ensures Valid()
      ensures Snapshot() == GameSpec.MarkSubmitted(old(Snapshot()))
    {
      GameSpec.MarkSubmittedPreservesInv(Snapshot());
      if currentGuessIndex < |submitted| {
        submitted := submitted[currentGuessIndex := true];
      } else {
        submitted := submitted + [true];
      }
    }

    /**
     * Advances to the next row with an empty guess; the sync effect then
     * empties that row. Called only after the row was accepted and flagged.
     */
    method MoveNext()
      requires Valid() && currentGuessIndex < MaxGuesses
      requires currentGuessIndex < |submitted| && submitted[currentGuessIndex]
      requires Accepted(currentGuess) && currentGuess != Target
      modifies this
      ensures Valid()
      ensures Snapshot() == GameSpec.MoveNext(old(Snapshot()))
    {
      GameSpec.MoveNextPreservesInv(Snapshot());
      currentGuessIndex := currentGuessIndex + 1;
      currentGuess := "";
      SyncRow();
    }

    /** Drops the last character of the guess, if any, and syncs its row. */
    method DeleteLast()
      requires Valid()
      modifies this
      ensures Valid()
      ensures Snapshot() == GameSpec.DeleteLast(old(Snapshot()))
    {
      GameSpec.DeleteLastPreservesInv(Snapshot());
      if currentGuess != "" {
        currentGuess := currentGuess[..|currentGuess| - 1];
        SyncRow();
      }
    }

    /** Appends a letter and syncs its row. Called only for a letter key while the row has room. */
    method AddChar(key: string)
      requires Valid() && IsLetter(key) && |currentGuess| < WordLength
      modifies this
      ensures Valid()
      ensures Snapshot() == GameSpec.AddChar(old(Snapshot()), key)
    {
      GameSpec.AddCharPreservesInv(Snapshot(), key);
      currentGuess := currentGuess + key;
      SyncRow();
    }

    /** Dismissing the win dialog: it closes and the game starts over. */
    method CloseModal()
      modifies this
      ensures Valid()
      ensures Snapshot() == GameSpec.CloseModal(old(Snapshot()))
      ensures Snapshot() == GameSpec.Initial()
    {
      modalOpen := false;
      Reset();
    }

    /** Empties and unflags every row and returns to row 0; the dialog flag is left alone. */
    method Reset()
      modifies this
      ensures Valid()
      ensures Snapshot() == GameSpec.Reset(old(Snapshot()))
      ensures Snapshot() == GameSpec.Initial().(modalOpen := old(modalOpen))
    {
      GameSpec.InitialIsValid();
      var previous := currentGuess;
      guesses := seq(MaxGuesses, _ => "");
      submitted := seq(MaxGuesses, _ => false);
      currentGuessIndex := 0;
      currentGuess := "";
      if previous != currentGuess {
        SyncRow();
      }
    }
  }
}
