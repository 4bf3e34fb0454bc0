# Word-guessing puzzle: the game state machine

This project models the logic of the `App` component of a browser word-guessing
puzzle. The player types letters into the current row of a six-row board,
deletes them, and submits five-letter guesses against the fixed target word
`PHONE`. A submitted row is coloured cell by cell: green for the right letter
in the right place, yellow for a letter found elsewhere in the target, gray
for a letter not in the target. Submitting the target opens a win dialog.
Dismissing that dialog starts the game over.

The model has five modules:

- `Wrappers`: an `Option` type.
- `Words`: the constants `Target = "PHONE"`, `MaxGuesses = 6` and `WordLength = 5`
  (`|Target| == WordLength`). It also holds the letter test `IsLetter`, the
  word-list check `ContainsValidLetter` and the on-screen letter keys.
- `Scoring`: the cell colour `CellColor` and the colours of a row, `RowColors`.
  The colour type `Color` (`Blank`, `Green`, `Yellow`, `Gray`) replaces the CSS
  class names `''`, `green`, `yellow` and `gray`.
- `GameSpec`: the component's five state slots as a value `State`. Each handler
  is a function from the state before to the state after. The notice a
  submission raises is a returned `Notice` (`TooShort`, `NotInWordList`). The
  module also holds the invariant `Inv` of every reachable state and the lemmas
  about the handlers.
- `App`: the class `Game`. Its fields are the five slots and its methods
  update them in place. Each handler method is proved to yield the state its
  `GameSpec` function describes and to keep `Inv`. The row-sync method
  `SyncRow` is proved equal to `GameSpec.SyncRow`. It promises nothing about
  `Inv`, because `MoveNext` calls it while the index already points one row
  further.

The row-sync effect copies the current guess into its row whenever the guess
changes. It runs as an immediate step at the end of every handler that
changes the guess. As in React, it does not run when the new text equals the
old one, for example on Delete with an empty guess.

Rows may grow, as they do in the source. A write to element `i` of a script
array extends the array when `i` equals its length; `GameSpec.Store` models
that. So the board reaches seven rows once the index passes the sixth row:
the sync effect writes an empty seventh row. The flags reach seven entries
only when the target is submitted on that seventh row. The win check comes
before the row-bound check, so a winning guess is accepted there. Nothing in
the logic looks at the dialog flag before accepting a key.

Three consequences of the code are worth stating outright:

- An exhausted board (`index == MaxGuesses`) is not terminal. Letters can
  still be typed into the extra seventh row, and the target typed there wins.
  Any other guess submitted there changes nothing
  (`GameSpec.SubmitIgnoredWhenExhausted`).
- Keys are still accepted while the win dialog is open: Delete, letters and
  Enter all act as usual (`GameSpec.KeysIgnoreModal`).
- The board is not fixed at `MaxGuesses` rows. The rows grow by one, and so
  may the flags, as described above (`GameSpec.BoardRows`).

## Model

| member | source | states |
|---|---|---|
| `Words.ContainsValidLetter` | src/App.tsx:62-64 | true exactly when some character of the guess occurs somewhere in the target |
| `Words.IsLetter` | src/App.tsx:87 | a key passes the letter test iff it is one of the 26 letter keys of the on-screen keyboard (lines 124-128), which are exactly the one-character strings from A to Z |
| `Scoring.CellColor` | src/App.tsx:115-121 | Blank iff the row is not submitted; otherwise Green iff the guess character equals the target character; Yellow iff it differs but occurs somewhere in the target; Gray iff it differs and is missing or absent from the target |
| `Scoring.RowColors` | src/App.tsx:155-159 | every row is drawn with exactly WordLength cells, whatever the length of its text |
| `Scoring.UnsubmittedRowIsBlank` | src/App.tsx:115-116 | a row that is not submitted shows no colour in any cell, whatever its text |
| `Scoring.SubmittedCellColor` | src/App.tsx:115-121 | in a submitted row a cell is Green iff its character equals the target's in that column; Yellow iff it differs and occurs elsewhere in the target; Gray iff it is missing or absent from the target. The colour depends only on that one character, with no duplicate-letter accounting |
| `Scoring.AllGreenIffTarget` | src/App.tsx:115-121 | a submitted row of at most WordLength letters is all Green iff its text is the target |
| `Scoring.ValidLetterIffNotAllGray` | src/App.tsx:115-121 | a full-length guess passes the word-list check iff its submitted row shows some cell that is not Gray |
| `Scoring.PhonyScore` | src/App.tsx:115-121 | "PHONY" scores Green, Green, Green, Green, Gray |
| `Scoring.HouseScore` | src/App.tsx:115-121 | "HOUSE" scores Yellow, Yellow, Gray, Gray, Green |
| `Scoring.RepeatedLetterScore` | src/App.tsx:115-121 | "EEEEE" scores four Yellow and one Green, though the target has one E |
| `GameSpec.Store` | src/App.tsx:23-27 | an array write at index i replaces element i, or appends when i is the length; no other element changes |
| `GameSpec.SyncRow` | src/App.tsx:19-27 | after the effect, the row at the index exists and holds the current guess. Every other row keeps its text, and the other four slots are unchanged. The row count grows by one only when the index equals it |
| `GameSpec.SetCurrent` | src/App.tsx:19-21 | sets the guess. An unchanged text leaves the rows alone, as React runs no effect then. A changed text is written into the row at the index and no other row changes. The other slots are unchanged |
| `GameSpec.AddChar` | src/App.tsx:83-85 | function form of addCharacter; its contract keeps the edited row in range. LetterKey states its effect |
| `GameSpec.DeleteLast` | src/App.tsx:79-81 | function form of deleteLastCharacter; its contract keeps the edited row in range. DeleteKey states its effect |
| `GameSpec.MoveNext` | src/App.tsx:74-77 | the index goes up by one and the guess becomes empty. Flags and the dialog flag are unchanged. When the old guess was not empty, the new row exists and is empty. No other row changes, and the rows grow only when the new index equals their count |
| `GameSpec.MarkSubmitted` | src/App.tsx:66-72 | function form of markGuessAsSubmitted; afterwards the edited row's flag exists. SubmitWins and SubmitAdvances state its effect |
| `GameSpec.Submit` | src/App.tsx:39-60 | function form of submitGuess; its contract keeps the edited row in range. The Submit lemmas below state its effect |
| `GameSpec.Key` | src/App.tsx:29-37 | function form of handleKeyPress; its contract keeps the edited row in range. LetterKey, DeleteKey and the Submit lemmas state its effect |
| `GameSpec.Board` | src/App.tsx:151-159 | the board has one row of colours per row text |
| `GameSpec.Step` | src/App.tsx:130-173 | one player event keeps the edited row in range. The event is a key from the keyboard buttons (lines 130-146) or dismissing the dialog through `onRequestClose` or "Play Again" (lines 164-173) |
| `GameSpec.Reset` | src/App.tsx:96-101 | from any state, six empty, unflagged rows, row 0 and an empty guess, with the dialog flag unchanged |
| `GameSpec.CloseModal` | src/App.tsx:91-94 | from any state, exactly the initial state: dialog closed and the board reset |
| `GameSpec.InitialIsValid` | src/App.tsx:13-17 | the mount state (six empty, unsubmitted rows, row 0, empty guess) satisfies the invariant |
| `GameSpec.AddCharPreservesInv` | src/App.tsx:83-85 | adding a letter while the row has room keeps the invariant |
| `GameSpec.DeleteLastPreservesInv` | src/App.tsx:79-81 | deleting keeps the invariant |
| `GameSpec.MarkSubmittedPreservesInv` | src/App.tsx:66-72 | flagging the edited row keeps the invariant, also when the flag is appended at the extra row |
| `GameSpec.MoveNextPreservesInv` | src/App.tsx:74-77 | leaving a flagged row that holds an accepted, non-winning guess keeps the invariant |
| `GameSpec.SubmitPreservesInv` | src/App.tsx:39-60 | every submission keeps the invariant |
| `GameSpec.KeyPreservesInv` | src/App.tsx:29-37 | every key press keeps the invariant |
| `GameSpec.StepPreservesInv` | src/App.tsx:29-37 | every key press or dismissal keeps the invariant |
| `GameSpec.RunPreservesInv` | src/App.tsx:29-37 | any sequence of events from a valid state ends in a valid state |
| `GameSpec.ReachableStatesAreValid` | src/App.tsx:34-35 | every reachable state satisfies the invariant; in particular the guess never exceeds WordLength and the index never exceeds MaxGuesses |
| `GameSpec.LetterKey` | src/App.tsx:34-35 | a key other than Enter and Delete appends itself to the guess and its row iff it is one letter A-Z and the guess is shorter than WordLength; otherwise nothing changes; no notice |
| `GameSpec.DeleteKey` | src/App.tsx:32-33 | Delete removes exactly the last character of the guess and of its row and changes nothing else; on an empty guess it changes nothing |
| `GameSpec.SubmitRejects` | src/App.tsx:40-48 | TooShort iff the guess is shorter than WordLength; NotInWordList iff a full guess shares no letter with the target; a rejected submission changes nothing |
| `GameSpec.SubmitWins` | src/App.tsx:50-54 | submitting the target opens the dialog and flags the edited row, appending the flag on the extra row; index, guess, row texts and all other flags are unchanged |
| `GameSpec.SubmitAdvances` | src/App.tsx:56-59 | an accepted non-winning guess below MaxGuesses flags only its row, advances the index by one and empties the guess; every existing row keeps its text and the dialog flag is unchanged |
| `GameSpec.SubmitIgnoredWhenExhausted` | src/App.tsx:56 | at index MaxGuesses, a submission of anything but the target changes nothing |
| `GameSpec.KeysIgnoreModal` | src/App.tsx:29-37 | whether the dialog is open never changes the notice or the effect of a key on the other slots |
| `GameSpec.ModalOpensOnlyOnWin` | src/App.tsx:89 | after a key the dialog is open iff it was open or the key was Enter with the guess equal to the target |
| `GameSpec.BoardRows` | src/App.tsx:155-159 | the board shows six rows, seven once the index reaches MaxGuesses; rows before the index are coloured and neither all Green nor all Gray; rows after it are blank |
| `GameSpec.WinningRowAllGreen` | src/App.tsx:50-54 | after a winning submission the edited row shows all Green |
| `App.Game.constructor` | src/App.tsx:13-17 | the new game is in the initial state and valid |
| `App.Game.SyncRow` | src/App.tsx:23-27 | the slots afterwards are those of GameSpec.SyncRow applied to the slots before |
| `App.Game.KeyPress` | src/App.tsx:29-37 | slots and notice are those of GameSpec.Key applied to the slots before; the invariant is kept |
| `App.Game.Submit` | src/App.tsx:39-60 | slots and notice are those of GameSpec.Submit applied to the slots before; the invariant is kept |
| `App.Game.MarkSubmitted` | src/App.tsx:66-72 | slots are those of GameSpec.MarkSubmitted applied to the slots before; the invariant is kept |
| `App.Game.MoveNext` | src/App.tsx:74-77 | slots are those of GameSpec.MoveNext applied to the slots before; the invariant is kept |
| `App.Game.DeleteLast` | src/App.tsx:79-81 | slots are those of GameSpec.DeleteLast applied to the slots before; the invariant is kept |
| `App.Game.AddChar` | src/App.tsx:83-85 | slots are those of GameSpec.AddChar applied to the slots before; the invariant is kept |
| `App.Game.CloseModal` | src/App.tsx:91-94 | from any state the slots become the initial state, and that state is valid |
| `App.Game.Reset` | src/App.tsx:96-101 | from any state the slots become the initial state with the dialog flag unchanged, and that state is valid |

## Left out

- Rendering: the cell markup, the keyboard rows and the table and dialog tree are
  not modelled. The colour each cell is drawn with is modelled (`Scoring.RowColors`, `GameSpec.Board`).
- The toast library: each `toast.error` call becomes the returned `Notice`.
  `GameSpec.Message` gives its text.
- The dialog library and `Modal.setAppElement`: only the boolean `modalOpen` is modelled.
  `showModal` is the assignment `modalOpen := true` inside `Submit`.
- React's scheduling: state updates and the row-sync effect run immediately and in order.
- `GameSpec.Store`: writing past the end of a script array leaves holes. The model requires the
  index to be at most the length, which every reachable state meets (`GameSpec.Inv`).
- `App.Game.AddChar` and `App.Game.MoveNext` require what their one caller establishes before
  calling them: a letter key and room in the row for `AddChar`, and an accepted, flagged,
  non-winning row below `MaxGuesses` for `MoveNext`. Other calls are not modelled.
- `GameSpec.Step`: a `Dismiss` event is allowed while the dialog is closed, which the page cannot
  produce. This only widens the event sequences that `RunPreservesInv` and
  `ReachableStatesAreValid` cover.
- Strings are sequences of characters. The source's strings are UTF-16; no input here
  needs more than one code unit per character.
