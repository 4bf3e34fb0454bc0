/**
 * The game's state as a value and each handler of the App component as a
 * function from the state before to the state after. React's state updates
 * and the row-sync effect are applied immediately and in order.
 */
module GameSpec {
  import opened Wrappers
  import opened Words
  import opened Scoring

  /** The two transient notices a rejected submission raises. */
  datatype Notice = TooShort | NotInWordList

  function Message(n: Notice): string {
    match n
    case TooShort => "Not enough letters"
    case NotInWordList => "Not in word list"
  }

  /**
   * The five state slots of the component: the text of every row, which rows
   * are submitted, the row being edited, its text, and whether the win
   * dialog is showing.
   */
  datatype State = State(
    guesses: seq<string>,
    submitted: seq<bool>,
    index: nat,
    current: string,
    modalOpen: bool)

  /**
   * Writing element i of a script array: an index inside the array replaces
   * that element, the index just past the end extends the array by one.
   */
  function Store<T>(a: seq<T>, i: nat, x: T): (r: seq<T>)
    requires i <= |a|
    ensures |r| == if i < |a| then |a| else |a| + 1
    ensures r[i] == x
    ensures forall j :: 0 <= j < |a| && j != i ==> r[j] == a[j]
  {
    if i < |a| then a[i := x] else a + [x]
  }

  /** The row being edited exists, and its flag exists or is the next to be added. */
  predicate Indexable(s: State) {
    s.index < |s.guesses| && s.index <= |s.submitted|
  }

  /** The state the component mounts with, and the one a reset returns to. */
  function Initial(): State {
    State(seq(MaxGuesses, _ => ""), seq(MaxGuesses, _ => false), 0, "", false)
  }

  /** The effect that copies the current guess into the row being edited. */
  function SyncRow(s: State): (r: State)
    requires s.index <= |s.guesses|
    ensures r.index < |r.guesses| && r.guesses[r.index] == r.current
    ensures r == s.(guesses := r.guesses)
    ensures |r.guesses| == if s.index < |s.guesses| then |s.guesses| else |s.guesses| + 1
    ensures forall j :: 0 <= j < |s.guesses| && j != s.index ==> r.guesses[j] == s.guesses[j]
  {
    s.(guesses := Store(s.guesses, s.index, s.current))
  }

  /**
   * Setting the current guess: the row-sync effect follows only when the
   * text actually changes, as React skips effects whose dependency is unchanged.
   */
  function SetCurrent(s: State, text: string): (r: State)
    requires s.index <= |s.guesses|
    ensures r == s.(current := text, guesses := r.guesses)
    ensures text == s.current ==> r.guesses == s.guesses
    ensures text != s.current ==> s.index < |r.guesses| && r.guesses[s.index] == text
    ensures text != s.current ==> |r.guesses| == if s.index < |s.guesses| then |s.guesses| else |s.guesses| + 1
    ensures forall j :: 0 <= j < |s.guesses| && j != s.index ==> r.guesses[j] == s.guesses[j]
  {
    if text == s.current then s else SyncRow(s.(current := text))
  }

  /** Appending a key to the current guess. */
  function AddChar(s: State, key: string): (r: State)
    requires Indexable(s)
    ensures Indexable(r)
  {
    SetCurrent(s, s.current + key)
  }

  /** All but the last character; the empty text stays empty. */
  function DropLast(text: string): string {
    if text == "" then "" else text[..|text| - 1]
  }

  /** Removing the last character of the current guess. */
  function DeleteLast(s: State): (r: State)
    requires Indexable(s)
    ensures Indexable(r)
  {
    SetCurrent(s, DropLast(s.current))
  }

  /** Flagging the row being edited as submitted. */
  function MarkSubmitted(s: State): (r: State)
    requires Indexable(s)
    ensures Indexable(r) && r.index < |r.submitted|
  {
    s.(submitted := Store(s.submitted, s.index, true))
  }

  /** Moving to the next row with an empty guess. */
  function MoveNext(s: State): (r: State)
    requires s.index < |s.guesses|
    ensures r.index == s.index + 1 && r.current == ""
    ensures r.submitted == s.submitted && r.modalOpen == s.modalOpen
    ensures s.current != "" ==> r.index < |r.guesses| && r.guesses[r.index] == ""
    ensures |r.guesses| == if s.current != "" && s.index + 1 == |s.guesses| then |s.guesses| + 1 else |s.guesses|
    ensures forall j :: 0 <= j < |s.guesses| && j != s.index + 1 ==> r.guesses[j] == s.guesses[j]
  {
    SetCurrent(s.(index := s.index + 1), "")
  }

  /**
   * Submitting the current guess: too short or sharing no letter with the
   * target raises a notice; the target wins without advancing; any other
   * full guess is submitted and the next row begins, if a row remains.
   */
  function Submit(s: State): (r: (State, Option<Notice>))
    requires Indexable(s)
    ensures Indexable(r.0)
  {
    if |s.current| < WordLength then (s, Some(TooShort))
    else if !ContainsValidLetter(s.current) then (s, Some(NotInWordList))
    else if s.current == Target then (MarkSubmitted(s.(modalOpen := true)), None)
    else if |s.current| == WordLength && s.index < MaxGuesses then (MoveNext(MarkSubmitted(s)), None)
    else (s, None)
  }

  /** The key dispatcher: Enter submits, Delete deletes, a letter is added while the row has room. */
  function Key(s: State, key: string): (r: (State, Option<Notice>))
    requires Indexable(s)
    ensures Indexable(r.0)
  {
    if key == "Enter" then Submit(s)
    else if key == "Delete" then (DeleteLast(s), None)
    else if IsLetter(key) && |s.current| < WordLength then (AddChar(s, key), None)
    else (s, None)
  }

  /**
   * Clearing the board: from any state, every row empty and unsubmitted,
   * row 0 and an empty guess; the dialog flag is left as it was.
   */
  function Reset(s: State): (r: State)
    ensures r == Initial().(modalOpen := s.modalOpen)
  {
    var cleared := s.(guesses := seq(MaxGuesses, _ => ""), submitted := seq(MaxGuesses, _ => false), index := 0);
    SetCurrent(cleared, "")
  }

  /** Dismissing the win dialog closes it and resets the game: from any state, the initial state. */
  function CloseModal(s: State): (r: State)
    ensures r == Initial()
  {
    Reset(s.(modalOpen := false))
  }

  /** The colours drawn for every row of the board; a row without a flag is not submitted. */
  function Board(s: State): (b: seq<seq<Color>>)
    ensures |b| == |s.guesses|
  {
    seq(|s.guesses|, row requires 0 <= row < |s.guesses| =>
      RowColors(s.guesses[row], row < |s.submitted| && s.submitted[row]))
  }

  /** What the player can do: press a key, or dismiss the win dialog. */
  datatype Event = Press(key: string) | Dismiss

  function Step(s: State, e: Event): (r: State)
    requires Indexable(s)
    ensures Indexable(r)
  {
    match e
    case Press(key) => Key(s, key).0
    case Dismiss => CloseModal(s)
  }

  /** The state after a sequence of events. */
  function Run(s: State, events: seq<Event>): State
    requires Indexable(s)
    decreases |events|
  {
    if events == [] then s else Run(Step(s, events[0]), events[1..])
  }

  /**
   * The invariant of every reachable state. The board has MaxGuesses rows,
   * plus one more once the index has run past the last row; the flags grow
   * the same way only through a win on that extra row. Rows before the
   * index are submitted, accepted and not the target; rows after it are
   * empty and unsubmitted; the row at the index holds the current guess,
   * which never exceeds WordLength; every row holds only letters.
   */
  ghost predicate Inv(s: State) {
    && s.index <= MaxGuesses
    && |s.guesses| == (if s.index < MaxGuesses then MaxGuesses else MaxGuesses + 1)
    && (|s.submitted| == MaxGuesses || (|s.submitted| == MaxGuesses + 1 && s.index == MaxGuesses))
    && s.guesses[s.index] == s.current
    && |s.current| <= WordLength
    && (forall j :: 0 <= j < s.index ==> s.submitted[j])
    && (forall j :: s.index < j < |s.submitted| ==> !s.submitted[j])
    && (forall j :: 0 <= j < s.index ==> Accepted(s.guesses[j]) && s.guesses[j] != Target)
    && (forall j :: s.index < j < |s.guesses| ==> s.guesses[j] == "")
    && (forall j :: 0 <= j < |s.guesses| ==> AllLetters(s.guesses[j]))
  }

  lemma InitialIsValid()
    ensures Inv(Initial())
  {
  }

  lemma AddCharPreservesInv(s: State, key: string)
    requires Inv(s) && IsLetter(key) && |s.current| < WordLength
    ensures Inv(AddChar(s, key))
  {
  }

  lemma DeleteLastPreservesInv(s: State)
    requires Inv(s)
    ensures Inv(DeleteLast(s))
  {
  }

  lemma MarkSubmittedPreservesInv(s: State)
    requires Inv(s)
    ensures Inv(MarkSubmitted(s))
  {
  }

  /** Leaving a row that holds an accepted, non-winning, submitted guess keeps the invariant. */
  lemma MoveNextPreservesInv(s: State)
    requires Inv(s) && s.index < MaxGuesses && s.index < |s.submitted| && s.submitted[s.index]
    requires Accepted(s.current) && s.current != Target
    ensures Inv(MoveNext(s))
  {
  }

  lemma SubmitPreservesInv(s: State)
    requires Inv(s)
    ensures Inv(Submit(s).0)
  {
    if |s.current| >= WordLength && ContainsValidLetter(s.current) {
      if s.current == Target {
        MarkSubmittedPreservesInv(s.(modalOpen := true));
      } else if s.index < MaxGuesses {
        MarkSubmittedPreservesInv(s);
        MoveNextPreservesInv(MarkSubmitted(s));
      }
    }
  }

  lemma KeyPreservesInv(s: State, key: string)
    requires Inv(s)
    ensures Inv(Key(s, key).0)
  {
    if key == "Enter" {
      SubmitPreservesInv(s);
    } else if key == "Delete" {
      DeleteLastPreservesInv(s);
    } else if IsLetter(key) && |s.current| < WordLength {
      AddCharPreservesInv(s, key);
    }
  }

  lemma StepPreservesInv(s: State, e: Event)
    requires Inv(s)
    ensures Inv(Step(s, e))
  {
    match e
    case Press(key) => KeyPreservesInv(s, key);
    case Dismiss => InitialIsValid();
  }

  lemma {:induction false} RunPreservesInv(s: State, events: seq<Event>)
    requires Inv(s)
    ensures Inv(Run(s, events))
    decreases |events|
  {
    if events != [] {
      StepPreservesInv(s, events[0]);
      RunPreservesInv(Step(s, events[0]), events[1..]);
    }
  }

  /**
   * Every state reachable from the initial one satisfies the invariant; in
   * particular the current guess never exceeds WordLength letters and the
   * index never passes MaxGuesses.
   */
  lemma ReachableStatesAreValid(events: seq<Event>)
    ensures Inv(Run(Initial(), events))
    ensures |Run(Initial(), events).current| <= WordLength
    ensures Run(Initial(), events).index <= MaxGuesses
  {
    InitialIsValid();
    RunPreservesInv(Initial(), events);
  }

  /**
   * A key other than Enter and Delete appends itself exactly when it is a
   * letter and the row has room, updating the row text and nothing else;
   * otherwise it changes nothing. It never raises a notice.
   */
  lemma LetterKey(s: State, key: string)
    requires Inv(s) && key != "Enter" && key != "Delete"
    ensures Key(s, key).1 == None
    ensures IsLetter(key) && |s.current| < WordLength ==>
      var text := s.current + key;
      Key(s, key).0 == s.(current := text, guesses := s.guesses[s.index := text])
    ensures !(IsLetter(key) && |s.current| < WordLength) ==> Key(s, key).0 == s
  {
  }

  /**
   * Delete removes exactly the last character of the current guess and of
   * its row, and nothing else; on an empty guess it changes nothing.
   */
  lemma DeleteKey(s: State)
    requires Inv(s)
    ensures Key(s, "Delete").1 == None
    ensures s.current == "" ==> Key(s, "Delete").0 == s
    ensures s.current != "" ==>
      var t := Key(s, "Delete").0;
      && t.current + [s.current[|s.current| - 1]] == s.current
      && t == s.(current := t.current, guesses := s.guesses[s.index := t.current])
  {
  }

  /**
   * A submission raises TooShort exactly when the guess is short and
   * NotInWordList exactly when a full guess shares no letter with the
   * target; a submission that raises a notice changes nothing.
   */
  lemma SubmitRejects(s: State)
    requires Indexable(s)
    ensures Submit(s).1 == Some(TooShort) <==> |s.current| < WordLength
    ensures Submit(s).1 == Some(NotInWordList) <==> |s.current| >= WordLength && !ContainsValidLetter(s.current)
    ensures Submit(s).1 != None ==> Submit(s).0 == s
  {
  }

  /**
   * Submitting the target opens the dialog and flags the row being edited,
   * on the extra row past the last one too; the index, the guess, the row
   * texts and every other flag stay as they were.
   */
  lemma SubmitWins(s: State)
    requires Inv(s) && s.current == Target
    ensures var (t, n) := Submit(s);
      && n == None
      && t.modalOpen
      && t.index == s.index && t.current == s.current && t.guesses == s.guesses
      && |t.submitted| == (if s.index < |s.submitted| then |s.submitted| else |s.submitted| + 1)
      && t.submitted[s.index]
      && (forall j :: 0 <= j < |s.submitted| && j != s.index ==> t.submitted[j] == s.submitted[j])
  {
  }

  /**
   * An accepted guess other than the target, on one of the MaxGuesses rows,
   * flags that row only, advances the index by one and empties the guess;
   * the submitted row keeps its text and the dialog flag is unchanged.
   */
  lemma SubmitAdvances(s: State)
    requires Inv(s) && Accepted(s.current) && s.current != Target && s.index < MaxGuesses
    ensures var (t, n) := Submit(s);
      && n == None
      && t.index == s.index + 1
      && t.current == ""
      && t.modalOpen == s.modalOpen
      && |t.submitted| == |s.submitted|
      && t.submitted[s.index]
      && (forall j :: 0 <= j < |s.submitted| && j != s.index ==> t.submitted[j] == s.submitted[j])
      && t.guesses[s.index] == s.current
      && (forall j :: 0 <= j < |s.guesses| ==> t.guesses[j] == s.guesses[j])
  {
  }

  /**
   * Once the index has reached MaxGuesses, a submission other than the
   * target changes nothing: nothing is flagged and the index stays put.
   */
  lemma SubmitIgnoredWhenExhausted(s: State)
    requires Inv(s) && s.index == MaxGuesses && s.current != Target
    ensures Submit(s).0 == s
  {
  }

  /** No key looks at the dialog flag: with it open or closed a key has the same effect on the rest. */
  lemma KeysIgnoreModal(s: State, key: string, open: bool)
    requires Indexable(s)
    ensures Key(s.(modalOpen := open), key).1 == Key(s, key).1
    ensures Key(s.(modalOpen := open), key).0.(modalOpen := false) == Key(s, key).0.(modalOpen := false)
  {
  }

  /** Only Enter on the target opens the dialog, and no key closes it. */
  lemma ModalOpensOnlyOnWin(s: State, key: string)
    requires Indexable(s)
    ensures Key(s, key).0.modalOpen <==> s.modalOpen || (key == "Enter" && s.current == Target)
  {
  }

  /**
   * The board shows MaxGuesses rows, and one more once the index has run
   * past the last row. Every row before the index is coloured and neither
   * all Green nor all Gray; every row after it is blank.
   */
  lemma BoardRows(s: State)
    requires Inv(s)
    ensures |Board(s)| == if s.index < MaxGuesses then MaxGuesses else MaxGuesses + 1
    ensures forall j :: 0 <= j < s.index ==>
      Board(s)[j] != Uniform(Green) && Board(s)[j] != Uniform(Gray) && Board(s)[j] != Uniform(Blank)
    ensures forall j :: s.index < j < |Board(s)| ==> Board(s)[j] == Uniform(Blank)
  {
    forall j | 0 <= j < s.index
      ensures Board(s)[j] != Uniform(Green) && Board(s)[j] != Uniform(Gray) && Board(s)[j] != Uniform(Blank)
    {
      assert Board(s)[j] == RowColors(s.guesses[j], true);
      AllGreenIffTarget(s.guesses[j]);
      ValidLetterIffNotAllGray(s.guesses[j]);
      SubmittedCellColor(s.guesses[j], 0);
    }
    forall j | s.index < j < |Board(s)|
      ensures Board(s)[j] == Uniform(Blank)
    {
      UnsubmittedRowIsBlank(s.guesses[j]);
    }
  }

  /** After a winning submission the row being edited shows all Green. */
  lemma WinningRowAllGreen(s: State)
    requires Inv(s) && s.current == Target
    ensures Board(Submit(s).0)[s.index] == Uniform(Green)
  {
  }
}
