/**
 * The application's state and its event handlers: the to-do list, the
 * decks and the deck viewer, the note editor and the pomodoro timer. The
 * results of `prompt` and `confirm`, the editor's input values, `Date.now()`
 * and the timer's hour and minute inputs arrive as parameters; a scheduled
 * interval is the `running` flag, and each firing is a call of `Tick`.
 */
module App {
  import opened Base
  import opened Text
  import opened Flashcards
  import opened Notes
  import Pomodoro

  /** How a deck name typed into a prompt is judged by "add deck" and "rename deck". */
  datatype NameOutcome =
    | Cancelled   // the prompt was dismissed or left empty
    | Blank       // only white space was typed
    | Duplicate   // the trimmed name is already a deck
    | Accepted

  /**
   * The checks both deck-name handlers make, in their order: a falsy prompt
   * result, a name that trims to nothing, a name already in use.
   */
  function NameCheck(name: Option<string>, decks: map<string, seq<Card>>): (r: NameOutcome)
    ensures r == Cancelled <==> name.None? || name.value == []
    ensures r == Blank <==> name.Some? && name.value != [] && AllWhite(name.value)
    ensures r == Duplicate <==> name.Some? && !AllWhite(name.value) && Trim(name.value) in decks
    ensures r == Accepted <==> name.Some? && !AllWhite(name.value) && Trim(name.value) !in decks
  {
    if name.None? || name.value == [] then Cancelled
    else
      TrimEmptyIffWhite(name.value);
      if Trim(name.value) == [] then Blank
      else if Trim(name.value) in decks then Duplicate
      else Accepted
  }

  /**
   * A deck's own name, even with white space typed around it, is rejected as
   * a duplicate: renaming a deck to itself is refused.
   */
  lemma OwnNameRejected(name: string, w1: string, w2: string, decks: map<string, seq<Card>>)
    requires name in decks && name != [] && !IsWhite(name[0]) && !IsWhite(name[|name| - 1])
    requires AllWhite(w1) && AllWhite(w2)
    ensures NameCheck(Some(w1 + name + w2), decks) == Duplicate
  {
    TrimPadded(w1, name, w2);
    assert (w1 + name + w2)[|w1|] == name[0];
  }

  /** An accepted name is a new key that is its own trim and not blank. */
  lemma AcceptedNameIsTrimmed(name: Option<string>, decks: map<string, seq<Card>>)
    requires NameCheck(name, decks) == Accepted
    ensures name.Some? && Trim(name.value) !in decks
    ensures Trim(name.value) != [] && Trim(Trim(name.value)) == Trim(name.value)
  {
    TrimEmptyIffWhite(name.value);
    TrimIdempotent(name.value);
  }

  /**
   * Saving the card modal: `deck.push(card)` in add mode, `deck[i] = card`
   * otherwise. The viewer's cursor is 0 or a position of the deck, so the
   * assignment overwrites a card or, on an empty deck, appends.
   */
  function PutCard(deck: seq<Card>, mode: CardMode, i: nat, card: Card): (r: seq<Card>)
    requires mode == EditMode ==> CursorFits(i, |deck|)
    ensures mode == AddMode ==> |r| == |deck| + 1 && r[..|deck|] == deck && r[|deck|] == card
    ensures mode == EditMode && i < |deck| ==>
      |r| == |deck| && r[i] == card && forall j :: 0 <= j < |deck| && j != i ==> r[j] == deck[j]
    ensures mode == EditMode && i >= |deck| ==> r == [card]
  {
    if mode == AddMode then deck + [card]
    else if i < |deck| then deck[i := card]
    else [card]
  }

  /** Editing the same card twice keeps only the second version. */
  lemma EditTwiceKeepsLast(deck: seq<Card>, i: nat, c1: Card, c2: Card)
    requires CursorFits(i, |deck|)
    ensures PutCard(PutCard(deck, EditMode, i, c1), EditMode, i, c2) == PutCard(deck, EditMode, i, c2)
  {
  }

  /** Adding a card and deleting the last position gives back the deck. */
  lemma AddThenRemoveLast(deck: seq<Card>, card: Card)
    ensures RemoveAt(PutCard(deck, AddMode, 0, card), |deck|) == deck
  {
    RemoveAtAppended(deck, card);
  }

  /** What the note editor's `data-editing` holds: "new" or the index being edited. */
  datatype EditTarget = NewNote | Slot(k: nat)

  class Aura {
    // the to-do list, `todos`
    var todos: seq<string>
    // `decks`, a name-to-cards object
    var decks: map<string, seq<Card>>
    // the deck viewer: `currentDeck`, `currentCardIndex`, whether it is the shown screen
    var currentDeck: Option<string>
    var currentCardIndex: nat
    var viewerOpen: bool
    // the card modal: visible, and its `data-mode`
    var cardModalOpen: bool
    var cardMode: CardMode
    // `notes`, the search box, and the note editor's overlay, `data-editing` and pin button
    var notes: seq<Note>
    var searchQuery: string
    var editorOpen: bool
    var editing: EditTarget
    var pinDraft: bool
    // the timer: `totalSeconds`, `remainingSeconds`, a scheduled interval, `pomodoroStats`
    var totalSeconds: nat
    var remainingSeconds: nat
    var running: bool
    var sessions: nat
    var focusedSeconds: nat

    /**
     * An open viewer shows an existing deck with the cursor on one of its
     * cards (or at 0); an editor opened on a note edits an existing slot;
     * the timer's state is consistent.
     */
    ghost predicate Valid()
      reads this
    {
      (viewerOpen ==>
         currentDeck.Some? && currentDeck.value in decks
         && CursorFits(currentCardIndex, |decks[currentDeck.value]|))
      && (editorOpen && editing.Slot? ==> editing.k < |notes|)
      && Pomodoro.Valid(Timer())
    }

    /** The timer's variables as one value. */
    function Timer(): Pomodoro.Clock
      reads this
    {
      Pomodoro.Clock(totalSeconds, remainingSeconds, running, sessions, focusedSeconds)
    }

    /** `decks[currentDeck]` while the viewer is open. */
    function Deck(): seq<Card>
      requires Valid() && viewerOpen
      reads this
    {
      decks[currentDeck.value]
    }

    /** The card the viewer shows, if the open deck has any. */
    function ShownCard(): (r: Option<Card>)
      requires Valid() && viewerOpen
      reads this
      ensures r.Some? <==> |Deck()| > 0
      ensures r.Some? ==> currentCardIndex < |Deck()| && r.value == Deck()[currentCardIndex]
    {
      if |Deck()| == 0 then None else Some(Deck()[currentCardIndex])
    }

    /** The notes list as shown: the search applied, pinned first, newest first. */
    function Listing(): seq<Entry>
      reads this
    {
      ListNotes(notes, searchQuery)
    }

    /** Start-up: the stored collections and statistics, a 25-minute timer, nothing open. */
    constructor (todos0: seq<string>, decks0: map<string, seq<Card>>, notes0: seq<Note>, sessions0: nat, seconds0: nat)
      ensures Valid()
      ensures todos == todos0 && decks == decks0 && notes == notes0
      ensures sessions == sessions0 && focusedSeconds == seconds0
      ensures totalSeconds == Pomodoro.DefaultSeconds && remainingSeconds == totalSeconds && !running
      ensures currentDeck == None && currentCardIndex == 0 && !viewerOpen
      ensures !cardModalOpen && cardMode == EditMode
      ensures searchQuery == [] && !editorOpen && editing == NewNote && !pinDraft
    {
      todos := todos0;
      decks := decks0;
      currentDeck := None;
      currentCardIndex := 0;
      viewerOpen := false;
      cardModalOpen := false;
      cardMode := EditMode;
      notes := notes0;
      searchQuery := [];
      editorOpen := false;
      editing := NewNote;
      pinDraft := false;
      totalSeconds := Pomodoro.DefaultSeconds;
      remainingSeconds := Pomodoro.DefaultSeconds;
      running := false;
      sessions := sessions0;
      focusedSeconds := seconds0;
    }

    // ---------------------------------------------------------------------
    // to-do list
    // ---------------------------------------------------------------------

    /**
     * "add task": a dismissed or empty prompt adds nothing; any other answer
     * is appended trimmed, so white space alone adds an empty task.
     */
    method AddTodo(text: Option<string>) returns (added: bool)
      requires Valid()
      modifies this`todos
      ensures Valid()
      ensures added <==> text.Some? && text.value != []
      ensures added ==> todos == old(todos) + [Trim(text.value)]
      ensures !added ==> todos == old(todos)
    {
      if text.None? || text.value == [] {
        return false;
      }
      todos := todos + [Trim(text.value)];
      added := true;
    }

    /** A task's "x" button: `todos.splice(i, 1)`. */
    method RemoveTodo(i: nat)
      requires Valid()
      modifies this`todos
      ensures Valid()
      ensures todos == RemoveAt(old(todos), i)
    {
      todos := RemoveAt(todos, i);
    }

    // ---------------------------------------------------------------------
    // decks
    // ---------------------------------------------------------------------

    /** "add deck": an accepted name becomes a new, empty deck. */
    method CreateDeck(name: Option<string>) returns (outcome: NameOutcome)
      requires Valid()
      modifies this`decks
      ensures Valid()
      ensures outcome == NameCheck(name, old(decks))
      ensures outcome == Accepted ==> decks == old(decks)[Trim(name.value) := []]
      ensures outcome != Accepted ==> decks == old(decks)
    {
      outcome := NameCheck(name, decks);
      if outcome == Accepted {
        decks := decks[Trim(name.value) := []];
      }
    }

    /** Clicking a deck: show it from its first card. */
    method OpenDeck(name: string)
      requires Valid() && name in decks
      modifies this`currentDeck, this`currentCardIndex, this`viewerOpen
      ensures Valid()
      ensures currentDeck == Some(name) && currentCardIndex == 0 && viewerOpen
    {
      currentDeck := Some(name);
      currentCardIndex := 0;
      viewerOpen := true;
    }

    /** "back": the deck list again; the viewer's deck and cursor are kept. */
    method BackToDecks()
      requires Valid()
      modifies this`viewerOpen
      ensures Valid()
      ensures !viewerOpen
    {
      viewerOpen := false;
    }

    /** "next": on to the following card, from the last back to the first. */
    method NextCard()
      requires Valid() && viewerOpen
      modifies this`currentCardIndex
      ensures Valid()
      ensures |Deck()| == 0 ==> currentCardIndex == old(currentCardIndex)
      ensures |Deck()| > 0 ==> currentCardIndex == NextIndex(old(currentCardIndex), |Deck()|)
    {
      var deck := decks[currentDeck.value];
      if |deck| == 0 {
        return;
      }
      currentCardIndex := NextIndex(currentCardIndex, |deck|);
    }

    /** "prev": back to the preceding card, from the first to the last. */
    method PrevCard()
      requires Valid() && viewerOpen
      modifies this`currentCardIndex
      ensures Valid()
      ensures |Deck()| == 0 ==> currentCardIndex == old(currentCardIndex)
      ensures |Deck()| > 0 ==> currentCardIndex == PrevIndex(old(currentCardIndex), |Deck()|)
    {
      var deck := decks[currentDeck.value];
      if |deck| == 0 {
        return;
      }
      currentCardIndex := PrevIndex(currentCardIndex, |deck|);
    }

    /** "add card": the modal, in add mode. */
    method OpenAddCard()
      requires Valid() && viewerOpen
      modifies this`cardModalOpen, this`cardMode
      ensures Valid()
      ensures cardModalOpen && cardMode == AddMode
    {
      cardMode := AddMode;
      cardModalOpen := true;
    }

    /** "edit card": the modal, in edit mode; nothing happens on an empty deck. */
    method OpenEditCard() returns (shown: bool)
      requires Valid() && viewerOpen
      modifies this`cardModalOpen, this`cardMode
      ensures Valid()
      ensures shown <==> |Deck()| > 0
      ensures shown ==> cardModalOpen && cardMode == EditMode
      ensures !shown ==> cardModalOpen == old(cardModalOpen) && cardMode == old(cardMode)
    {
      if |decks[currentDeck.value]| == 0 {
        return false;
      }
      cardMode := EditMode;
      cardModalOpen := true;
      shown := true;
    }

    /** "cancel" on the card modal. */
    method CancelCardModal()
      requires Valid()
      modifies this`cardModalOpen
      ensures Valid()
      ensures !cardModalOpen
    {
      cardModalOpen := false;
    }

    /**
     * "save" on the card modal: both sides are trimmed and both must be left
     * non-empty; the card is then added or written at the cursor and the modal
     * closes. A rejected save keeps the modal open and changes nothing.
     */
    method SaveCard(front: string, back: string) returns (saved: bool)
      requires Valid() && viewerOpen && cardModalOpen
      modifies this`decks, this`cardModalOpen
      ensures Valid()
      ensures saved <==> Trim(front) != [] && Trim(back) != []
      ensures saved ==> !cardModalOpen && decks == old(decks)[currentDeck.value :=
        PutCard(old(Deck()), cardMode, currentCardIndex, Card(Trim(front), Trim(back)))]
      ensures !saved ==> cardModalOpen && decks == old(decks)
    {
      var f, b := Trim(front), Trim(back);
      if f == [] || b == [] {
        return false;
      }
      var name := currentDeck.value;
      decks := decks[name := PutCard(decks[name], cardMode, currentCardIndex, Card(f, b))];
      cardModalOpen := false;
      saved := true;
    }

    /** "delete card": removes the card under the cursor and goes back to the first card. */
    method DeleteCard()
      requires Valid() && viewerOpen
      modifies this`decks, this`currentCardIndex
      ensures Valid()
      ensures |old(Deck())| == 0 ==> decks == old(decks) && currentCardIndex == old(currentCardIndex)
      ensures |old(Deck())| > 0 ==>
        old(currentCardIndex) < |old(Deck())|
        && decks == old(decks)[currentDeck.value := RemoveAt(old(Deck()), old(currentCardIndex))]
        && currentCardIndex == 0
    {
      var name := currentDeck.value;
      if |decks[name]| == 0 {
        return;
      }
      decks := decks[name := RemoveAt(decks[name], currentCardIndex)];
      currentCardIndex := 0;
    }

    /**
     * "rename deck": under an accepted name the open deck's cards move to the
     * new key, the old key goes, and the viewer follows the deck.
     */
    method RenameDeck(newName: Option<string>) returns (outcome: NameOutcome)
      requires Valid() && viewerOpen
      modifies this`decks, this`currentDeck
      ensures Valid()
      ensures outcome == NameCheck(newName, old(decks))
      ensures outcome == Accepted ==>
        decks == (old(decks) - {old(currentDeck.value)})[Trim(newName.value) := old(Deck())]
        && currentDeck == Some(Trim(newName.value))
      ensures outcome == Accepted ==> decks.Keys == old(decks).Keys - {old(currentDeck.value)} + {Trim(newName.value)}
      ensures outcome != Accepted ==> decks == old(decks) && currentDeck == old(currentDeck)
    {
      outcome := NameCheck(newName, decks);
      if outcome != Accepted {
        return;
      }
      var trimmed := Trim(newName.value);
      var old_name := currentDeck.value;
      decks := (decks - {old_name})[trimmed := decks[old_name]];
      currentDeck := Some(trimmed);
    }

    /**
     * "delete deck": once confirmed the open deck is removed and the deck
     * list is shown; `currentDeck` still names the removed deck.
     */
    method DeleteDeck(confirmed: bool)
      requires Valid() && viewerOpen
      modifies this`decks, this`viewerOpen
      ensures Valid()
      ensures confirmed ==> decks == old(decks) - {currentDeck.value} && !viewerOpen
      ensures !confirmed ==> decks == old(decks) && viewerOpen
    {
      if !confirmed {
        return;
      }
      decks := decks - {currentDeck.value};
      viewerOpen := false;
    }

    // ---------------------------------------------------------------------
    // notes
    // ---------------------------------------------------------------------

    /** Typing into the search box. */
    method SetSearchQuery(q: string)
      requires Valid()
      modifies this`searchQuery
      ensures Valid()
      ensures searchQuery == q
      ensures Listing() == ListNotes(notes, q)
    {
      searchQuery := q;
    }

    /** "add note" (no index) or clicking a listed note: the editor, on a new note or that slot. */
    method OpenNoteEditor(index: Option<nat>)
      requires Valid()
      requires index.Some? ==> index.value < |notes|
      modifies this`editorOpen, this`editing, this`pinDraft
      ensures Valid()
      ensures editorOpen
      ensures index.None? ==> editing == NewNote && !pinDraft
      ensures index.Some? ==> editing == Slot(index.value) && pinDraft == notes[index.value].pinned
    {
      editorOpen := true;
      if index.None? {
        editing := NewNote;
        pinDraft := false;
      } else {
        editing := Slot(index.value);
        pinDraft := notes[index.value].pinned;
      }
    }

    /** Closing the editor without saving. */
    method CloseNoteEditor()
      requires Valid()
      modifies this`editorOpen
      ensures Valid()
      ensures !editorOpen
    {
      editorOpen := false;
    }

    /** The editor's pin button flips the pin that the next save stores. */
    method TogglePinDraft()
      requires Valid()
      modifies this`pinDraft
      ensures Valid()
      ensures pinDraft == !old(pinDraft)
    {
      pinDraft := !pinDraft;
    }

    /**
     * "save" in the editor: title, content markup and tags are trimmed; a note
     * whose title and content are both empty is not saved. Otherwise the note,
     * stamped with `now`, is appended or written to the edited slot and the
     * editor closes.
     */
    method SaveNote(title: string, content: string, tags: string, now: int) returns (saved: bool)
      requires Valid() && editorOpen
      modifies this`notes, this`editorOpen
      ensures Valid()
      ensures saved <==> Trim(title) != [] || Trim(content) != []
      ensures !saved ==> notes == old(notes) && editorOpen
      ensures saved ==> !editorOpen
      ensures saved && editing.NewNote? ==>
        notes == old(notes) + [Note(Trim(title), Trim(content), Trim(tags), pinDraft, now)]
      ensures saved && editing.Slot? ==>
        notes == old(notes)[editing.k := Note(Trim(title), Trim(content), Trim(tags), pinDraft, now)]
    {
      var t, c, g := Trim(title), Trim(content), Trim(tags);
      if t == [] && c == [] {
        return false;
      }
      var note := Note(t, c, g, pinDraft, now);
      if editing.NewNote? {
        notes := notes + [note];
      } else {
        notes := notes[editing.k := note];
      }
      editorOpen := false;
      saved := true;
    }

    /** "delete" in the editor: removes the edited note (nothing for a new one) and closes. */
    method DeleteNote()
      requires Valid() && editorOpen
      modifies this`notes, this`editorOpen
      ensures Valid()
      ensures !editorOpen
      ensures editing.NewNote? ==> notes == old(notes)
      ensures editing.Slot? ==> notes == RemoveAt(old(notes), editing.k) && |notes| == |old(notes)| - 1
    {
      if editing.Slot? {
        notes := RemoveAt(notes, editing.k);
      }
      editorOpen := false;
    }

    // ---------------------------------------------------------------------
    // timer
    // ---------------------------------------------------------------------

    /** "start" / "pause". */
    method ToggleTimer(h: int, m: int)
      requires Valid()
      modifies this`totalSeconds, this`remainingSeconds, this`running
      ensures Valid()
      ensures Timer() == Pomodoro.Toggle(old(Timer()), h, m)
    {
      if running {
        running := false;
      } else {
        var t := Pomodoro.CustomTime(h, m);
        totalSeconds := t;
        remainingSeconds := t;
        running := true;
      }
    }

    /** One firing of the scheduled interval. */
    method Tick()
      requires Valid() && running
      modifies this`remainingSeconds, this`running, this`sessions, this`focusedSeconds
      ensures Valid()
      ensures Timer() == Pomodoro.Tick(old(Timer()))
    {
      var left := remainingSeconds - 1;
      if left <= 0 {
        remainingSeconds := 0;
        running := false;
        sessions := sessions + 1;
        focusedSeconds := focusedSeconds + totalSeconds;
      } else {
        remainingSeconds := left;
      }
    }

    /** "reset". */
    method ResetTimer(h: int, m: int)
      requires Valid()
      modifies this`totalSeconds, this`remainingSeconds, this`running
      ensures Valid()
      ensures Timer() == Pomodoro.Reset(old(Timer()), h, m)
    {
      var t := Pomodoro.CustomTime(h, m);
      running := false;
      totalSeconds := t;
      remainingSeconds := t;
    }
  }
}
