# Aura: a model of the application's state and handlers

Aura is a single-page productivity app. It has four parts:

- a to-do list;
- flashcard decks, with a viewer that steps through the cards of one deck;
- notes, with search and pinning;
- a pomodoro timer with session statistics.

All of it lives in `assets/js/app.js`. This project models the state kept in that file and what each event handler does to it, and proves properties of that model in Dafny.

The project is split into modules:

- `Base` (`base.dfy`): an optional value, and `splice(i, 1)` as `RemoveAt`.
- `Text` (`text.dfy`): the string operations the handlers use.
  - ECMAScript `trim`, with its full set of white-space and line-terminator code points.
  - ASCII lower-casing.
  - `includes`.
  - `String(n)` and `padStart(2, "0")`.
- `Flashcards` (`flashcards.dfy`): the card value and the viewer's wrap-around cursor.
- `Notes` (`notes.dfy`): the listing rule of the notes screen and the card preview.
  - The listing indexes the notes, filters them, and sorts them stably.
  - The preview strips tags, cuts to 80 characters and adds an ellipsis.
- `Pomodoro` (`pomodoro.dfy`): the timer as transitions of a `Clock` value.
  - The configured duration and the `MM:SS` display.
  - The rounding of the focused-minutes statistic.
  - Start/pause, one interval firing, and reset.
- `App` (`app.dfy`): the application state as a class `Aura`.
  - Its fields are the script's global variables, plus the few DOM flags the handlers consult. These are the deck viewer being the shown screen, the card modal's visibility and `data-mode`, and the note editor's overlay, `data-editing` and pin button.
  - Each event handler is a method with a field-level `modifies` frame.
  - Every method keeps `Valid()`:
    - an open viewer shows an existing deck, with the cursor at 0 or on one of its cards;
    - an editor opened on a note edits an existing slot;
    - the timer has `0 <= remaining <= total`, and a running timer has time left.

Inputs from the user and the browser arrive as method parameters:

- the results of `prompt` and `confirm`;
- the values in the card modal and the note editor at the moment of saving;
- `Date.now()`;
- the timer's hour and minute inputs, as integers.

The timer's interval is modelled by the `running` flag. Each firing of the interval is one call of `Tick`, which requires the flag to be set.

The model keeps these behaviours of the code, though they may look unintended:

- **To-dos:** a to-do answer made only of white space is appended as an empty task. Only a dismissed or empty prompt is ignored.
- **Notes:**
  - A note has no identity of its own; it is known by its array position.
  - Search matches the content with its markup included.
  - Pinning changes only the editor's draft. The pin is stored, with a fresh `updatedAt`, when the note is saved.
- **Timer:**
  - The display has no hours field. An hour shows as `60:00`.
  - "Start" after a pause does not resume: it re-reads the duration and starts again from the full total.

## Model

| member | source | states |
|---|---|---|
| Base.RemoveAt | assets/js/app.js:182 | removing at `i` drops exactly the element at `i` (everything before stays, everything after moves down one); an index past the end changes nothing |
| Base.RemoveAtMultiset | assets/js/app.js:182 | a removal takes out one occurrence of the removed element and nothing else |
| Base.RemoveAtAppended | assets/js/app.js:197 | removing the element just appended restores the sequence |
| Text.TrimStartSpec | assets/js/app.js:197 | the leading part `trimStart` drops is white space and what it keeps is a suffix not starting with white space |
| Text.TrimEndSpec | assets/js/app.js:197 | the trailing part `trimEnd` drops is white space and what it keeps is a prefix not ending with white space |
| Text.TrimIsTrim | assets/js/app.js:197 | `trim` returns a slice with only white space around it and non-white characters at both ends |
| Text.TrimCut | assets/js/app.js:247 | gives the two cut positions of `trim` |
| Text.TrimWitness | assets/js/app.js:247 | any slice with white space around it and non-white ends is what `trim` returns |
| Text.TrimPadded | assets/js/app.js:247 | white space typed around a name with non-white ends trims back to that name |
| Text.TrimOfUnique | assets/js/app.js:247 | the characterisation of `trim` has only one solution |
| Text.TrimEmptyIffWhite | assets/js/app.js:247-248 | a string trims to the empty string if and only if it is all white space |
| Text.TrimIdempotent | assets/js/app.js:416 | trimming twice is trimming once |
| Text.Trim | assets/js/app.js:197 | `trim`: `TrimEnd` of `TrimStart`; its meaning is stated by `TrimIsTrim` and `TrimWitness` |
| Text.LowerChar | assets/js/app.js:468 | an ASCII capital becomes its small letter, 32 code points higher; every other character is kept; the result is never a capital |
| Text.Lower | assets/js/app.js:468-473 | lower-casing keeps the length and maps each character |
| Text.LowerIdempotent | assets/js/app.js:468-473 | lower-casing twice is lower-casing once |
| Text.IndexOfChar | assets/js/app.js:485 | the first occurrence of a character: it is there and none comes before it |
| Text.IndexOfCharAt | assets/js/app.js:485 | an occurrence with none before it is the first |
| Text.Contains | assets/js/app.js:471-473 | `includes`: tries each starting position from the left; its meaning is stated by `ContainsIff` |
| Text.ContainsIff | assets/js/app.js:471-473 | `includes` holds if and only if the query occurs at some position |
| Text.ContainsEmpty | assets/js/app.js:469 | every string includes the empty query |
| Text.NatToString | assets/js/app.js:638 | `String(n)` is a non-empty string of digits with no leading zero, one digit exactly when `n < 10` |
| Text.NatToStringRoundTrip | assets/js/app.js:638 | reading `String(n)` back gives `n` |
| Text.ParseLeadingZero | assets/js/app.js:638 | a leading zero does not change a numeral's value |
| Text.PadStart2 | assets/js/app.js:638 | `padStart(2, "0")` is at least two long, ends with the input and is zeros before it |
| Text.Pad2 | assets/js/app.js:638 | the padded numeral reads back as `n` and is exactly two long if and only if `n < 100` |
| Flashcards.NextIndex | assets/js/app.js:309-316 | "next" moves to the following position and wraps from the last to 0, always staying in the deck |
| Flashcards.PrevIndex | assets/js/app.js:319-328 | "prev" moves to the preceding position and wraps from 0 to the last, always staying in the deck |
| Flashcards.PrevAfterNext | assets/js/app.js:309-328 | "prev" undoes "next" |
| Flashcards.NextAfterPrev | assets/js/app.js:309-328 | "next" undoes "prev" |
| Flashcards.AdvanceAdds | assets/js/app.js:309-316 | `a` presses of "next" and then `b` presses are `a + b` presses |
| Flashcards.AdvanceWithinDeck | assets/js/app.js:309-316 | before the end of the deck, `k` presses move the cursor on by `k` |
| Flashcards.FullCycle | assets/js/app.js:309-316 | as many presses of "next" as the deck has cards come back to the starting card |
| Notes.Indexed | assets/js/app.js:465 | each note is paired with its own array index, in array order |
| Notes.Matches | assets/js/app.js:467-474 | the filter callback: the lower-cased query is empty or occurs in the lower-cased title, content or tags |
| Notes.MatchesIgnoresQueryCase | assets/js/app.js:468 | the query's ASCII case makes no difference to what matches |
| Notes.FilterMatching | assets/js/app.js:466-475 | the kept entries are exactly the entries that match the lower-cased query in title, content or tags |
| Notes.FilterIncreasing | assets/js/app.js:466-475 | filtering keeps the entries in their original order |
| Notes.EmptyQueryKeepsAll | assets/js/app.js:469 | an empty query keeps every entry |
| Notes.Precedes | assets/js/app.js:476-479 | the comparator is negative: a pinned note before an unpinned one, otherwise the later `updatedAt` first |
| Notes.BeforeIrreflexive | assets/js/app.js:476-479 | no entry comes before itself in the listing order |
| Notes.BeforeTransitive | assets/js/app.js:476-479 | the listing order is transitive |
| Notes.ConsSorted | assets/js/app.js:476-479 | an entry before all the others can be put in front of a sorted sequence |
| Notes.Insert | assets/js/app.js:476-479 | insertion adds exactly the one entry |
| Notes.InsertMembers | assets/js/app.js:476-479 | after insertion the entries are the old ones plus the new one |
| Notes.InsertSorted | assets/js/app.js:476-479 | inserting an entry with the lowest index into a sorted sequence keeps it sorted, ties included (stability) |
| Notes.SortEntries | assets/js/app.js:476-479 | sorting is a permutation |
| Notes.SortMembers | assets/js/app.js:476-479 | sorting keeps exactly the same entries |
| Notes.SortSorted | assets/js/app.js:476-479 | sorting entries given in index order yields pinned first, then `updatedAt` descending, ties in index order |
| Notes.ListNotes | assets/js/app.js:462-479 | the listing holds exactly the matching notes with their indices, pinned before unpinned, newer before older, ties in array order |
| Notes.ListingIsPermutation | assets/js/app.js:462-479 | the listing is a rearrangement of the filtered entries |
| Notes.EmptyQueryListsAll | assets/js/app.js:469 | with no query every note is listed once |
| Notes.TailMembers | assets/js/app.js:476-479 | in a sorted sequence the tail holds every entry except the head |
| Notes.SortedUnique | assets/js/app.js:476-479 | two sorted sequences with the same entries are equal |
| Notes.ListingDetermined | assets/js/app.js:462-479 | any sequence of exactly the matching notes in listing order is the listing |
| Notes.PinnedBeforeRecent | assets/js/app.js:477 | a pinned note updated at time 1 is listed before an unpinned note updated at 100 |
| Notes.TagOnlyMatch | assets/js/app.js:473 | a query found only in the tags lists the note |
| Notes.StripTags | assets/js/app.js:485 | stripping never lengthens the text, adds no character, and leaves no `<…>` match |
| Notes.StripKeepsPlain | assets/js/app.js:485 | text without a tag comes out unchanged |
| Notes.StripIdempotent | assets/js/app.js:485 | stripping twice is stripping once |
| Notes.StripKeptHead | assets/js/app.js:485 | a first character that cannot open a match, not '<' or '<' with no later '>', is kept |
| Notes.StripKeepsPlainPrefix | assets/js/app.js:485 | text with no '<' is kept unchanged in front of what the rest becomes |
| Notes.StripRemovesTag | assets/js/app.js:485 | a run `<...>` with no '>' inside is removed and nothing else |
| Notes.StripKeepsUnclosed | assets/js/app.js:485 | a '<' with no later '>' is kept as text |
| Notes.StripExample | assets/js/app.js:485 | `a<b>c` strips to `ac` |
| Notes.Preview | assets/js/app.js:485-492 | a stripped text shorter than 80 is shown whole; otherwise its first 80 characters are shown, followed by "..." |
| Pomodoro.CustomTime | assets/js/app.js:622-628 | `h*3600 + m*60` when that is positive, else 1500; never zero |
| Pomodoro.Display | assets/js/app.js:633-639 | `updateTimerDisplay`: the padded whole minutes, a colon, the padded seconds; its meaning is stated by `DisplayRoundTrip`, `DisplayWidth` and `OneHourShowsSixtyMinutes` |
| Pomodoro.ParseClockJoin | assets/js/app.js:638 | two numerals joined by ':' read back as minutes and seconds |
| Pomodoro.DisplayRoundTrip | assets/js/app.js:633-639 | the `MM:SS` display reads back as the remaining seconds: it loses nothing |
| Pomodoro.DisplayWidth | assets/js/app.js:633-639 | below 100 minutes the display is five characters with the colon in the middle |
| Pomodoro.OneHourShowsSixtyMinutes | assets/js/app.js:634-638 | 3600 seconds show as "60:00": there is no hours field |
| Pomodoro.FocusedMinutes | assets/js/app.js:668 | the nearest whole number of minutes, half a minute rounding up |
| Pomodoro.Toggle | assets/js/app.js:675-720 | pausing only clears `running`; starting sets the total from the inputs and restarts; statistics and validity are kept |
| Pomodoro.Tick | assets/js/app.js:693-717 | a firing takes one second off; the firing that reaches 0 clamps to 0, stops, and adds one session of `total` seconds |
| Pomodoro.Reset | assets/js/app.js:725-738 | reset stops the timer and shows the re-read duration in full, with the statistics unchanged |
| Pomodoro.TicksAdd | assets/js/app.js:693-717 | `a` firings and then `b` are `a + b` firings |
| Pomodoro.TicksBeforeEnd | assets/js/app.js:693-717 | while time is left each firing takes one second and commits nothing |
| Pomodoro.RunOfTicks | assets/js/app.js:693-717 | a running session commits exactly once, at 0, however many more firings follow |
| Pomodoro.PauseCommitsNothing | assets/js/app.js:679-684 | a pause part-way through keeps the remaining time and commits nothing |
| Pomodoro.StartAfterPauseRestarts | assets/js/app.js:675-691 | start after pause runs from the full re-read duration |
| Pomodoro.ResetIdempotent | assets/js/app.js:725-738 | resetting twice is resetting once |
| Pomodoro.FiveSecondSession | assets/js/app.js:693-717 | five firings finish a five-second session and commit it once; a pause after two keeps three seconds |
| App.NameCheck | assets/js/app.js:245-253 | classifies a prompt answer: cancelled when dismissed or empty, blank when all white space, duplicate when the trimmed name is already a deck, otherwise accepted |
| App.OwnNameRejected | assets/js/app.js:416-422 | renaming a deck to its own name, even with white space around it, is refused as a duplicate |
| App.AcceptedNameIsTrimmed | assets/js/app.js:247-255 | an accepted name becomes a fresh, non-empty key that is its own trim |
| App.PutCard | assets/js/app.js:373-377 | add mode appends; edit mode overwrites the card under the cursor and keeps the others, or appends on an empty deck |
| App.EditTwiceKeepsLast | assets/js/app.js:376 | editing the same card twice keeps only the second version |
| App.AddThenRemoveLast | assets/js/app.js:373-402 | adding a card and then deleting the last position gives back the deck |
| App.Aura.ShownCard | assets/js/app.js:285-301 | a card is shown exactly when the deck has one, and it is the card under the cursor |
| App.Aura.Listing | assets/js/app.js:462-479 | the notes list as rendered: `ListNotes` of the notes and the search query, whose contract states the listing rule |
| App.Aura.constructor | assets/js/app.js:22-37 | start-up from the stored collections and statistics, with a 1500-second timer and nothing open |
| App.Aura.AddTodo | assets/js/app.js:193-200 | a dismissed or empty answer adds nothing; any other answer is appended trimmed |
| App.Aura.RemoveTodo | assets/js/app.js:181-186 | the to-do list loses the task at that position |
| App.Aura.CreateDeck | assets/js/app.js:243-258 | an accepted name adds an empty deck; every other outcome leaves the decks unchanged |
| App.Aura.OpenDeck | assets/js/app.js:264-274 | the viewer shows the deck from card 0 |
| App.Aura.BackToDecks | assets/js/app.js:277-279 | the deck list is shown again |
| App.Aura.NextCard | assets/js/app.js:309-316 | the cursor moves by "next", or stays on an empty deck |
| App.Aura.PrevCard | assets/js/app.js:319-328 | the cursor moves by "prev", or stays on an empty deck |
| App.Aura.OpenAddCard | assets/js/app.js:334-342 | the card modal opens in add mode |
| App.Aura.OpenEditCard | assets/js/app.js:348-359 | the card modal opens in edit mode exactly when the deck has cards |
| App.Aura.CancelCardModal | assets/js/app.js:389-391 | the card modal closes |
| App.Aura.SaveCard | assets/js/app.js:365-386 | saved if and only if both trimmed sides are non-empty; then the open deck becomes `PutCard` of the trimmed card and the modal closes; otherwise nothing changes |
| App.Aura.DeleteCard | assets/js/app.js:397-406 | on a non-empty deck the card under the cursor is removed and the cursor goes to 0; an empty deck is left as it is |
| App.Aura.RenameDeck | assets/js/app.js:412-433 | under an accepted name the cards move to the new key, the old key goes, and the viewer follows; otherwise nothing changes |
| App.Aura.DeleteDeck | assets/js/app.js:439-447 | once confirmed the open deck's key is removed and the deck list is shown; otherwise nothing changes |
| App.Aura.SetSearchQuery | assets/js/app.js:504-507 | the listing becomes the listing for the new query |
| App.Aura.OpenNoteEditor | assets/js/app.js:512-532 | the editor opens on a new note unpinned, or on the chosen slot with that note's pin |
| App.Aura.CloseNoteEditor | assets/js/app.js:539-542 | the editor closes |
| App.Aura.TogglePinDraft | assets/js/app.js:589-593 | the editor's pin flips |
| App.Aura.SaveNote | assets/js/app.js:548-570 | saved if and only if the trimmed title or content is non-empty; then the stamped note is appended or written to its slot and the editor closes; otherwise nothing changes |
| App.Aura.DeleteNote | assets/js/app.js:575-584 | the edited note is removed (nothing for a new note) and the editor closes |
| App.Aura.ToggleTimer | assets/js/app.js:675-720 | the timer's state becomes `Pomodoro.Toggle` of the old state; the statistics are untouched |
| App.Aura.Tick | assets/js/app.js:693-717 | the timer's state becomes `Pomodoro.Tick` of the old state |
| App.Aura.ResetTimer | assets/js/app.js:725-738 | the timer's state becomes `Pomodoro.Reset` of the old state |

## Left out

- Rendering is left out: the DOM, `innerHTML` templates, the "untitled" title placeholder, the "n / len" progress text, the card flip class and screen switching. `ShownCard` and `Listing` are what the views show.
- `localStorage` and JSON are left out. They are I/O: the constructor takes the loaded collections, and each save writes what the fields hold.
- `prompt`, `alert` and `confirm` are browser dialogs. Their answers arrive as parameters.
- `setInterval` and `clearInterval` are modelled only by the `running` flag and the `Tick` method. Wall-clock timing is not modelled.
- The timer ring animation is left out, because it is floating-point geometry.
- Haptics, the rich-text toolbar (`execCommand`), onboarding, the name setting and the theme toggle are left out. They are outside the modelled state.
- `parseInt` of the timer inputs is left out: hours and minutes are already integers.
- Lower: only ASCII letters are lower-cased. Full Unicode case mapping is not modelled.
- Notes.Preview: lengths are counted in Unicode code points. JavaScript's `slice(0, 80)` and `length` count UTF-16 code units, so a text with characters outside the Basic Multilingual Plane is cut at a different place. For example, 40 emoji get "..." in the browser but not in the model. A surrogate pair cut in half cannot be represented at all. `Text.Contains` and `Text.Trim` work on code points too; for their results this makes no difference.
- Pomodoro.Display: JavaScript numbers are doubles, and the model's `nat` and `int` are unbounded. `String(m)` switches to exponent notation from 1e21, and `h * 3600 + m * 60`, `remainingSeconds--` and the statistics sums become inexact past 2^53. Neither effect is modelled, and `Pomodoro.CustomTime` and `Pomodoro.Tick` are exact.
- Deck keys are modelled as a `map`. JavaScript objects also have prototype keys and an enumeration order (integer-like keys first, then insertion order). The deck list's order and an `Object.prototype` name counting as a duplicate are not modelled.
- The note editor's fields are not kept in the model. `SaveNote` receives the title, content markup and tags as they stand when "save" is pressed.
- Viewer, modal and editor handlers require the screen or overlay their button is on to be shown. This is why the missing-deck `TypeError` paths and the sparse-array assignments are not modelled.
