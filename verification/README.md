# Focused-cell history

A model of the notebook editor's cell navigation history
(`assets/js/lib/history.js`, class `History`). The history is a bounded
back-navigation stack of `{cellId, line}` entries, oldest first, with a cursor
`index` on the current entry (-1 when there is none).

- `saveCell(cellId, line)` records a visit. It does nothing when the current
  entry already is that visit. Otherwise it drops the entries ahead of the cursor,
  appends the visit, makes it current, and evicts the oldest entry beyond 20.
- `destroy()` clears the history.
- `removeAllFromCell(cellId)` forgets a deleted cell. It first finds the nearest
  entry of another cell at or before the cursor (the anchor), then removes every
  entry of the cell and puts the cursor on the anchor.
- `canGoBack()` and `goBack()` step backwards, staying on the oldest entry. They
  use the direction-generic helpers `canGetFromHistory` and `getFromHistory`.

The project has two modules:

- `HistoryModel` (`history_model.dfy`) holds the state as a value, `Snapshot`
  (entries and cursor), and the invariant `Invariant`. It also holds a
  declarative definition of what each operation does to a snapshot (`Saved`,
  `Removed`, `Got`) and the lemmas about those definitions.
- `HistoryStack` (`history.dfy`) holds the class `History`. Its fields `entries`
  (a `seq`) and `index` (an `int`) are updated step by step as the JavaScript does.
  Each method keeps `Valid()`. `SaveCell`, `RemoveAllFromCell`, `GoBack` and
  `GetFromHistory` are proved to leave exactly the snapshot that the matching
  `HistoryModel` function (`Saved`, `Removed`, `Got`) gives for the old state; the
  constructor and `Destroy` leave the empty snapshot. JavaScript's
  `array[i]`, which yields `undefined` outside the array, is `HistoryModel.At`,
  which yields `None`.

The two client methods `BranchTruncationClient` and `ForgetClient` replay two
usage scenarios through the class's contracts alone. The first records A:1
and A:2, goes back, then records A:3, which leaves `[A:1, A:3]`. The second
records A:1, B:1 and A:2 and forgets A, which leaves `[B:1]` with the cursor on
it.

Behaviour of the code worth knowing:

- Forgetting a cell on an empty history throws. The backward walk reads the
  `cellId` of `entries[-1]`, which is `undefined`. The model makes this case part
  of the precondition `HasAnchor`.
- Two equal entries can end up side by side. Recording never does this
  (`SavedKeepsNoRepeats`), but forgetting can: visiting A, B, A and then
  forgetting B leaves A, A (`RemovedCanRepeat`).
- The capacity is the literal 20 (`HistoryModel.Capacity`).

## Model

| member | source | states |
|---|---|---|
| HistoryStack.History.constructor | assets/js/lib/history.js:6-9 | a new history is valid, with no entries and cursor -1 |
| HistoryStack.History.SaveCell | assets/js/lib/history.js:17-30 | keeps the invariant and leaves exactly the snapshot `Saved` gives for the old one |
| HistoryStack.History.Destroy | assets/js/lib/history.js:35-38 | leaves a valid, empty history with cursor -1 |
| HistoryStack.History.RemoveAllFromCell | assets/js/lib/history.js:43-57 | under `HasAnchor`, the backward-walk loop stops exactly at the nearest entry of another cell; the new state is `Removed` of the old one and keeps the invariant |
| HistoryStack.History.CanGoBack | assets/js/lib/history.js:62-64 | for a valid history, true exactly when there is at least one entry |
| HistoryStack.History.GoBack | assets/js/lib/history.js:72-74 | the new state and the result are `Got(old, -1)`: clamped step back, or None and no change |
| HistoryStack.History.GetFromHistory | assets/js/lib/history.js:77-82 | the new state and the result are `Got(old, direction)`, and the invariant is kept |
| HistoryStack.History.CanGetFromHistory | assets/js/lib/history.js:85-91 | for a valid history, the JavaScript checks (cursor not -1, entries not empty, clamped target defined) amount to: some entry exists and `index + direction` is below the length |
| HistoryStack.History.IsTheSameLastEntry | assets/js/lib/history.js:94-102 | true exactly when the cursor is on an entry and that entry equals (cellId, line) |
| HistoryModel.Saved | assets/js/lib/history.js:17-30 | keeps the invariant; afterwards the current entry is the recorded visit, and when it was not current before, the cursor is on the last entry |
| HistoryModel.SavedIdempotent | assets/js/lib/history.js:18 | recording the same visit twice in a row changes nothing the second time |
| HistoryModel.SavedKeepsNoRepeats | assets/js/lib/history.js:18-29 | recording never puts two equal entries side by side |
| HistoryModel.SavedAtTail | assets/js/lib/history.js:20-29 | with the cursor on the newest entry, recording a new visit appends it and keeps the 20 newest entries |
| HistoryModel.Replay | assets/js/lib/history.js:17-30 | recording any sequence of visits from empty keeps the invariant and ends on the last visit |
| HistoryModel.Collapse | assets/js/lib/history.js:18 | the visits that are actually recorded: never more than the visits made |
| HistoryModel.ReplayKeepsNewestCollapsed | assets/js/lib/history.js:17-30 | recording any sequence of visits keeps exactly the 20 newest of them once back-to-back repeats are dropped, evicting the oldest first, with the cursor on the newest; so the length is the number of non-repeated visits up to 20 |
| HistoryModel.CollapseNoRepeats | assets/js/lib/history.js:18 | a sequence of visits without back-to-back repeats loses nothing to the repeat check |
| HistoryModel.ReplayKeepsNewest | assets/js/lib/history.js:20-29 | recording visits none of which repeats the one before keeps exactly the 20 newest of them, evicting the oldest first, with the cursor on the newest |
| HistoryModel.Filtered | assets/js/lib/history.js:55 | the filtered list is never longer than the original |
| HistoryModel.FilteredAppend | assets/js/lib/history.js:55 | filtering distributes over concatenation, so relative order is preserved |
| HistoryModel.FilteredMembers | assets/js/lib/history.js:55 | an entry survives exactly when it was present and belongs to another cell |
| HistoryModel.FilteredNothing | assets/js/lib/history.js:55 | filtering out a cell with no entry returns the entries unchanged |
| HistoryModel.FilteredAt | assets/js/lib/history.js:56 | a surviving entry sits, in the filtered list, at the count of survivors before it (the positional reading of `lastIndexOf`) |
| HistoryModel.NearestKept | assets/js/lib/history.js:47-53 | the backward walk's stopping point: at or before the cursor, of another cell, and every entry between it and the cursor belongs to the removed cell |
| HistoryModel.Removed | assets/js/lib/history.js:47-56 | forgetting a cell keeps the invariant |
| HistoryModel.RemovedKeepsOthers | assets/js/lib/history.js:47-56 | exactly the entries of other cells remain, and the new current entry is the anchor the walk found |
| HistoryModel.RemovedNothing | assets/js/lib/history.js:47-56 | on a non-empty history, forgetting a cell that has no entry is possible and changes nothing |
| HistoryModel.RemovedCanRepeat | assets/js/lib/history.js:55 | forgetting B after visiting A, B, A leaves A, A side by side |
| HistoryModel.Got | assets/js/lib/history.js:77-91 | a step keeps the invariant and the entries; with no result nothing changes; a result is the entry now under the cursor |
| HistoryModel.BackTimes | assets/js/lib/history.js:72-82 | any number of backward steps keeps the invariant and the entries |
| HistoryModel.BackTimesClamps | assets/js/lib/history.js:72-91 | after n backward steps the cursor is at max(0, index - n); once it has reached 0, each further step returns the oldest entry and stays |

## Left out

- The TypeError thrown when the backward walk in `removeAllFromCell` runs off the front. This covers every entry from the cursor back belonging to the removed cell, and the empty history. `RemoveAllFromCell` requires `HasAnchor` instead of modelling `undefined.cellId`.
- Object identity. `lastIndexOf` compares references, and every entry is a fresh object. So the anchor's new position is modelled as the number of surviving entries before it, not as a search by value.
- Forward navigation is not exposed by the source. `GetFromHistory` and `CanGetFromHistory` take any direction, but the lemmas about repeated steps are stated for direction -1.
- JavaScript numbers are modelled as `int`. Lines are compared with `==` as integers, and `cellId` only needs equality (`Id(==)`).
- The host UI that produces focus events and calls these methods is not part of this file and is not modelled.
