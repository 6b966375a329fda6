# Notelin presenters in Dafny

Notelin is a small Android note-taking app. This project models its two presenters:

- `MainPresenter` runs the list screen. It keeps `mNotesList`, the in-memory list of all notes, sorted by the chosen sort method (`DATE` or `NAME`). It loads, sorts, searches, creates and deletes notes. It also follows the `NoteEditAction` / `NoteDeleteAction` events that the edit screen posts.
- `NotePresenter` runs the edit screen. It holds one note, `mNote`, and the list position it was opened from, `mNotePosition`. It saves or deletes that note through the store and posts an event that carries the position.

The collaborators are modelled as follows:

- **Note store.** `NoteWrapper` and the database behind it become a `NoteStore` object. It holds the rows of the note table, with unique primary keys, and an auto-increment counter.
- **Event bus.** The bus becomes an `EventBus` object that records the events posted to it.
- **Sort preference.** The preference that `PrefsUtils` keeps becomes a field of the list presenter.
- **Comparators and lower-casing.** The `SortName` and `SortDate` comparators, and `toLowerCase`, are values given to the list presenter when it is built. Each comparator is modelled as its "sorts no later than" relation and is required to be a total preorder.
- **Exceptions.** An exception that the Kotlin code lets escape becomes a returned `Outcome.Thrown(...)`. The state is left as it was when the exception was thrown.

Files:

- `collections.dfy` (module `Collections`): the library routines the presenters rely on. `Collections.sort`/`sortWith` is a stable sort. The other routines are `filter`, `indexOf` and `remove(Object)`. All are functions with lemmas about their results.
- `models.dfy` (module `Models`): `Note`, the note table and its operations, `NoteStore`, `EventBus`, `Outcome`.
- `main_presenter.dfy` (module `MainScreen`): class `MainPresenter`, plus lemmas saying when the list mirrors the store.
- `note_presenter.dfy` (module `NoteScreen`): class `NotePresenter`.
- `screens.dfy` (module `Screens`): the two screens together. The list opens a note, the edit screen saves or deletes it, and the list handles the posted event.

The central invariants:

- `MirrorsStore()`: the list holds exactly the store's rows, as multisets.
- `InOrder()`: the list is sorted by the comparator of the current sort method.

Each list operation establishes or preserves these. The round trips in `Screens` show that they still hold after an edit-screen save or delete has been delivered back to the list.

Some of the code's behaviour is easy to mistake for something else. The model follows what the code does:

- **Stale positions.** The event handlers do not check that the position they receive is still valid. They index the list anyway and throw, so `OnNoteEdit` and `OnNoteDelete` return `Thrown(IndexOutOfBounds)`.
- **No closed state.** Nothing stops the edit screen from saving after it has deleted its note. That save is an update by the note's id, which matches no row once the row is gone. So the table stays as it was, and the deleted note does not come back.
- **Preference written as a side effect.** `openNewNote` and `onNoteEdit` re-sort through `sortNotesBy`, so they store the current sort method as the preference, `DATE` when none was stored.
- **Comparator rules.** The code of the `SortName` and `SortDate` comparators, with their tie-breaking and case rules, is not part of this model. The model assumes only that each comparator is a total preorder.

## Model

| member | source | states |
|---|---|---|
| `Collections.SortBy` | app/src/main/kotlin/imangazaliev/notelin/mvp/presenters/MainPresenter.kt:105 | sorting keeps exactly the notes of the list: the result is a permutation of the input |
| `Collections.SortBySorted` | app/src/main/kotlin/imangazaliev/notelin/mvp/presenters/MainPresenter.kt:49 | with a total-preorder comparator the sorted list is in comparator order |
| `Collections.SortByStable` | app/src/main/kotlin/imangazaliev/notelin/mvp/presenters/MainPresenter.kt:105 | the sort is stable: notes the comparator ranks equal keep their relative order |
| `Collections.SortByOfSorted` | app/src/main/kotlin/imangazaliev/notelin/mvp/presenters/MainPresenter.kt:130 | re-sorting a list that is already in order leaves it unchanged |
| `Collections.InsertSorted` | app/src/main/kotlin/imangazaliev/notelin/mvp/presenters/MainPresenter.kt:74-75 | inserting a note into an ordered list keeps it ordered (the step behind sorting after `add`) |
| `Collections.Filter` | app/src/main/kotlin/imangazaliev/notelin/mvp/presenters/MainPresenter.kt:96 | every kept note satisfies the predicate, and the result is no longer than the list |
| `Collections.FilterCount` | app/src/main/kotlin/imangazaliev/notelin/mvp/presenters/MainPresenter.kt:96 | a note satisfying the predicate is kept exactly as often as it occurs, any other note never |
| `Collections.FilterSubsequence` | app/src/main/kotlin/imangazaliev/notelin/mvp/presenters/MainPresenter.kt:96 | filtering keeps the list order of the kept notes |
| `Collections.IndexOf` | app/src/main/kotlin/imangazaliev/notelin/mvp/presenters/MainPresenter.kt:76 | the index is -1 exactly when the note is absent, otherwise the first position holding it |
| `Collections.Remove` | app/src/main/kotlin/imangazaliev/notelin/mvp/presenters/MainPresenter.kt:68 | `remove(note)` drops the first equal entry and keeps the rest in order; no-op when absent |
| `Collections.SortedRemoveAt` | app/src/main/kotlin/imangazaliev/notelin/mvp/presenters/MainPresenter.kt:138 | removing one position from an ordered list leaves it ordered |
| `Models.SaveRow` | app/src/main/kotlin/imangazaliev/notelin/mvp/models/NoteWrapper.kt:21-23 | saving a note whose row exists overwrites that row, so the note is found under its id; when no row has the id the table is unchanged; every other id finds what it found before; ids stay unique and the row count is kept |
| `Models.SaveAfterDeleteWritesNothing` | app/src/main/kotlin/imangazaliev/notelin/mvp/models/NoteWrapper.kt:21-23 | saving a note after its row was deleted leaves the table as the delete left it |
| `Models.RowOf` | app/src/main/kotlin/imangazaliev/notelin/mvp/models/NoteWrapper.kt:35-37 | the lookup position is -1 exactly when no row has the id, otherwise a row with that id |
| `Models.DeleteByIdRemovesRow` | app/src/main/kotlin/imangazaliev/notelin/mvp/models/NoteWrapper.kt:49-51 | deleting by a row's id removes exactly that row and keeps ids unique |
| `Models.LookupOwnId` | app/src/main/kotlin/imangazaliev/notelin/mvp/models/NoteWrapper.kt:35-37 | in a table with unique ids, looking up a row's own id finds that row |
| `Models.FilterUniqueIds` | app/src/main/kotlin/imangazaliev/notelin/mvp/models/NoteWrapper.kt:49-51 | deleting rows keeps the primary keys unique |
| `Models.UniqueIdsNoDuplicates` | app/src/main/kotlin/imangazaliev/notelin/mvp/models/NoteWrapper.kt:28-30 | a table with unique ids yields every note at most once |
| `Models.NoteStore.CreateNote` | app/src/main/kotlin/imangazaliev/notelin/mvp/models/NoteWrapper.kt:12-16 | a new note has the placeholder title, an empty body, both dates `now`, and an id no row had; it is appended |
| `Models.NoteStore.SaveNote` | app/src/main/kotlin/imangazaliev/notelin/mvp/models/NoteWrapper.kt:21-23 | the table becomes `SaveRow` of the note (update by id, nothing written when the row is gone), the id counter is kept, and the note's id is returned |
| `Models.NoteStore.LoadAllNotes` | app/src/main/kotlin/imangazaliev/notelin/mvp/models/NoteWrapper.kt:28-30 | returns every row once |
| `Models.NoteStore.GetNoteById` | app/src/main/kotlin/imangazaliev/notelin/mvp/models/NoteWrapper.kt:35-37 | the row with that id when there is one, `None` exactly when no row has it |
| `Models.NoteStore.DeleteAllNotes` | app/src/main/kotlin/imangazaliev/notelin/mvp/models/NoteWrapper.kt:42-44 | the table is empty and the id counter is kept |
| `Models.NoteStore.DeleteNote` | app/src/main/kotlin/imangazaliev/notelin/mvp/models/NoteWrapper.kt:49-51 | the rows with the note's id are gone, the others are kept in order |
| `MainScreen.MirrorAfterSave` | app/src/main/kotlin/imangazaliev/notelin/mvp/presenters/MainPresenter.kt:129 | replacing a list entry by the note the edit screen saved makes the list mirror the updated store again |
| `MainScreen.MirrorAfterDelete` | app/src/main/kotlin/imangazaliev/notelin/mvp/presenters/MainPresenter.kt:65-70 | removing the entry whose row was deleted makes the list mirror the store again |
| `MainScreen.MirrorHasNoDuplicates` | app/src/main/kotlin/imangazaliev/notelin/mvp/presenters/MainPresenter.kt:66-68 | in a list mirroring the store, `remove(mNotesList[p])` removes exactly position `p` |
| `MainScreen.MainPresenter.constructor` | app/src/main/kotlin/imangazaliev/notelin/mvp/presenters/MainPresenter.kt:29-36 | the presenter starts with the given store, comparators and stored preference, and an empty list |
| `MainScreen.MainPresenter.OnFirstViewAttach` | app/src/main/kotlin/imangazaliev/notelin/mvp/presenters/MainPresenter.kt:38-42 | the list is loaded when the screen first appears: it mirrors the store and is in order |
| `MainScreen.MainPresenter.LoadAllNotes` | app/src/main/kotlin/imangazaliev/notelin/mvp/presenters/MainPresenter.kt:47-51 | the list becomes the store's notes sorted by the current method's comparator: a permutation of the store, in order; the preference is untouched |
| `MainScreen.MainPresenter.DeleteAllNotes` | app/src/main/kotlin/imangazaliev/notelin/mvp/presenters/MainPresenter.kt:56-60 | both the list and the table are empty |
| `MainScreen.MainPresenter.DeleteNoteByPosition` | app/src/main/kotlin/imangazaliev/notelin/mvp/presenters/MainPresenter.kt:65-70 | throws outside the list; otherwise the note's row is deleted, the list loses one entry and keeps its order, and a mirrored list loses exactly that position and still mirrors the store |
| `MainScreen.MainPresenter.OpenNote` | app/src/main/kotlin/imangazaliev/notelin/mvp/presenters/MainPresenter.kt:82-87 | the edit screen is opened with the position and the id of the note there; throws outside the list |
| `MainScreen.MainPresenter.OpenNewNote` | app/src/main/kotlin/imangazaliev/notelin/mvp/presenters/MainPresenter.kt:72-77 | one new placeholder note is added to store and list, the list is re-sorted and in order, and the note is opened at its first position in the new list |
| `MainScreen.MainPresenter.Search` | app/src/main/kotlin/imangazaliev/notelin/mvp/presenters/MainPresenter.kt:92-99 | the empty query gives the whole list; otherwise exactly the notes whose lower-cased title starts with the lower-cased query, each as often as in the list, in list order |
| `MainScreen.MainPresenter.SortNotesBy` | app/src/main/kotlin/imangazaliev/notelin/mvp/presenters/MainPresenter.kt:104-108 | the list is the stable sort by `m`'s comparator of the old list: same notes, in order; `m` becomes the stored preference |
| `MainScreen.MainPresenter.CurrentSortMethod` | app/src/main/kotlin/imangazaliev/notelin/mvp/presenters/MainPresenter.kt:110-114 | the stored method, `DATE` when none is stored |
| `MainScreen.MainPresenter.SortComparator` | app/src/main/kotlin/imangazaliev/notelin/mvp/presenters/MainPresenter.kt:116-121 | `NAME` gives the `SortName` comparator and `DATE` the `SortDate` comparator; either is a total preorder |
| `MainScreen.MainPresenter.OnNoteEdit` | app/src/main/kotlin/imangazaliev/notelin/mvp/presenters/MainPresenter.kt:127-131 | throws and changes nothing for a position outside the list or a note gone from the store; otherwise the entry is replaced by the store's copy, the list re-sorted (size kept, in order) and the method stored |
| `MainScreen.MainPresenter.OnNoteDelete` | app/src/main/kotlin/imangazaliev/notelin/mvp/presenters/MainPresenter.kt:137-140 | throws and changes nothing outside the list; otherwise the list is the old list without that position, still in order |
| `NoteScreen.NotePresenter.constructor` | app/src/main/kotlin/imangazaliev/notelin/mvp/presenters/NotePresenter.kt:18-25 | before `showNote` no note is held and the position is -1 |
| `NoteScreen.NotePresenter.ShowNote` | app/src/main/kotlin/imangazaliev/notelin/mvp/presenters/NotePresenter.kt:27-31 | the position is recorded in every case; the held note becomes the store's note with that id, or the call throws and keeps the old note |
| `NoteScreen.NotePresenter.SaveNote` | app/src/main/kotlin/imangazaliev/notelin/mvp/presenters/NotePresenter.kt:33-40 | title, text and change date are set, the note is saved by its id (the store then holds it when its row still existed, and is unchanged when the row was deleted) and one `NoteEditAction(position)` is posted; the position is unchanged; throws with no effect when no note is held |
| `NoteScreen.NotePresenter.DeleteNote` | app/src/main/kotlin/imangazaliev/notelin/mvp/presenters/NotePresenter.kt:42-46 | the note's row is gone from the store and one `NoteDeleteAction(position)` is posted; note and position unchanged; throws with no effect when no note is held |
| `Models.EventBus.Post` | app/src/main/kotlin/imangazaliev/notelin/mvp/presenters/NotePresenter.kt:38 | posting appends exactly the one event |
| `Screens.EditRoundTrip` | app/src/main/kotlin/imangazaliev/notelin/mvp/presenters/MainPresenter.kt:127-131 | open, save and the delivered edit event leave the saved note in store and list, with the list mirroring the store and in order |
| `Screens.DeleteRoundTrip` | app/src/main/kotlin/imangazaliev/notelin/mvp/presenters/MainPresenter.kt:137-140 | open, delete and the delivered delete event remove the note from store and from that list position, with the list mirroring the store and in order |

## Left out

- View callbacks (`viewState.*`), the dialog show/hide methods and `Note.getInfo` only forward to the view, so they are not modelled.
- `EventBus` registration and asynchronous delivery are not modelled. The bus records posted events, and `Screens` delivers the last one by an explicit call.
- `Intent` and `startActivity` in `openNote` are not modelled. Only the chosen position and note id are kept.
- `PrefsUtils` is modelled as the field `sortPreference`. `SortNotesBy.valueOf` throwing on an unrecognised stored name is not modelled.
- The bodies of `SortName`, `SortDate` and `toLowerCase` are not part of this model. They are parameters, and the comparators are assumed to be total preorders. The sort's exception for a comparator that breaks its contract is therefore not modelled.
- The wall clock `Date()` is the parameter `now`.
- The `Note` class is not part of this model. Its constructor `Note(title, date)` is assumed to give an empty text and both dates equal to `date`.
- `Note.title` is never null in the model, so the `title!!` failure in `search` cannot arise.
- ActiveAndroid object identity is not modelled. The ORM may hand both presenters the same cached `Note` object, but the model uses values. The list entry is refreshed only by `onNoteEdit`, and equality in `indexOf`/`remove` is value equality. For a list that mirrors the store this coincides with equality by id.
- Storage failures are not modelled: every store call succeeds.
- Models.NoteStore.LoadAllNotes: returns rows in table order, where the database promises no order. The list is sorted right after loading, so only the order among notes the comparator ranks equal depends on this.
- NoteScreen.NotePresenter.SaveNote: the rule that the event is posted after the store write is stated only as both effects of one call, because with storage that cannot fail the order is not observable.
- `lateinit mNotesList` before the first load is modelled as an empty list.
- `Int` positions and `Long` ids are unbounded integers. Overflow is not modelled.
- `NoteWrapperModule`, the Dagger wiring, is not modelled. The shared store is passed to both presenters explicitly.
