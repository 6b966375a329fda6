/**
  The list screen's presenter, `MainPresenter`: it holds the notes of the store in
  memory, ordered by the chosen sort method, applies the user's actions to that list
  and to the store, and follows the edit screen's `NoteEditAction`/`NoteDeleteAction`
  events.
 */
module MainScreen {
  import opened Collections
  import opened Models

  /** `MainPresenter.SortNotesBy`: the two ways the list can be ordered. */
  datatype SortNotesBy = DATE | NAME

  /** What `openNote` hands to the edit screen: the extras `note_position` and `note_id`. */
  datatype OpenRequest = OpenRequest(position: int, noteId: int)

  /** `openNote` either starts the edit screen or throws. */
  datatype OpenResult = Opened(request: OpenRequest) | NotOpened(error: Failure)

  /** The in-memory list `ls` holds exactly the rows of the table `rows`. */
  ghost predicate Mirrors(ls: seq<Note>, rows: seq<Note>) {
    multiset(ls) == multiset(rows)
  }

  /**
    When the edit screen saves `e` over the row of the note at position `p` of a list
    that mirrored the table, replacing that entry by `e` makes the list mirror the
    new table again; this is what `onNoteEdit` relies on.
   */
  lemma MirrorAfterSave(ls: seq<Note>, rows: seq<Note>, p: int, e: Note)
    requires UniqueIds(rows) && Mirrors(ls, rows)
    requires 0 <= p < |ls| && e.id == ls[p].id
    ensures Mirrors(ls[p := e], SaveRow(rows, e))
  {
    assert ls[p] in multiset(rows);
    var i :| 0 <= i < |rows| && rows[i] == ls[p];
    LookupOwnId(rows, i);
    assert SaveRow(rows, e) == rows[i := e];
    assert multiset(ls[p := e]) == multiset(ls) - multiset{ls[p]} + multiset{e};
    assert multiset(rows[i := e]) == multiset(rows) - multiset{rows[i]} + multiset{e};
  }

  /**
    When the row of the note at position `p` of a list that mirrored the table is
    deleted, removing that position makes the list mirror the new table again; this
    is what `deleteNoteByPosition` and `onNoteDelete` rely on.
   */
  lemma MirrorAfterDelete(ls: seq<Note>, rows: seq<Note>, p: int)
    requires UniqueIds(rows) && Mirrors(ls, rows)
    requires 0 <= p < |ls|
    ensures Mirrors(ls[..p] + ls[p + 1..], Filter(HasOtherId(ls[p].id), rows))
  {
    assert ls[p] in multiset(rows);
    var i :| 0 <= i < |rows| && rows[i] == ls[p];
    DeleteByIdRemovesRow(rows, i);
    MultisetRemoveAt(ls, p);
  }

  /** A list that mirrors a table with unique ids holds no note twice. */
  lemma MirrorHasNoDuplicates(ls: seq<Note>, rows: seq<Note>, p: int)
    requires UniqueIds(rows) && Mirrors(ls, rows)
    requires 0 <= p < |ls|
    ensures ls[p] !in ls[..p]
    ensures Remove(ls, ls[p]) == ls[..p] + ls[p + 1..]
  {
    forall x ensures multiset(ls)[x] <= 1 {
      UniqueIdsNoDuplicates(rows, x);
    }
    NoDuplicatesBefore(ls, p);
    RemoveFirstOccurrence(ls, p);
  }

  class MainPresenter {
    /** `mNoteWrapper`, the store shared with the edit screen. */
    const store: NoteStore
    /** The `SortName()` comparator, as "sorts no later than". */
    const byName: (Note, Note) -> bool
    /** The `SortDate()` comparator, as "sorts no later than". */
    const byDate: (Note, Note) -> bool
    /** `String.toLowerCase()` in the device's locale. */
    const lowerCase: string -> string
    /** `mNotesList` */
    var notes: seq<Note>
    /** The sort method name `PrefsUtils` holds, if one was ever stored. */
    var sortPreference: Option<SortNotesBy>

    ghost predicate Valid()
      reads this, store
    {
      store.Valid() && TotalPreorder(byName) && TotalPreorder(byDate)
    }

    /** The list holds exactly the notes of the store. */
    ghost predicate MirrorsStore()
      reads this, store
    {
      Mirrors(notes, store.rows)
    }

    /** The list is ordered by the comparator of the current sort method. */
    ghost predicate InOrder()
      reads this
    {
      Sorted(SortComparator(CurrentSortMethod()), notes)
    }

    constructor (store: NoteStore, byName: (Note, Note) -> bool, byDate: (Note, Note) -> bool,
                 lowerCase: string -> string, sortPreference: Option<SortNotesBy>)
      requires store.Valid() && TotalPreorder(byName) && TotalPreorder(byDate)
      ensures Valid()
      ensures this.store == store && this.byName == byName && this.byDate == byDate
      ensures this.lowerCase == lowerCase && this.sortPreference == sortPreference
      ensures notes == []
    {
      this.store := store;
      this.byName := byName;
      this.byDate := byDate;
      this.lowerCase := lowerCase;
      this.sortPreference := sortPreference;
      notes := [];
    }

    /** `getCurrentSortMethod`: the stored sort method, `DATE` when none was stored. */
    function CurrentSortMethod(): (m: SortNotesBy)
      reads this
      ensures sortPreference == None ==> m == DATE
      ensures sortPreference != None ==> m == sortPreference.value
    {
      match sortPreference
      case None => DATE
      case Some(stored) => stored
    }

    /** `getSortComparator`: `SortName` for `NAME`, `SortDate` for `DATE`; either is a total preorder. */
    function SortComparator(m: SortNotesBy): (le: (Note, Note) -> bool)
      ensures TotalPreorder(byName) && TotalPreorder(byDate) ==> TotalPreorder(le)
      ensures m == NAME ==> le == byName
      ensures m == DATE ==> le == byDate
    {
      match m
      case NAME => byName
      case DATE => byDate
    }

    /** The notes `search(query)` keeps: the lower-cased title starts with the lower-cased query. */
    function TitleStartsWith(query: string): Note -> bool {
      (n: Note) => lowerCase(query) <= lowerCase(n.title)
    }

    /**
      `search`: the whole list for the empty query; otherwise the notes whose title
      starts with the query, ignoring case, each as often as in the list and in list order.
     */
    function Search(query: string): (found: seq<Note>)
      reads this
      ensures query == "" ==> found == notes
      ensures Subsequence(found, notes)
      ensures query != "" ==> forall n :: n in found ==> lowerCase(query) <= lowerCase(n.title)
      ensures query != "" ==>
        forall n :: multiset(found)[n] == if lowerCase(query) <= lowerCase(n.title) then multiset(notes)[n] else 0
    {
      if query == "" then
        SubsequenceOfItself(notes);
        notes
      else
        var p := TitleStartsWith(query);
        FilterSubsequence(p, notes);
        assert forall n :: multiset(Filter(p, notes))[n] == if p(n) then multiset(notes)[n] else 0 by {
          forall n ensures multiset(Filter(p, notes))[n] == if p(n) then multiset(notes)[n] else 0 {
            FilterCount(p, notes, n);
          }
        }
        Filter(p, notes)
    }

    /** `loadAllNotes`: the list becomes the store's notes, sorted by the current sort method. */
    method LoadAllNotes()
      requires Valid()
      modifies this
      ensures Valid() && sortPreference == old(sortPreference)
      ensures notes == SortBy(SortComparator(CurrentSortMethod()), store.rows)
      ensures MirrorsStore() && InOrder()
    {
      var loaded := store.LoadAllNotes();
      notes := SortBy(SortComparator(CurrentSortMethod()), loaded);
      SortBySorted(SortComparator(CurrentSortMethod()), loaded);
    }

    /** `onFirstViewAttach`: loads the list when the screen first appears. */
    method OnFirstViewAttach()
      requires Valid()
      modifies this
      ensures Valid() && sortPreference == old(sortPreference)
      ensures MirrorsStore() && InOrder()
    {
      LoadAllNotes();
    }

    /** `deleteAllNotes`: empties the store and the list. */
    method DeleteAllNotes()
      requires Valid()
      modifies this, store
      ensures Valid() && sortPreference == old(sortPreference)
      ensures notes == [] && store.rows == []
      ensures MirrorsStore() && InOrder()
    {
      store.DeleteAllNotes();
      notes := [];
    }

    /**
      `deleteNoteByPosition`: deletes the note at `position` from the store and the
      first equal note from the list; throws for a position outside the list.
     */
    method DeleteNoteByPosition(position: int) returns (outcome: Outcome)
      requires Valid()
      modifies this, store
      ensures Valid() && sortPreference == old(sortPreference)
      ensures outcome == Done <==> 0 <= position < |old(notes)|
      ensures outcome != Done ==>
        outcome == Thrown(IndexOutOfBounds) && notes == old(notes) && store.rows == old(store.rows)
      ensures outcome == Done ==>
        && store.rows == Filter(HasOtherId(old(notes)[position].id), old(store.rows))
        && notes == Remove(old(notes), old(notes)[position])
        && |notes| == |old(notes)| - 1
      ensures outcome == Done && old(MirrorsStore()) ==>
        notes == old(notes)[..position] + old(notes)[position + 1..] && MirrorsStore()
      ensures old(InOrder()) ==> InOrder()
    {
      if !(0 <= position < |notes|) {
        return Thrown(IndexOutOfBounds);
      }
      var note := notes[position];
      ghost var rows0, notes0 := store.rows, notes;
      store.DeleteNote(note);
      notes := Remove(notes, note);
      if Sorted(SortComparator(CurrentSortMethod()), notes0) {
        SortedRemoveAt(SortComparator(CurrentSortMethod()), notes0, IndexOf(notes0, note));
      }
      if Mirrors(notes0, rows0) {
        MirrorHasNoDuplicates(notes0, rows0, position);
        MirrorAfterDelete(notes0, rows0, position);
      }
      outcome := Done;
    }

    /** `openNote`: the position and id the edit screen is started with; throws outside the list. */
    method OpenNote(position: int) returns (result: OpenResult)
      ensures 0 <= position < |notes| ==> result == Opened(OpenRequest(position, notes[position].id))
      ensures !(0 <= position < |notes|) ==> result == NotOpened(IndexOutOfBounds)
    {
      if 0 <= position < |notes| {
        result := Opened(OpenRequest(position, notes[position].id));
      } else {
        result := NotOpened(IndexOutOfBounds);
      }
    }

    /**
      `openNewNote`: creates a note in the store, adds it to the list, re-sorts the
      list by the current sort method (which stores that method) and opens the note
      at the position where it ended up.
     */
    method OpenNewNote(now: int) returns (request: OpenRequest)
      requires Valid()
      modifies this, store
      ensures Valid()
      ensures var created := Note(request.noteId, NewNoteTitle, "", now, now);
        && Lookup(old(store.rows), request.noteId) == None
        && store.rows == old(store.rows) + [created]
        && notes == SortBy(SortComparator(old(CurrentSortMethod())), old(notes) + [created])
        && 0 <= request.position < |notes|
        && notes[request.position] == created
        && created !in notes[..request.position]
      ensures multiset(notes) == multiset(old(notes)) + multiset{notes[request.position]}
      ensures sortPreference == Some(old(CurrentSortMethod())) && InOrder()
      ensures old(MirrorsStore()) ==> MirrorsStore()
    {
      var created := store.CreateNote(now);
      notes := notes + [created];
      SortNotesBy(CurrentSortMethod());
      assert created in multiset(notes);
      var position := IndexOf(notes, created);
      var result := OpenNote(position);
      request := result.request;
    }

    /**
      `sortNotesBy`: sorts the list by the comparator of `m`, keeping its notes, and
      stores `m` as the sort preference.
     */
    method SortNotesBy(m: SortNotesBy)
      requires Valid()
      modifies this
      ensures Valid()
      ensures notes == SortBy(SortComparator(m), old(notes))
      ensures multiset(notes) == multiset(old(notes))
      ensures sortPreference == Some(m) && CurrentSortMethod() == m && InOrder()
      ensures old(MirrorsStore()) ==> MirrorsStore()
    {
      SortBySorted(SortComparator(m), notes);
      notes := SortBy(SortComparator(m), notes);
      sortPreference := Some(m);
    }

    /**
      `onNoteEdit`: replaces the note at `position` by the store's current copy of it
      and re-sorts by the current sort method. Throws, changing nothing, when the
      position is outside the list or the store no longer has the note.
     */
    method OnNoteEdit(position: int) returns (outcome: Outcome)
      requires Valid()
      modifies this
      ensures Valid()
      ensures outcome == Done <==>
        0 <= position < |old(notes)| && Lookup(store.rows, old(notes)[position].id) != None
      ensures outcome == Thrown(IndexOutOfBounds) <==> !(0 <= position < |old(notes)|)
      ensures outcome == Thrown(NoteNotFound) <==>
        0 <= position < |old(notes)| && Lookup(store.rows, old(notes)[position].id) == None
      ensures outcome.Thrown? ==> notes == old(notes) && sortPreference == old(sortPreference)
      ensures outcome == Done ==>
        && notes == SortBy(SortComparator(old(CurrentSortMethod())),
                           old(notes)[position := Lookup(store.rows, old(notes)[position].id).value])
        && |notes| == |old(notes)|
        && sortPreference == Some(old(CurrentSortMethod())) && InOrder()
    {
      if !(0 <= position < |notes|) {
        return Thrown(IndexOutOfBounds);
      }
      var current := store.GetNoteById(notes[position].id);
      if current.None? {
        return Thrown(NoteNotFound);
      }
      notes := notes[position := current.value];
      SortNotesBy(CurrentSortMethod());
      outcome := Done;
    }

    /** `onNoteDelete`: removes the entry at `position`; throws, changing nothing, outside the list. */
    method OnNoteDelete(position: int) returns (outcome: Outcome)
      modifies this
      ensures sortPreference == old(sortPreference)
      ensures outcome == Done <==> 0 <= position < |old(notes)|
      ensures outcome == Done ==> notes == old(notes)[..position] + old(notes)[position + 1..]
      ensures outcome != Done ==> outcome == Thrown(IndexOutOfBounds) && notes == old(notes)
      ensures old(InOrder()) ==> InOrder()
    {
      if !(0 <= position < |notes|) {
        return Thrown(IndexOutOfBounds);
      }
      if InOrder() {
        SortedRemoveAt(SortComparator(CurrentSortMethod()), notes, position);
      }
      notes := notes[..position] + notes[position + 1..];
      outcome := Done;
    }
  }
}
