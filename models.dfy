/**
  The entities the two presenters share: the note record, the note store that
  stands for the database table behind `NoteWrapper`, the event bus the edit
  screen posts to, and the exceptions a presenter call can end with.
 */
module Models {
  import opened Collections

  datatype Option<T> = None | Some(value: T)

  /**
    A persisted note. `id` is the primary key the store assigned on the first save;
    dates are points in time (milliseconds).
   */
  datatype Note = Note(id: int, title: string, text: string, createDate: int, changeDate: int)

  /** The title every new note gets ("New note"). */
  const NewNoteTitle: string := "Новая заметка"

  /** The events of the event bus: `NoteEditAction(position)` and `NoteDeleteAction(position)`. */
  datatype NoteAction = NoteEditAction(position: int) | NoteDeleteAction(position: int)

  /** The exceptions a presenter lets escape. */
  datatype Failure =
    | IndexOutOfBounds       // a list position outside the list
    | NoteNotFound           // `getNoteById` found no row with that id
    | UninitializedProperty  // `mNote` read before `showNote` assigned it

  /** How a presenter call ended: normally, or with an exception thrown part-way. */
  datatype Outcome = Done | Thrown(error: Failure)

  // ---------------------------------------------------------------------------
  // Rows of the note table

  /** No two rows share a primary key. */
  ghost predicate UniqueIds(rows: seq<Note>) {
    forall i, j :: 0 <= i < j < |rows| ==> rows[i].id != rows[j].id
  }

  /** The position of the row with primary key `id`, or -1. */
  function RowOf(rows: seq<Note>, id: int): (i: int)
    ensures -1 <= i < |rows|
    ensures i == -1 <==> forall j :: 0 <= j < |rows| ==> rows[j].id != id
    ensures 0 <= i ==> rows[i].id == id
  {
    if rows == [] then -1
    else if rows[0].id == id then 0
    else
      var j := RowOf(rows[1..], id);
      if j == -1 then -1 else j + 1
  }

  /** `SELECT ... WHERE id = ?`: the row with that primary key, if there is one. */
  function Lookup(rows: seq<Note>, id: int): (found: Option<Note>)
  {
    var i := RowOf(rows, id);
    if i < 0 then None else Some(rows[i])
  }

  /** The rows `DELETE ... WHERE id = ?` keeps. */
  function HasOtherId(id: int): Note -> bool {
    (n: Note) => n.id != id
  }

  /** With unique primary keys every row occurs once. */
  lemma {:induction false} UniqueIdsNoDuplicates(rows: seq<Note>, x: Note)
    requires UniqueIds(rows)
    ensures multiset(rows)[x] <= 1
  {
    if rows != [] {
      assert UniqueIds(rows[1..]);
      UniqueIdsNoDuplicates(rows[1..], x);
      assert rows == [rows[0]] + rows[1..];
      if x == rows[0] {
        assert x !in rows[1..];
      }
    }
  }

  /** A row of a keyed table is the one `Lookup` finds under its own id. */
  lemma LookupOwnId(rows: seq<Note>, i: int)
    requires UniqueIds(rows) && 0 <= i < |rows|
    ensures Lookup(rows, rows[i].id) == Some(rows[i])
  {
  }

  /** Deleting by the primary key of row `i` deletes exactly that row. */
  lemma DeleteByIdRemovesRow(rows: seq<Note>, i: int)
    requires UniqueIds(rows) && 0 <= i < |rows|
    ensures multiset(Filter(HasOtherId(rows[i].id), rows)) == multiset(rows) - multiset{rows[i]}
    ensures UniqueIds(Filter(HasOtherId(rows[i].id), rows))
  {
    var p := HasOtherId(rows[i].id);
    var kept := Filter(p, rows);
    forall x ensures multiset(kept)[x] == (multiset(rows) - multiset{rows[i]})[x] {
      FilterCount(p, rows, x);
      UniqueIdsNoDuplicates(rows, x);
    }
    assert multiset(kept) == multiset(rows) - multiset{rows[i]};
    FilterUniqueIds(p, rows);
  }

  /** Filtering rows keeps their primary keys unique. */
  lemma {:induction false} FilterUniqueIds(p: Note -> bool, rows: seq<Note>)
    requires UniqueIds(rows)
    ensures UniqueIds(Filter(p, rows))
  {
    if rows != [] {
      assert UniqueIds(rows[1..]);
      FilterUniqueIds(p, rows[1..]);
      var rest := Filter(p, rows[1..]);
      if p(rows[0]) {
        forall j | 0 <= j < |rest| ensures rest[j].id != rows[0].id {
          FilterCount(p, rows[1..], rest[j]);
          assert rest[j] in multiset(rest);
          assert rest[j] in rows[1..];
        }
        var r := [rows[0]] + rest;
        forall a, b | 0 <= a < b < |r| ensures r[a].id != r[b].id {
          if a > 0 {
            assert r[a] == rest[a - 1] && r[b] == rest[b - 1];
          }
        }
      }
    }
  }

  /**
    The table after `note.save()` for a note that already has a primary key: the row
    with that key is overwritten in place. The save is an update by key, so when no
    row has the key (the row was deleted) nothing is written and the table is unchanged.
   */
  function SaveRow(rows: seq<Note>, note: Note): (r: seq<Note>)
    requires UniqueIds(rows)
    ensures UniqueIds(r) && |r| == |rows|
    ensures Lookup(rows, note.id) != None ==> Lookup(r, note.id) == Some(note)
    ensures Lookup(rows, note.id) == None ==> r == rows
    ensures forall other :: other != note.id ==> Lookup(r, other) == Lookup(rows, other)
    ensures forall i :: 0 <= i < |r| ==> r[i] == note || r[i] in rows
  {
    var i := RowOf(rows, note.id);
    if i < 0 then rows
    else
      var r := rows[i := note];
      assert UniqueIds(r) by {
        forall a, b | 0 <= a < b < |r| ensures r[a].id != r[b].id {
        }
      }
      LookupOwnId(r, i);
      assert forall other :: other != note.id ==> Lookup(r, other) == Lookup(rows, other) by {
        forall other | other != note.id ensures Lookup(r, other) == Lookup(rows, other) {
          var j := RowOf(rows, other);
          if j >= 0 {
            LookupOwnId(r, j);
            LookupOwnId(rows, j);
          } else {
            forall k | 0 <= k < |r| ensures r[k].id != other {
              if k != i {
                assert r[k] == rows[k];
              }
            }
          }
        }
      }
      r
  }

  /**
    Saving a note after its row was deleted writes nothing: the deleted row does not
    come back.
   */
  lemma SaveAfterDeleteWritesNothing(rows: seq<Note>, note: Note)
    requires UniqueIds(rows)
    ensures UniqueIds(Filter(HasOtherId(note.id), rows))
    ensures SaveRow(Filter(HasOtherId(note.id), rows), note) == Filter(HasOtherId(note.id), rows)
  {
    var kept := Filter(HasOtherId(note.id), rows);
    FilterUniqueIds(HasOtherId(note.id), rows);
    forall k | 0 <= k < |kept| ensures kept[k].id != note.id {
      assert HasOtherId(note.id)(kept[k]);
    }
  }

  // ---------------------------------------------------------------------------
  // Collaborators

  /** The event bus, reduced to the sequence of events posted so far. */
  class EventBus {
    var posted: seq<NoteAction>

    constructor ()
      ensures posted == []
    {
      posted := [];
    }

    method Post(action: NoteAction)
      modifies this
      ensures posted == old(posted) + [action]
    {
      posted := posted + [action];
    }
  }

  /**
    The note table: its rows, with unique primary keys, and the auto-increment
    counter that hands out new keys and never goes back.
   */
  class NoteStore {
    var rows: seq<Note>
    var nextId: int

    ghost predicate Valid()
      reads this
    {
      UniqueIds(rows) && forall i :: 0 <= i < |rows| ==> rows[i].id < nextId
    }

    constructor ()
      ensures Valid() && rows == []
    {
      rows := [];
      nextId := 1;
    }

    /** `createNote`: stores a note with the placeholder title, an empty body and both dates `now`. */
    method CreateNote(now: int) returns (note: Note)
      requires Valid()
      modifies this
      ensures Valid()
      ensures note == Note(note.id, NewNoteTitle, "", now, now)
      ensures Lookup(old(rows), note.id) == None
      ensures rows == old(rows) + [note]
    {
      note := Note(nextId, NewNoteTitle, "", now, now);
      rows := rows + [note];
      nextId := nextId + 1;
    }

    /**
      `saveNote`: updates the row with the note's id and returns that id; when no row
      has it, no row is written.
     */
    method SaveNote(note: Note) returns (id: int)
      requires Valid()
      modifies this
      ensures Valid()
      ensures id == note.id && nextId == old(nextId)
      ensures rows == SaveRow(old(rows), note)
    {
      rows := SaveRow(rows, note);
      id := note.id;
      forall i | 0 <= i < |rows| ensures rows[i].id < nextId {
        assert rows[i] == note || rows[i] in old(rows);
      }
    }

    /** `loadAllNotes`: every row exactly once, in table order. */
    method LoadAllNotes() returns (all: seq<Note>)
      requires Valid()
      ensures all == rows && UniqueIds(all)
    {
      all := rows;
    }

    /** `getNoteById`: the row with that id, if there is one. */
    method GetNoteById(noteId: int) returns (found: Option<Note>)
      ensures found == Lookup(rows, noteId)
      ensures found.Some? ==> found.value.id == noteId && found.value in rows
      ensures found.None? <==> forall i :: 0 <= i < |rows| ==> rows[i].id != noteId
    {
      var i := RowOf(rows, noteId);
      if i < 0 {
        found := None;
      } else {
        found := Some(rows[i]);
      }
    }

    /** `deleteAllNotes`: empties the table. */
    method DeleteAllNotes()
      requires Valid()
      modifies this
      ensures Valid()
      ensures rows == [] && nextId == old(nextId)
    {
      rows := [];
    }

    /** `deleteNote`: removes the row with the note's id; nothing happens if there is none. */
    method DeleteNote(note: Note)
      requires Valid()
      modifies this
      ensures Valid()
      ensures rows == Filter(HasOtherId(note.id), old(rows)) && nextId == old(nextId)
      ensures Lookup(rows, note.id) == None
    {
      FilterUniqueIds(HasOtherId(note.id), rows);
      FilterCount(HasOtherId(note.id), rows, note);
      rows := Filter(HasOtherId(note.id), rows);
      assert forall i :: 0 <= i < |rows| ==> HasOtherId(note.id)(rows[i]);
      forall i | 0 <= i < |rows| ensures rows[i].id < nextId {
        FilterCount(HasOtherId(note.id), old(rows), rows[i]);
        assert rows[i] in multiset(rows);
        assert rows[i] in old(rows);
      }
    }
  }
}
