/**
  The two screens working together: the list screen opens a note, the edit screen
  saves or deletes it and posts an event, and the list screen handles that event.
  These round trips show that the list ends up holding exactly the store's notes again.
 */
module Screens {
  import opened Collections
  import opened Models
  import opened MainScreen
  import opened NoteScreen

  /**
    Open the note at `position`, save a new title and text for it at time `now`, and
    deliver the posted `NoteEditAction` to the list screen: the store and the list both
    hold the edited note, the list mirrors the store and is in order.
   */
  method EditRoundTrip(list: MainPresenter, editor: NotePresenter, position: int,
                       title: string, text: string, now: int)
    requires list.Valid() && list.MirrorsStore() && editor.store == list.store
    requires 0 <= position < |list.notes|
    modifies list, list.store, editor, editor.bus
    ensures list.Valid() && list.MirrorsStore() && list.InOrder()
    ensures var saved := old(list.notes)[position].(title := title, text := text, changeDate := now);
      && saved in list.notes
      && Lookup(list.store.rows, saved.id) == Some(saved)
      && |list.notes| == old(|list.notes|)
  {
    var result := list.OpenNote(position);
    var request := result.request;
    ghost var rows0, notes0 := list.store.rows, list.notes;
    assert notes0[position] in multiset(rows0);
    ghost var i :| 0 <= i < |rows0| && rows0[i] == notes0[position];
    LookupOwnId(rows0, i);

    var shown := editor.ShowNote(request.noteId, request.position);
    assert editor.note == Some(notes0[position]) && editor.position == position;
    var saved := editor.SaveNote(title, text, now);
    ghost var edited := notes0[position].(title := title, text := text, changeDate := now);
    assert editor.note == Some(edited);
    assert list.notes == notes0 && list.Valid();
    ghost var rows1 := list.store.rows;
    assert rows1 == SaveRow(rows0, edited);
    MirrorAfterSave(notes0, rows0, position, edited);

    var event := editor.bus.posted[|editor.bus.posted| - 1];
    assert event.position == position;
    var handled := list.OnNoteEdit(event.position);
    assert Lookup(rows1, edited.id) == Some(edited);
    assert handled == Done;
    assert edited in multiset(notes0[position := edited]);
  }

  /**
    Open the note at `position`, delete it on the edit screen, and deliver the posted
    `NoteDeleteAction` to the list screen: the note is gone from the store and from
    that position of the list, and the list still mirrors the store in order.
   */
  method DeleteRoundTrip(list: MainPresenter, editor: NotePresenter, position: int)
    requires list.Valid() && list.MirrorsStore() && list.InOrder() && editor.store == list.store
    requires 0 <= position < |list.notes|
    modifies list, list.store, editor, editor.bus
    ensures list.Valid() && list.MirrorsStore() && list.InOrder()
    ensures list.notes == old(list.notes)[..position] + old(list.notes)[position + 1..]
    ensures Lookup(list.store.rows, old(list.notes)[position].id) == None
  {
    var result := list.OpenNote(position);
    var request := result.request;
    ghost var rows0, notes0 := list.store.rows, list.notes;
    assert notes0[position] in multiset(rows0);
    ghost var i :| 0 <= i < |rows0| && rows0[i] == notes0[position];
    LookupOwnId(rows0, i);

    var shown := editor.ShowNote(request.noteId, request.position);
    var deleted := editor.DeleteNote();
    MirrorAfterDelete(notes0, rows0, position);

    var event := editor.bus.posted[|editor.bus.posted| - 1];
    var handled := list.OnNoteDelete(event.position);
  }
}
