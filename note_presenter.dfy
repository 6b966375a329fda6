/**
  The edit screen's presenter, `NotePresenter`: it holds the one note being edited
  and the list position it was opened from, writes the user's changes through the
  store and tells the list screen about them on the event bus.
 */
module NoteScreen {
  import opened Collections
  import opened Models

  class NotePresenter {
    /** `mNoteWrapper`, the store shared with the list screen. */
    const store: NoteStore
    /** `EventBus.getDefault()` */
    const bus: EventBus
    /** `mNote`; `None` until `showNote` first assigns it. */
    var note: Option<Note>
    /** `mNotePosition` */
    var position: int

    constructor (store: NoteStore, bus: EventBus)
      ensures this.store == store && this.bus == bus
      ensures note == None && position == -1
    {
      this.store := store;
      this.bus := bus;
      note := None;
      position := -1;
    }

    /**
      `showNote`: records the list position, then loads the note with that id. When the
      store has no such note the lookup throws after the position was already recorded.
     */
    method ShowNote(noteId: int, notePosition: int) returns (outcome: Outcome)
      modifies this
      ensures position == notePosition
      ensures outcome == Done <==> Lookup(store.rows, noteId) != None
      ensures outcome == Done ==> note == Lookup(store.rows, noteId) && note.value.id == noteId
      ensures outcome != Done ==> outcome == Thrown(NoteNotFound) && note == old(note)
    {
      position := notePosition;
      var found := store.GetNoteById(noteId);
      if found.None? {
        return Thrown(NoteNotFound);
      }
      note := found;
      outcome := Done;
    }

    /**
      `saveNote`: sets the title, the text and the change date of the held note, saves
      it (an update by its id, which writes nothing once its row was deleted), then
      posts `NoteEditAction(position)`. Throws, changing nothing, before
      `showNote` has assigned a note.
     */
    method SaveNote(title: string, text: string, now: int) returns (outcome: Outcome)
      requires store.Valid()
      modifies this, store, bus
      ensures store.Valid() && position == old(position)
      ensures outcome == Done <==> old(note) != None
      ensures outcome == Done ==>
        && note == Some(old(note).value.(title := title, text := text, changeDate := now))
        && store.rows == SaveRow(old(store.rows), note.value)
        && (Lookup(old(store.rows), note.value.id) != None ==> Lookup(store.rows, note.value.id) == note)
        && (Lookup(old(store.rows), note.value.id) == None ==> store.rows == old(store.rows))
        && bus.posted == old(bus.posted) + [NoteEditAction(position)]
      ensures outcome != Done ==>
        && outcome == Thrown(UninitializedProperty)
        && note == old(note) && store.rows == old(store.rows) && bus.posted == old(bus.posted)
    {
      if note.None? {
        return Thrown(UninitializedProperty);
      }
      note := Some(note.value.(title := title, text := text, changeDate := now));
      var _ := store.SaveNote(note.value);
      bus.Post(NoteEditAction(position));
      outcome := Done;
    }

    /**
      `deleteNote`: deletes the held note from the store, then posts
      `NoteDeleteAction(position)`. Throws, changing nothing, before `showNote` has
      assigned a note.
     */
    method DeleteNote() returns (outcome: Outcome)
      requires store.Valid()
      modifies store, bus
      ensures store.Valid()
      ensures outcome == Done <==> note != None
      ensures outcome == Done ==>
        && store.rows == Filter(HasOtherId(note.value.id), old(store.rows))
        && Lookup(store.rows, note.value.id) == None
        && bus.posted == old(bus.posted) + [NoteDeleteAction(position)]
      ensures outcome != Done ==>
        && outcome == Thrown(UninitializedProperty)
        && store.rows == old(store.rows) && bus.posted == old(bus.posted)
    {
      if note.None? {
        return Thrown(UninitializedProperty);
      }
      store.DeleteNote(note.value);
      bus.Post(NoteDeleteAction(position));
      outcome := Done;
    }
  }
}
