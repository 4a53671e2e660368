/** The main window's calls into the note store (scrybin/app.py). The open
    note is a title, "" when no note is open (Python's `None` and "" are both
    false there). The text handed in is the editor text already trimmed, and
    a dialog answer is the title already trimmed, "" when the dialog was
    cancelled or left blank. */
module EditorSession {
  import opened Titles
  import opened NoteStore

  /** The title used when the New Note dialog gives none. */
  const DefaultTitle := "New Note"

  /** New Note: adds a note under the requested title, or under "New Note",
      made unique; the added note becomes the open one. */
  method NewNote(store: NoteManager, requested: string) returns (current: string)
    requires store.Valid()
    modifies store
    ensures store.Valid()
    ensures var title := if requested != "" then requested else DefaultTitle;
      current == Candidate(title, FirstFree(title, old(store.notes).Keys, 0))
    ensures current !in old(store.notes)
    ensures store.notes == old(store.notes)[current := ""]
    ensures store.order == old(store.order) + [current]
  {
    var title := if requested != "" then requested else DefaultTitle;
    current := store.AddNewNote(title);
  }

  /** Save: stores the text under the open note and writes the whole
      collection to the file; with no open note nothing happens. */
  method SaveNote(store: NoteManager, current: string, text: string) returns (saved: bool)
    requires store.Valid()
    modifies store, store.file
    ensures store.Valid()
    ensures saved == (current != "")
    ensures saved ==> store.notes == old(store.notes)[current := text]
    ensures saved ==>
      store.order == if current in old(store.notes) then old(store.order) else old(store.order) + [current]
    ensures saved ==> store.file.state == Stored(store.Contents())
    ensures !saved ==> store.notes == old(store.notes) && store.order == old(store.order)
    ensures !saved ==> store.file.state == old(store.file.state)
  {
    saved := current != "";
    if saved {
      store.SetNoteContent(current, text);
      store.SaveNotesToFile();
    }
  }

  /** Save As, as the window does it: it reserves a unique title but then
      stores the text under the title it asked for and opens that one. When
      the asked-for title is already a note, that note's content is replaced
      and the reserved title is left behind as an empty note. */
  method SaveNoteAsAsWritten(store: NoteManager, current: string, newTitle: string, text: string)
    returns (newCurrent: string)
    requires store.Valid()
    modifies store, store.file
    ensures store.Valid()
    ensures current == "" || newTitle == "" ==>
      newCurrent == current && store.notes == old(store.notes) && store.order == old(store.order) &&
      store.file.state == old(store.file.state)
    ensures current != "" && newTitle != "" ==>
      var reserved := Candidate(newTitle, FirstFree(newTitle, old(store.notes).Keys, 0));
      && newCurrent == newTitle
      && store.notes == old(store.notes)[reserved := ""][newTitle := text]
      && store.order == old(store.order) + [reserved]
      && store.file.state == Stored(store.Contents())
    ensures current != "" && newTitle != "" && newTitle in old(store.notes) ==>
      var reserved := Candidate(newTitle, FirstFree(newTitle, old(store.notes).Keys, 0));
      && store.notes[newTitle] == text
      && reserved != newTitle && reserved in store.notes && store.notes[reserved] == ""
  {
    newCurrent := current;
    if current != "" && newTitle != "" {
      var _ := store.AddNewNote(newTitle);
      store.SetNoteContent(newTitle, text);
      newCurrent := newTitle;
      store.SaveNotesToFile();
    }
  }

  /** Save As, using the title the store reserved: the text goes to a new
      note, no existing note changes, and the new note becomes the open one. */
  method SaveNoteAs(store: NoteManager, current: string, newTitle: string, text: string)
    returns (newCurrent: string)
    requires store.Valid()
    modifies store, store.file
    ensures store.Valid()
    ensures current == "" || newTitle == "" ==>
      newCurrent == current && store.notes == old(store.notes) && store.order == old(store.order) &&
      store.file.state == old(store.file.state)
    ensures current != "" && newTitle != "" ==>
      && newCurrent == Candidate(newTitle, FirstFree(newTitle, old(store.notes).Keys, 0))
      && newCurrent !in old(store.notes)
      && store.notes == old(store.notes)[newCurrent := text]
      && store.order == old(store.order) + [newCurrent]
      && store.file.state == Stored(store.Contents())
    ensures forall t :: t in old(store.notes) ==> t in store.notes && store.notes[t] == old(store.notes)[t]
  {
    newCurrent := current;
    if current != "" && newTitle != "" {
      newCurrent := store.AddNewNote(newTitle);
      store.SetNoteContent(newCurrent, text);
      store.SaveNotesToFile();
    }
  }

  /** Delete: after confirmation removes the open note, closes it and writes
      the collection; without an open note or confirmation nothing happens. */
  method DeleteCurrentNote(store: NoteManager, current: string, confirmed: bool)
    returns (newCurrent: string)
    requires store.Valid()
    modifies store, store.file
    ensures store.Valid()
    ensures current != "" && confirmed ==>
      && newCurrent == ""
      && store.notes == old(store.notes) - {current}
      && (current in old(store.notes) ==> exists i ::
            0 <= i < |old(store.order)| && old(store.order)[i] == current &&
            store.order == old(store.order)[..i] + old(store.order)[i + 1..])
      && (current !in old(store.notes) ==> store.order == old(store.order))
      && current !in store.GetNoteTitles()
      && store.file.state == Stored(store.Contents())
    ensures !(current != "" && confirmed) ==>
      newCurrent == current && store.notes == old(store.notes) && store.order == old(store.order) &&
      store.file.state == old(store.file.state)
  {
    newCurrent := current;
    if current != "" && confirmed {
      store.DeleteNote(current);
      newCurrent := "";
      store.SaveNotesToFile();
    }
  }

  /** Save As to the title of an existing note, as the window does it: the
      store {"Ideas": "x", "Draft": "y"} with "Draft" open, Save As "Ideas".
      The old content of "Ideas" is lost and an empty "Ideas (1)" appears. */
  method SaveAsOverwriteExample() returns (before: string, after: string, titles: seq<string>)
    ensures before == "x" && after == "y"
    ensures titles == ["Ideas", "Draft", "Ideas (1)"]
  {
    var file := new NotesFile(Missing);
    var store := new NoteManager(file);
    store.SetNoteContent("Ideas", "x");
    store.SetNoteContent("Draft", "y");
    before := store.GetNoteContent("Ideas");
    IdeasProbe(store.notes.Keys);
    var _ := SaveNoteAsAsWritten(store, "Draft", "Ideas", "y");
    after := store.GetNoteContent("Ideas");
    titles := store.GetNoteTitles();
  }

  /** The same Save As with the reserved title used: "Ideas" keeps "x" and the
      text goes to the new note "Ideas (1)". */
  method SaveAsKeepsExample() returns (kept: string, saved: string, current: string)
    ensures kept == "x" && saved == "y" && current == "Ideas (1)"
  {
    var file := new NotesFile(Missing);
    var store := new NoteManager(file);
    store.SetNoteContent("Ideas", "x");
    store.SetNoteContent("Draft", "y");
    IdeasProbe(store.notes.Keys);
    current := SaveNoteAs(store, "Draft", "Ideas", "y");
    kept := store.GetNoteContent("Ideas");
    saved := store.GetNoteContent(current);
  }

  /** With only "Ideas" and "Draft" taken, the probe for "Ideas" is "Ideas (1)". */
  lemma IdeasProbe(keys: set<string>)
    requires keys == {"Ideas", "Draft"}
    ensures Candidate("Ideas", FirstFree("Ideas", keys, 0)) == "Ideas (1)"
  {
  }
}
