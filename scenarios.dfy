/** Uses of the note store that combine several operations: repeated adds of
    one title, and writing the notes file then reading it back. */
module Scenarios {
  import opened Decimal
  import opened Titles
  import opened NoteStore

  /** Adding one title three times, to a store that has none of its probes,
      gives the title, then "title (1)", then "title (2)". */
  method AddThrice(store: NoteManager, title: string) returns (first: string, second: string, third: string)
    requires store.Valid()
    requires forall j: nat :: Candidate(title, j) !in store.notes
    modifies store
    ensures store.Valid()
    ensures first == title && second == title + " (1)" && third == title + " (2)"
    ensures store.notes == old(store.notes)[first := ""][second := ""][third := ""]
    ensures store.order == old(store.order) + [first, second, third]
  {
    ghost var keys := store.notes.Keys;
    NextAdd(title, keys, 0);
    first := store.AddNewNote(title);
    NextAdd(title, keys, 1);
    second := store.AddNewNote(title);
    NextAdd(title, keys, 2);
    third := store.AddNewNote(title);
    FirstProbes(title);
  }

  /** The step of AddThrice: with the first k probes taken on top of keys,
      the next add takes probe k, and then the first k + 1 are taken. */
  lemma NextAdd(title: string, keys: set<string>, k: nat)
    requires forall j: nat :: Candidate(title, j) !in keys
    ensures Candidate(title, FirstFree(title, keys + CandidatesBelow(title, k), 0)) == Candidate(title, k)
    ensures keys + CandidatesBelow(title, k) + {Candidate(title, k)} == keys + CandidatesBelow(title, k + 1)
    ensures k == 0 ==> keys + CandidatesBelow(title, k) == keys
  {
    SuccessiveAdds(title, keys, k);
  }

  /** Saving and then loading gives back the collection as it was before the
      save, title order included. */
  method SaveThenLoad(store: NoteManager) returns (r: Result<map<string, string>>)
    requires store.Valid()
    modifies store, store.file
    ensures store.Valid()
    ensures store.notes == old(store.notes) && store.order == old(store.order)
    ensures r == Success(old(store.notes))
  {
    store.SaveNotesToFile();
    r := store.LoadNotes();
  }

  /** Saving and then loading in a new store (the next start of the
      program) gives the new store the saved collection. */
  method ReloadInNewStore(store: NoteManager) returns (reloaded: NoteManager)
    requires store.Valid()
    modifies store.file
    ensures fresh(reloaded) && reloaded.Valid() && reloaded.file == store.file
    ensures reloaded.notes == store.notes && reloaded.order == store.order
  {
    store.SaveNotesToFile();
    reloaded := new NoteManager(store.file);
    var _ := reloaded.LoadNotes();
  }

  /** Empty store, add "Ideas", write "buy milk" to it, save, start again:
      the only title is "Ideas" and its content is "buy milk". */
  method IdeasExample() returns (added: string, titles: seq<string>, content: string)
    ensures added == "Ideas"
    ensures titles == ["Ideas"] && content == "buy milk"
  {
    var file := new NotesFile(Missing);
    var store := new NoteManager(file);
    var _ := store.LoadNotes();
    added := store.AddNewNote("Ideas");
    store.SetNoteContent("Ideas", "buy milk");
    store.SaveNotesToFile();
    var next := new NoteManager(file);
    var _ := next.LoadNotes();
    titles := next.GetNoteTitles();
    content := next.GetNoteContent("Ideas");
  }

  /** Adding "Ideas" to {"Ideas": "x"} gives "Ideas (1)" and two notes. */
  method IdeasCollisionExample() returns (added: string, titles: seq<string>, kept: string)
    ensures added == "Ideas (1)"
    ensures titles == ["Ideas", "Ideas (1)"] && kept == "x"
  {
    var file := new NotesFile(Missing);
    var store := new NoteManager(file);
    store.SetNoteContent("Ideas", "x");
    assert Candidate("Ideas", 1) == "Ideas (1)" by {
      assert NatToString(1) == "1";
    }
    added := store.AddNewNote("Ideas");
    titles := store.GetNoteTitles();
    kept := store.GetNoteContent("Ideas");
  }
}
