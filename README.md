# Scrybin note store, modelled in Dafny

Scrybin is a desktop note-taking application. Its only part with logic of its
own is the note store, `NoteManager`. The store is an in-memory mapping from
note title to note content. It keeps the insertion order of a Python dict.
It copies the whole mapping to and from the file `notes.json`.

The model has five modules:

- `Decimal` (decimal.dfy): how Python writes a non-negative int, the number in
  a collision suffix. It is proved one-to-one, and onto the canonical digit
  strings.
- `Titles` (titles.dfy): the titles `add_new_note` tries, `Candidate(t, 0) == t`
  and `Candidate(t, k) == t + " (" + k + ")"`. These are proved pairwise
  distinct. `FirstFree` is a reference definition of the first free candidate.
  A pigeonhole lemma shows that at most `|notes|` candidates can collide.
- `NoteStore` (note_store.dfy): class `NoteManager`. Field `notes` is the dict
  and field `order` its key order. Class `NotesFile` is the notes file, whose
  state is missing, malformed, or a stored snapshot. The object invariant
  `Valid()` says that `order` lists every key exactly once. Every method keeps
  it, and states its new `notes` and `order` in terms of the old ones.
- `EditorSession` (editor_session.dfy): how the main window calls the store for
  New Note, Save, Save As and Delete. Save As is given twice: as written, and
  corrected (see Findings).
- `Scenarios` (scenarios.dfy): uses made of several calls. One adds a title
  three times. Others save and load back, on the same store or on a new one.

The notes file is the object `NotesFile`, passed to the store's constructor. A
stored snapshot is a `Collection` of notes and title order whose order is
coherent: this is what a JSON object parses to.

Two points of `load_notes` are modelled as the code behaves:

- `load_notes` has no exception handler. A malformed file makes it raise, and
  the store keeps its old contents. This is the `Failure(MalformedFile)` result.
- A missing file leaves the collection as it was. It is not reset to empty.

## Model

| member | source | states |
|---|---|---|
| `Decimal.NatToString` | scrybin/note_manager.py:45 | the suffix number is written as a non-empty digit string with no leading zero, and it starts with '0' only for zero |
| `Decimal.StringToNatOfNatToString` | scrybin/note_manager.py:45 | reading the rendering of n back as a decimal number gives n |
| `Decimal.NatToStringInjective` | scrybin/note_manager.py:45 | different counts give different suffix texts |
| `Decimal.NatToStringOfStringToNat` | scrybin/note_manager.py:45 | every canonical digit string is the rendering of the number it denotes |
| `Titles.CandidateShape` | scrybin/note_manager.py:42-45 | try 0 is the title itself; try k >= 1 is the title, then " (", a canonical decimal number that reads back as k, then ")" |
| `Titles.FirstProbes` | scrybin/note_manager.py:42-46 | the first three titles tried for t are t, "t (1)" and "t (2)" |
| `Titles.CandidateInjective` | scrybin/note_manager.py:44-46 | two tries of one title give the same string only if they are the same try |
| `Titles.CandidatesBelow` | scrybin/note_manager.py:44-46 | the first n titles tried form a set of exactly n strings, containing try j exactly when j < n |
| `Titles.FirstFree` | scrybin/note_manager.py:42-46 | reference definition: the first try from k on that is not a key, with every try before it (from k) a key, so it is the smallest free one |
| `Titles.CollisionBound` | scrybin/note_manager.py:44-46 | if the first n tries all collide, there are at least n keys (pigeonhole) |
| `Titles.FirstFreeBound` | scrybin/note_manager.py:44-46 | the chosen try number is at most the number of notes, so `add_new_note` makes at most |notes| probes |
| `Titles.FirstFreeOfUnusedTitle` | scrybin/note_manager.py:42-44 | the requested title itself is used exactly when it is not a key |
| `Titles.SuccessiveAdds` | scrybin/note_manager.py:42-47 | when no try of t is a key, after k adds of t the next add settles on try k |
| `NoteStore.AppendKeepsCoherent` | scrybin/note_manager.py:47 | inserting a new key at the end of the order keeps every key listed exactly once |
| `NoteStore.RemoveKeepsCoherent` | scrybin/note_manager.py:57-58 | removing a key's one position from the order keeps every remaining key listed exactly once and drops the removed key |
| `NoteStore.NoteManager.constructor` | scrybin/note_manager.py:8-11 | a new store holds no notes and has an empty title order |
| `NoteStore.NoteManager.LoadNotes` | scrybin/note_manager.py:13-23 | a stored file replaces notes and order; a missing file leaves the store unchanged and returns it; a malformed file fails and leaves the store unchanged |
| `NoteStore.NoteManager.SaveNotesToFile` | scrybin/note_manager.py:25-30 | the file afterwards holds exactly the current notes in the current title order, whatever it held before |
| `NoteStore.NoteManager.AddNewNote` | scrybin/note_manager.py:32-48 | the loop terminates; the result is the smallest free try of the title; it was not a key before; it now maps to ""; no other note changes; it is appended to the title order |
| `NoteStore.NoteManager.DeleteNote` | scrybin/note_manager.py:50-58 | the title is no longer a key and reads as ""; other notes keep their content and relative order; an absent title leaves the store unchanged |
| `NoteStore.NoteManager.GetNoteContent` | scrybin/note_manager.py:60-70 | the stored content for a key, "" for a title that is not a key; it never fails and changes nothing |
| `NoteStore.NoteManager.SetNoteContent` | scrybin/note_manager.py:72-80 | afterwards the title reads as the given content, present before or not; all other notes are unchanged; an existing title keeps its position and a new one is appended |
| `NoteStore.NoteManager.GetNoteTitles` | scrybin/note_manager.py:82-89 | the titles are exactly the keys, each once, and they are the tracked insertion order |
| `EditorSession.NewNote` | scrybin/app.py:105-118 | adds an empty note under the requested title made unique, or under "New Note" when none was given, and opens the title actually used |
| `EditorSession.SaveNote` | scrybin/app.py:128-138 | with a note open, the note's content becomes the text, an existing title keeps its position and a new one is appended, and the file afterwards holds the whole collection; with none open nothing changes |
| `EditorSession.SaveNoteAsAsWritten` | scrybin/app.py:140-164 | as written: reserves a unique title but stores the text under the requested title; on a taken title, that note's old content is replaced and an empty reserved note is left behind |
| `EditorSession.SaveNoteAs` | scrybin/app.py:140-164 | corrected: the text goes to the reserved title; no existing note changes; the reserved title is opened; the file holds the collection |
| `EditorSession.DeleteCurrentNote` | scrybin/app.py:166-184 | when confirmed with a note open, the note is removed and closed, the other titles keep their relative order (the order is unchanged when the open title is not a key), and the file holds the remaining collection; otherwise nothing changes |
| `EditorSession.SaveAsOverwriteExample` | scrybin/app.py:152-157 | Save As "Ideas" from "Draft" on {"Ideas": "x", "Draft": "y"} replaces "x" by "y" and leaves an extra title "Ideas (1)" |
| `EditorSession.SaveAsKeepsExample` | scrybin/app.py:152-157 | the same Save As, corrected, keeps "Ideas" as "x" and puts "y" under the opened "Ideas (1)" |
| `EditorSession.IdeasProbe` | scrybin/note_manager.py:44-46 | with only "Ideas" and "Draft" taken, adding "Ideas" settles on "Ideas (1)" |
| `Scenarios.AddThrice` | scrybin/note_manager.py:42-48 | on a store with no try of t, three adds of t return t, "t (1)", "t (2)", add three empty notes and append them in that order |
| `Scenarios.NextAdd` | scrybin/note_manager.py:42-47 | with the first k tries taken, the next add takes try k and the first k + 1 tries are then taken |
| `Scenarios.SaveThenLoad` | scrybin/note_manager.py:20-30 | saving and then loading leaves notes and title order as they were, and load returns those notes |
| `Scenarios.ReloadInNewStore` | scrybin/note_manager.py:20-30 | a new store that loads the file just saved holds the same notes in the same title order |
| `Scenarios.IdeasExample` | scrybin/note_manager.py:20-89 | empty store, add "Ideas", set "buy milk", save, reload: the titles are ["Ideas"] and the content is "buy milk" |
| `Scenarios.IdeasCollisionExample` | scrybin/note_manager.py:42-48 | adding "Ideas" to {"Ideas": "x"} returns "Ideas (1)", gives two titles, and keeps "x" |

## Left out

- JSON encoding and decoding, `os.path.exists` and file I/O. The file is an abstract state: missing, malformed, or a stored snapshot.
- NoteStore.NoteManager.SaveNotesToFile: always succeeds. Write failures (disk full, permission denied) and a file left half-written are not modelled, because they come from the operating system.
- NoteStore.NoteManager.LoadNotes: a file with valid JSON that is not an object of strings is not modelled. Duplicate keys in the file are not modelled either. Both depend on the JSON library.
- NoteStore.NoteManager.LoadNotes: returns the notes as a value. The Python method returns the store's own dict, so a caller's changes to it would change the store; that aliasing is not modelled, nor is the key order of the returned dict (the window ignores the return value).
- The `current_note` field of `NoteManager`, because nothing reads it.
- Text trimming with `str.strip()`: the editor functions take text and titles already trimmed, because Python's whitespace rules are outside the store.
- Everything else in scrybin/app.py: the list widget (including the duplicate list entry Save As adds), the ribbon and its word count, zen mode, and the key handling. scrybin/menu_bar.py, scrybin/text_editor.py and scrybin/preferences_manager.py are not part of this model, because they are Qt plumbing.

## Findings

| source | as written | input that shows it | evidently intended | confidence | as-written member | corrected member |
|---|---|---|---|---|---|---|
| scrybin/app.py:152-157 | Save As calls `add_new_note(note_title)` and ignores the title it returns. It then sets the content of, and opens, the requested `note_title` | store {"Ideas": "x", "Draft": "y"}, "Draft" open, Save As "Ideas" | the content is stored under, and the window opens, the unique title `add_new_note` returned, so no existing note is overwritten | not executed | `EditorSession.SaveAsOverwriteExample` | `EditorSession.SaveNoteAs` |
