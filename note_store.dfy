/** The note store: `NoteManager` keeps an in-memory mapping from note title
    to note content, in the insertion order of a Python dict, and copies it
    to and from the notes file. */
module NoteStore {
  import opened Decimal
  import opened Titles

  predicate NoDuplicates(s: seq<string>) {
    forall i, j :: 0 <= i < j < |s| ==> s[i] != s[j]
  }

  /** A notes mapping together with the order its keys were inserted in. */
  datatype Collection = Collection(notes: map<string, string>, order: seq<string>) {
    /** The order lists every key exactly once and nothing else. */
    ghost predicate Coherent() {
      NoDuplicates(order) && forall t :: t in order <==> t in notes
    }
  }

  /** What a well-formed notes file holds: a JSON object keeps its keys in
      file order, one entry per key. */
  type Snapshot = c: Collection | c.Coherent() witness Collection(map[], [])

  /** The state of the notes file on disk. */
  datatype FileState =
    | Missing
    | Malformed
    | Stored(snapshot: Snapshot)

  datatype PersistenceError = MalformedFile

  datatype Result<T> = Success(value: T) | Failure(error: PersistenceError)

  /** The position of x in s. */
  function IndexOf(s: seq<string>, x: string): (i: nat)
    requires x in s
    ensures i < |s| && s[i] == x && x !in s[..i]
  {
    if s[0] == x then 0
    else
      var i := 1 + IndexOf(s[1..], x);
      assert s[..i] == [s[0]] + s[1..][..i - 1];
      i
  }

  /** Appending a new key keeps the order coherent. */
  lemma AppendKeepsCoherent(c: Collection, t: string, content: string)
    requires c.Coherent() && t !in c.notes
    ensures Collection(c.notes[t := content], c.order + [t]).Coherent()
  {
  }

  /** Cutting a key's only occurrence out of the order, and the key out of
      the notes, keeps the collection coherent. */
  lemma RemoveKeepsCoherent(c: Collection, i: nat)
    requires c.Coherent() && i < |c.order|
    ensures Collection(c.notes - {c.order[i]}, c.order[..i] + c.order[i + 1..]).Coherent()
  {
  }

  /** The notes file; its path ("notes.json") is fixed, so the model has one
      file object that every store is given. */
  class NotesFile {
    var state: FileState

    constructor (initial: FileState)
      ensures state == initial
    {
      state := initial;
    }
  }

  class NoteManager {
    /** The notes, title to content. */
    var notes: map<string, string>
    /** The titles in insertion order: the iteration order of the Python dict. */
    var order: seq<string>
    /** The file load_notes reads and save_notes_to_file writes. */
    const file: NotesFile

    ghost predicate Valid()
      reads this
    {
      Collection(notes, order).Coherent()
    }

    ghost function Contents(): Snapshot
      reads this
      requires Valid()
    {
      Collection(notes, order)
    }

    /** A new store is empty; it is filled by load_notes. */
    constructor (file: NotesFile)
      ensures Valid()
      ensures notes == map[] && order == [] && this.file == file
    {
      notes, order := map[], [];
      this.file := file;
    }

    /** Replaces the notes by the file's if the file exists and returns the
        notes. A missing file leaves the store as it was; a malformed file
        fails (the JSON decoder raises) and also leaves it as it was. */
    method LoadNotes() returns (r: Result<map<string, string>>)
      requires Valid()
      modifies this
      ensures Valid()
      ensures file.state.Missing? ==>
        notes == old(notes) && order == old(order) && r == Success(notes)
      ensures file.state.Malformed? ==>
        notes == old(notes) && order == old(order) && r == Failure(MalformedFile)
      ensures file.state.Stored? ==>
        Contents() == file.state.snapshot && r == Success(notes)
    {
      match file.state
      case Missing =>
        r := Success(notes);
      case Malformed =>
        r := Failure(MalformedFile);
      case Stored(snapshot) =>
        notes, order := snapshot.notes, snapshot.order;
        r := Success(notes);
    }

    /** Overwrites the file with the whole collection, in title order. */
    method SaveNotesToFile()
      requires Valid()
      modifies file
      ensures file.state == Stored(Contents())
    {
      file.state := Stored(Collection(notes, order));
    }

    /** Adds an empty note under `noteTitle`, or under the first of
        "noteTitle (1)", "noteTitle (2)", ... that is not yet a title, and
        returns the title used. No existing note is overwritten. */
    method AddNewNote(noteTitle: string) returns (r: string)
      requires Valid()
      modifies this
      ensures Valid()
      ensures r == Candidate(noteTitle, FirstFree(noteTitle, old(notes).Keys, 0))
      ensures r !in old(notes)
      ensures notes == old(notes)[r := ""]
      ensures order == old(order) + [r]
    {
      var title := noteTitle;
      var count := 1;
      while title in notes
        modifies {}
        invariant 1 <= count <= |notes| + 1
        invariant title == Candidate(noteTitle, count - 1)
        invariant forall j :: 0 <= j < count - 1 ==> Candidate(noteTitle, j) in notes
        decreases |notes| - (count - 1)
      {
        CollisionBound(noteTitle, notes.Keys, count);
        title := noteTitle + " (" + NatToString(count) + ")";
        count := count + 1;
      }
      AppendKeepsCoherent(Collection(notes, order), title, "");
      notes := notes[title := ""];
      order := order + [title];
      r := title;
    }

    /** Removes the note titled `noteTitle`; does nothing if there is none. */
    method DeleteNote(noteTitle: string)
      requires Valid()
      modifies this
      ensures Valid()
      ensures notes == old(notes) - {noteTitle}
      ensures noteTitle in old(notes) ==> exists i ::
        0 <= i < |old(order)| && old(order)[i] == noteTitle &&
        order == old(order)[..i] + old(order)[i + 1..]
      ensures noteTitle !in old(notes) ==> order == old(order)
      ensures noteTitle !in GetNoteTitles() && GetNoteContent(noteTitle) == ""
    {
      if noteTitle in notes {
        var i := IndexOf(order, noteTitle);
        RemoveKeepsCoherent(Collection(notes, order), i);
        notes := notes - {noteTitle};
        order := order[..i] + order[i + 1..];
      }
    }

    /** The content of the note titled `noteTitle`, or "" when there is no
        such note. */
    function GetNoteContent(noteTitle: string): (r: string)
      reads this
      ensures noteTitle in notes ==> r == notes[noteTitle]
      ensures noteTitle !in notes ==> r == ""
    {
      if noteTitle in notes then notes[noteTitle] else ""
    }

    /** Gives the note titled `noteTitle` the content `content`, adding the
        note at the end of the order if there was none. */
    method SetNoteContent(noteTitle: string, content: string)
      requires Valid()
      modifies this
      ensures Valid()
      ensures notes == old(notes)[noteTitle := content]
      ensures order == if noteTitle in old(notes) then old(order) else old(order) + [noteTitle]
      ensures GetNoteContent(noteTitle) == content
    {
      if noteTitle !in notes {
        AppendKeepsCoherent(Collection(notes, order), noteTitle, content);
        order := order + [noteTitle];
      }
      notes := notes[noteTitle := content];
    }

    /** All note titles, each once, in insertion order. */
    function GetNoteTitles(): (r: seq<string>)
      reads this
      requires Valid()
      ensures NoDuplicates(r)
      ensures forall t :: t in r <==> t in notes
      ensures r == order
    {
      order
    }
  }
}
