/** The on-device note store: the whole collection of notes kept as one value
    under one storage key, read back fail-soft. */
module LocalDb {
  import opened Types

  /** What the storage key holds. `Missing` covers an absent key and an empty
      value; `Corrupt` a value that does not parse; `Holds` a parsed array. */
  datatype Slot = Missing | Corrupt | Holds(notes: seq<Note>)

  /** The notes a read of the slot yields: none unless it holds a parsed array. */
  function StoredNotes(slot: Slot): (notes: seq<Note>)
    ensures slot.Holds? ==> notes == slot.notes
    ensures !slot.Holds? ==> notes == []
  {
    match slot
    case Holds(ns) => ns
    case _ => []
  }

  /** `findIndex(n => n.id === id)`: the position of the first note with `id`, or -1. */
  function IndexOfId(notes: seq<Note>, id: string): (r: int)
    ensures -1 <= r < |notes|
    ensures r == -1 <==> forall k :: 0 <= k < |notes| ==> notes[k].id != id
    ensures r >= 0 ==> notes[r].id == id && forall k :: 0 <= k < r ==> notes[k].id != id
  {
    if notes == [] then -1
    else if notes[0].id == id then 0
    else
      var r := IndexOfId(notes[1..], id);
      assert forall k :: 1 <= k < |notes| ==> notes[k] == notes[1..][k - 1];
      if r < 0 then -1 else r + 1
  }

  /** The linear scan behind `findIndex`. */
  method FindIndex(notes: seq<Note>, id: string) returns (idx: int)
    ensures idx == IndexOfId(notes, id)
  {
    var i := 0;
    while i < |notes| && notes[i].id != id
      invariant 0 <= i <= |notes|
      invariant forall k :: 0 <= k < i ==> notes[k].id != id
    {
      i := i + 1;
    }
    idx := if i < |notes| then i else -1;
  }

  /** `find(n => n.id === id) ?? null`: the first note with `id`, if any. */
  function FindById(notes: seq<Note>, id: string): (r: Option<Note>)
    ensures r == None <==> forall k :: 0 <= k < |notes| ==> notes[k].id != id
    ensures r != None ==> r.value.id == id && r.value == notes[IndexOfId(notes, id)]
  {
    var idx := IndexOfId(notes, id);
    if idx < 0 then None else Some(notes[idx])
  }

  /** The collection `saveNote` writes back: the first note with the same id
      replaced in place, or else the note put in front. */
  function Upsert(notes: seq<Note>, note: Note): (r: seq<Note>)
    ensures note in r
    ensures |r| == if IndexOfId(notes, note.id) >= 0 then |notes| else |notes| + 1
  {
    var idx := IndexOfId(notes, note.id);
    if idx >= 0 then
      assert notes[idx := note][idx] == note;
      notes[idx := note]
    else [note] + notes
  }

  /** No two notes share an id. */
  predicate UniqueIds(notes: seq<Note>) {
    forall i, j :: 0 <= i < j < |notes| ==> notes[i].id != notes[j].id
  }

  /** The note store over its one storage key. */
  class NoteStore {
    var slot: Slot

    /** A store over whatever the key already holds. */
    constructor(initial: Slot)
      ensures slot == initial
    {
      slot := initial;
    }

    /** `getAllNotes`: the stored notes, or none when the key is absent, empty or unparsable. */
    method GetAllNotes() returns (notes: seq<Note>)
      ensures notes == StoredNotes(slot)
    {
      match slot
      case Missing =>
        notes := [];
      case Corrupt =>
        notes := [];
      case Holds(ns) =>
        notes := ns;
    }

    /** `getNoteById`: the first stored note with `id`, or none. */
    method GetNoteById(id: string) returns (r: Option<Note>)
      ensures r == FindById(StoredNotes(slot), id)
    {
      var notes := GetAllNotes();
      var idx := FindIndex(notes, id);
      if idx >= 0 {
        r := Some(notes[idx]);
      } else {
        r := None;
      }
    }

    /** `saveNote`: reads the collection, replaces or prepends the note, writes it all back. */
    method SaveNote(note: Note)
      modifies this
      ensures slot == Holds(Upsert(old(StoredNotes(slot)), note))
      ensures !old(slot).Holds? ==> slot == Holds([note])
      ensures FindById(StoredNotes(slot), note.id) == Some(note)
    {
      var notes := GetAllNotes();
      var idx := FindIndex(notes, note.id);
      if idx >= 0 {
        notes := notes[idx := note];
      } else {
        notes := [note] + notes;
      }
      slot := Holds(notes);
      SaveThenFind(old(StoredNotes(slot)), note);
    }

    /** `clearAllNotes`: removes the key, after which reads yield no notes. */
    method ClearAllNotes()
      modifies this
      ensures slot == Missing
      ensures StoredNotes(slot) == []
    {
      slot := Missing;
    }
  }

  /** After a save, looking the id up finds the saved note. */
  lemma SaveThenFind(notes: seq<Note>, note: Note)
    ensures FindById(Upsert(notes, note), note.id) == Some(note)
  {
    var idx := IndexOfId(notes, note.id);
    var r := Upsert(notes, note);
    if idx >= 0 {
      assert r[idx] == note;
      assert forall k :: 0 <= k < idx ==> r[k] == notes[k];
    } else {
      assert r[0] == note;
    }
  }

  /** Saving a note whose id is stored overwrites only the first note with that id. */
  lemma UpsertReplacesInPlace(notes: seq<Note>, note: Note, i: nat)
    requires i < |notes| && notes[i].id == note.id
    requires forall k :: 0 <= k < i ==> notes[k].id != note.id
    ensures |Upsert(notes, note)| == |notes|
    ensures Upsert(notes, note)[i] == note
    ensures forall k :: 0 <= k < |notes| && k != i ==> Upsert(notes, note)[k] == notes[k]
  {
    assert IndexOfId(notes, note.id) == i;
  }

  /** Saving a note whose id is not stored puts it in front of the old notes. */
  lemma UpsertPrepends(notes: seq<Note>, note: Note)
    requires forall k :: 0 <= k < |notes| ==> notes[k].id != note.id
    ensures Upsert(notes, note) == [note] + notes
  {
  }

  /** Saving keeps ids unique. */
  lemma UpsertKeepsIdsUnique(notes: seq<Note>, note: Note)
    requires UniqueIds(notes)
    ensures UniqueIds(Upsert(notes, note))
  {
    var idx := IndexOfId(notes, note.id);
    var r := Upsert(notes, note);
    if idx < 0 {
      forall i, j | 0 <= i < j < |r| ensures r[i].id != r[j].id {
        assert r[j] == notes[j - 1];
        if i > 0 {
          assert r[i] == notes[i - 1];
        }
      }
    } else {
      forall i, j | 0 <= i < j < |r| ensures r[i].id != r[j].id {
        if i != idx && j != idx {
          assert r[i] == notes[i] && r[j] == notes[j];
        }
      }
    }
  }

  /** Two saves under the same id leave what the second save alone leaves. */
  lemma UpsertTwice(notes: seq<Note>, a: Note, b: Note)
    requires a.id == b.id
    ensures Upsert(Upsert(notes, a), b) == Upsert(notes, b)
  {
    var idx := IndexOfId(notes, a.id);
    var once := Upsert(notes, a);
    if idx >= 0 {
      assert once[idx] == a;
      assert forall k :: 0 <= k < idx ==> once[k] == notes[k];
      assert IndexOfId(once, b.id) == idx;
    } else {
      assert IndexOfId(once, b.id) == 0;
    }
  }

  /** Saving the same note twice is saving it once. */
  lemma UpsertIdempotent(notes: seq<Note>, note: Note)
    ensures Upsert(Upsert(notes, note), note) == Upsert(notes, note)
  {
    UpsertTwice(notes, note, note);
  }
}
