/**
 * The `notes` collection and the two operations on it: `saveNote`
 * (`insertOne`, an append) and `retrieveNotes` (read everything, newest first,
 * with each description passed through the Markdown renderer).
 */
module Notes {

  /**
   * One stored note: the `_id` the store assigns on insertion and the
   * Markdown `description` it was submitted with.
   */
  datatype Note = Note(id: nat, description: string)

  /** `{ ...note, description: render(note.description) }`: only the description changes. */
  function Rendered(n: Note, render: string -> string): (m: Note)
    ensures m.id == n.id && m.description == render(n.description)
  {
    n.(description := render(n.description))
  }

  /** `Array.prototype.reverse` on a copy. */
  function Reversed<T>(s: seq<T>): (r: seq<T>)
    ensures |r| == |s|
    ensures forall i :: 0 <= i < |s| ==> r[i] == s[|s| - 1 - i]
  {
    if s == [] then [] else Reversed(s[1..]) + [s[0]]
  }

  /** `.map((note) => ({ ...note, description: marked(note.description) }))`. */
  function RenderAll(s: seq<Note>, render: string -> string): (r: seq<Note>)
    ensures |r| == |s|
    ensures forall i :: 0 <= i < |s| ==> r[i] == Rendered(s[i], render)
  {
    if s == [] then [] else [Rendered(s[0], render)] + RenderAll(s[1..], render)
  }

  /**
   * `retrieveNotes`: the stored notes in reverse insertion order, each with its
   * description rendered and its other fields copied. It is a function of the
   * stored sequence, so retrieving never changes the store.
   */
  function RetrieveNotes(stored: seq<Note>, render: string -> string): (r: seq<Note>)
    ensures |r| == |stored|
    ensures forall i :: 0 <= i < |r| ==>
              r[i].id == stored[|stored| - 1 - i].id &&
              r[i].description == render(stored[|stored| - 1 - i].description)
  {
    RenderAll(Reversed(stored), render)
  }

  /** The note saved last is listed first, ahead of everything listed before. */
  lemma RetrieveAfterSave(stored: seq<Note>, n: Note, render: string -> string)
    ensures RetrieveNotes(stored + [n], render) == [Rendered(n, render)] + RetrieveNotes(stored, render)
  {
  }

  /** Saving A and then B lists B before A. */
  lemma RetrieveTwoSaves(a: Note, b: Note, render: string -> string)
    ensures RetrieveNotes([a, b], render) == [Rendered(b, render), Rendered(a, render)]
  {
  }

  /**
   * Ids strictly increase along the insertion order and stay below the next id
   * to hand out. This is how the model keeps MongoDB's promise that every
   * inserted record gets an `_id` no other record of the collection has.
   */
  ghost predicate IdsOrdered(notes: seq<Note>, nextId: nat) {
    (forall i :: 0 <= i < |notes| ==> notes[i].id < nextId) &&
    (forall i, j :: 0 <= i < j < |notes| ==> notes[i].id < notes[j].id)
  }

  /** Retrieval lists the newest note first: ids strictly decrease along the feed, so no note is listed twice. */
  lemma RetrievedNewestFirst(notes: seq<Note>, nextId: nat, render: string -> string)
    requires IdsOrdered(notes, nextId)
    ensures var listed := RetrieveNotes(notes, render);
      forall i, j :: 0 <= i < j < |listed| ==> listed[i].id > listed[j].id
  {
  }

  /** The `notes` collection: its records in their natural (insertion) order. */
  class NoteStore {
    var notes: seq<Note>
    var nextId: nat

    ghost predicate Valid()
      reads this
    {
      IdsOrdered(notes, nextId)
    }

    constructor ()
      ensures Valid() && notes == [] && nextId == 0
    {
      notes := [];
      nextId := 0;
    }

    /**
     * `saveNote(db, { description })`: appends one record with a fresh id and
     * the given description; every earlier record is kept as it was.
     */
    method SaveNote(description: string) returns (saved: Note)
      requires Valid()
      modifies this
      ensures Valid()
      ensures saved == Note(old(nextId), description)
      ensures notes == old(notes) + [saved]
      ensures nextId == old(nextId) + 1
      ensures forall k :: 0 <= k < |old(notes)| ==> old(notes)[k].id != saved.id
    {
      saved := Note(nextId, description);
      notes := notes + [saved];
      nextId := nextId + 1;
    }
  }

  /** Saving a note makes it the first one a following retrieval lists. */
  method SaveThenRetrieve(store: NoteStore, description: string, render: string -> string)
      returns (listed: seq<Note>)
    requires store.Valid()
    modifies store
    ensures store.Valid() && store.notes == old(store.notes) + [Note(old(store.nextId), description)]
    ensures listed == RetrieveNotes(store.notes, render)
    ensures |listed| == |old(store.notes)| + 1
    ensures listed[0] == Note(old(store.nextId), render(description))
    ensures listed[1..] == RetrieveNotes(old(store.notes), render)
  {
    var saved := store.SaveNote(description);
    listed := RetrieveNotes(store.notes, render);
    RetrieveAfterSave(old(store.notes), saved, render);
  }
}
