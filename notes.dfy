/** The records of the note engine: a note, an element of the collection,
    the one-slot undo buffer and the editor form. Times are integer
    milliseconds since the epoch (what `Date.getTime()` returns). */
module Notes {

  datatype Option<T> = None | Some(value: T)

  /** The `priority` select: High, Medium or Low. */
  datatype Priority = High | Medium | Low

  /** `priorityOrder` of the comparator. */
  function Rank(p: Priority): (r: int)
    ensures 1 <= r <= 3
    ensures r == 3 <==> p == High
    ensures r == 1 <==> p == Low
  {
    match p
    case High => 3
    case Medium => 2
    case Low => 1
  }

  /** A note record as `handleAdd` builds it. `priority` is optional because
      imported records may lack one; `updatedAt` is absent until the first update. */
  datatype Note = Note(
    id: int,
    title: string,
    content: string,
    tags: seq<string>,
    category: string,
    priority: Option<Priority>,
    dueDate: Option<int>,
    color: string,
    createdAt: int,
    updatedAt: Option<int>,
    pinned: bool,
    isArchived: bool)

  /** An element of the `notes` array. Undoing a bulk action appends the
      whole array of affected notes as ONE element; such an element has no
      `id`, no `isArchived` and no `tags` of its own. */
  datatype Entry = NoteEntry(note: Note) | BatchEntry(batch: seq<Note>)

  /** `lastDeletedNote`: nothing (null or undefined), one note, or the array
      stored by a bulk action (truthy even when empty). */
  datatype Slot = Empty | One(note: Note) | Many(notes: seq<Note>)

  /** The editor form fields (`title`, `content`, `tags`, `category`,
      `priority`, `dueDate`, `color`). The date input is held as the instant
      it denotes, absent when the input is empty. */
  datatype Draft = Draft(
    title: string,
    content: string,
    tags: string,
    category: string,
    priority: Priority,
    dueDate: Option<int>,
    color: string)

  /** The form after a reset: all fields empty, priority Medium. */
  const EmptyDraft: Draft := Draft("", "", "", "", Medium, None, "")

  /** Wraps notes as collection elements (the spread of an imported array). */
  function Entries(ns: seq<Note>): (r: seq<Entry>)
    ensures |r| == |ns|
    ensures forall i :: 0 <= i < |ns| ==> r[i] == NoteEntry(ns[i])
  {
    if ns == [] then [] else [NoteEntry(ns[0])] + Entries(ns[1..])
  }

  /** Wrapping one more note appends one more element. */
  lemma EntriesSnoc(ns: seq<Note>, n: Note)
    ensures Entries(ns + [n]) == Entries(ns) + [NoteEntry(n)]
  {
    assert Entries(ns + [n]) == Entries(ns) + [NoteEntry(n)];
  }
}
