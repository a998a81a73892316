/** The component state the handlers replace on each call: the `notes`
    array, the one-slot undo buffer `lastDeletedNote`, the bulk selection,
    the selected note, the note being edited and the editor form. Each
    method is one handler; it assigns the new value the matching
    `Collection` function computes, and touches no other field. */
module Store {
  import opened Notes
  import opened Text
  import opened Seqs
  import opened Collection
  import Query

  /** `editId` as an id list: `note.id === null` holds for no note. */
  function EditTargets(editId: Option<int>): (r: seq<int>)
    ensures editId.None? ==> r == []
    ensures editId.Some? ==> r == [editId.value]
  {
    match editId
    case None => []
    case Some(id) => [id]
  }

  class NoteStore {
    var notes: seq<Entry>
    var lastDeleted: Slot
    var selectedForBulk: seq<int>
    var selectedNoteId: Option<int>
    var editId: Option<int>
    var draft: Draft

    /** The checkbox toggle never lists an id twice. */
    ghost predicate Valid()
      reads this
    {
      NoDup(selectedForBulk)
    }

    /** Initial state: the saved collection (or `[]`), an empty form and
        nothing selected, edited or recoverable. */
    constructor(saved: seq<Entry>)
      ensures Valid()
      ensures notes == saved && lastDeleted == Empty && selectedForBulk == []
      ensures selectedNoteId == None && editId == None && draft == EmptyDraft
    {
      notes := saved;
      lastDeleted := Empty;
      selectedForBulk := [];
      selectedNoteId := None;
      editId := None;
      draft := EmptyDraft;
    }

    /** `selectedNote`: the first note whose id is the selected one. */
    function SelectedNote(): (r: Option<Note>)
      reads this
      ensures selectedNoteId.None? ==> r.None?
      ensures r.Some? ==> Some(r.value.id) == selectedNoteId && NoteEntry(r.value) in notes
      ensures selectedNoteId.Some? && (exists i :: 0 <= i < |notes| && Targeted(notes[i], [selectedNoteId.value])) ==> r.Some?
    {
      match selectedNoteId
      case None => None
      case Some(id) => FindFirst(notes, id)
    }

    /** The list the sidebar shows under the given criteria. */
    function Shown(c: Query.Criteria, now: int): (r: seq<Note>)
      reads this
      ensures multiset(r) == multiset(Query.VisibleNotes(notes, c, now))
      ensures Query.UnpinnedFirst(r)
    {
      Query.FilteredNotes(notes, c, now)
    }

    /** The word counter under the editor. */
    function DraftWords(): (r: nat)
      reads this
      ensures draft.content == "" ==> r == 0
      ensures draft.content != "" && AllSpace(draft.content) ==> r == 1
      ensures !AllSpace(draft.content) ==> r == Words(draft.content)
    {
      WordCountMeaning(draft.content);
      WordCount(draft.content)
    }

    /** The form's `onChange` handlers. */
    method SetDraft(d: Draft)
      modifies this`draft
      ensures draft == d
    {
      draft := d;
    }

    /** `handleAdd`: with a blank title and content nothing happens;
        otherwise the new note is appended, selected, and the form reset. */
    method Add(newId: int, now: int)
      modifies this`notes, this`draft, this`selectedNoteId
      ensures Blank(old(draft)) ==>
        notes == old(notes) && draft == old(draft) && selectedNoteId == old(selectedNoteId)
      ensures !Blank(old(draft)) ==>
        notes == old(notes) + [NoteEntry(Created(old(draft), newId, now))] &&
        draft == EmptyDraft && selectedNoteId == Some(newId)
    {
      if Blank(draft) {
        return;
      }
      notes := notes + [NoteEntry(Created(draft, newId, now))];
      draft := EmptyDraft;
      selectedNoteId := Some(newId);
    }

    /** `handleDelete` (confirmed): the first note with the id goes to the
        undo slot (Empty when there is none), every note with the id is
        removed, and a selection of that id is cleared. */
    method Delete(id: int)
      modifies this`notes, this`lastDeleted, this`selectedNoteId
      ensures lastDeleted == SlotOf(FindFirst(old(notes), id))
      ensures notes == RemoveWhere(old(notes), [id])
      ensures selectedNoteId == if old(selectedNoteId) == Some(id) then None else old(selectedNoteId)
    {
      lastDeleted := SlotOf(FindFirst(notes, id));
      notes := RemoveWhere(notes, [id]);
      if selectedNoteId == Some(id) {
        selectedNoteId := None;
      }
    }

    /** `handleUndoDelete`: a non-empty slot is appended as one element and
        the slot emptied; an empty slot changes nothing. */
    method UndoDelete()
      modifies this`notes, this`lastDeleted
      ensures old(lastDeleted).Empty? ==> notes == old(notes) && lastDeleted == Empty
      ensures !old(lastDeleted).Empty? ==>
        notes == Restore(old(notes), old(lastDeleted)) && |notes| == |old(notes)| + 1 &&
        lastDeleted == Empty
    {
      if !lastDeleted.Empty? {
        notes := Restore(notes, lastDeleted);
        lastDeleted := Empty;
      }
    }

    /** `handleArchive`: the first note with the id goes to the undo slot,
        every note with the id is archived, and the selection is cleared. */
    method Archive(id: int)
      modifies this`notes, this`lastDeleted, this`selectedNoteId
      ensures lastDeleted == SlotOf(FindFirst(old(notes), id))
      ensures notes == MapWhere(old(notes), [id], SetArchived(true))
      ensures selectedNoteId == None
    {
      lastDeleted := SlotOf(FindFirst(notes, id));
      notes := MapWhere(notes, [id], SetArchived(true));
      selectedNoteId := None;
    }

    /** `handleUnarchive`. */
    method Unarchive(id: int)
      modifies this`notes
      ensures notes == MapWhere(old(notes), [id], SetArchived(false))
    {
      notes := MapWhere(notes, [id], SetArchived(false));
    }

    /** `handleBulkArchive`: the selected notes, in collection order, go to
        the undo slot as one list; they are archived; the selection is cleared. */
    method BulkArchive()
      modifies this`notes, this`lastDeleted, this`selectedForBulk
      ensures Valid()
      ensures lastDeleted == Many(Selected(old(notes), old(selectedForBulk)))
      ensures notes == MapWhere(old(notes), old(selectedForBulk), SetArchived(true))
      ensures selectedForBulk == []
    {
      lastDeleted := Many(Selected(notes, selectedForBulk));
      notes := MapWhere(notes, selectedForBulk, SetArchived(true));
      selectedForBulk := [];
    }

    /** `handleBulkDelete` (confirmed): as `BulkArchive`, but the selected
        notes are removed. */
    method BulkDelete()
      modifies this`notes, this`lastDeleted, this`selectedForBulk
      ensures Valid()
      ensures lastDeleted == Many(Selected(old(notes), old(selectedForBulk)))
      ensures notes == RemoveWhere(old(notes), old(selectedForBulk))
      ensures selectedForBulk == []
    {
      lastDeleted := Many(Selected(notes, selectedForBulk));
      notes := RemoveWhere(notes, selectedForBulk);
      selectedForBulk := [];
    }

    /** `handleEdit`: loads the note into the form and selects it. */
    method Edit(n: Note)
      modifies this`editId, this`draft, this`selectedNoteId
      ensures editId == Some(n.id) && selectedNoteId == Some(n.id)
      ensures draft == DraftOf(n)
    {
      editId := Some(n.id);
      draft := DraftOf(n);
      selectedNoteId := Some(n.id);
    }

    /** `handleUpdate`: rewrites every note with the edited id from the form
        (none when nothing is being edited), then resets the form. */
    method Update(now: int)
      modifies this`notes, this`editId, this`draft
      ensures notes == MapWhere(old(notes), EditTargets(old(editId)), Change.Edit(old(draft), now))
      ensures editId == None && draft == EmptyDraft
    {
      notes := MapWhere(notes, EditTargets(editId), Change.Edit(draft, now));
      editId := None;
      draft := EmptyDraft;
    }

    /** `handleCancel`. */
    method Cancel()
      modifies this`editId, this`draft
      ensures editId == None && draft == EmptyDraft
    {
      editId := None;
      draft := EmptyDraft;
    }

    /** `handlePin`. */
    method Pin(id: int)
      modifies this`notes
      ensures notes == MapWhere(old(notes), [id], TogglePin)
    {
      notes := MapWhere(notes, [id], TogglePin);
    }

    /** The import reader's `onload`: `parsed` is the result of parsing the
        file, None when it is not valid JSON. */
    method ImportNotes(parsed: Option<seq<Note>>)
      modifies this`notes
      ensures notes == Import(old(notes), parsed)
    {
      notes := Import(notes, parsed);
    }

    /** The checkbox of a note in the list. */
    method ToggleSelect(id: int)
      requires Valid()
      modifies this`selectedForBulk
      ensures Valid()
      ensures selectedForBulk == ToggleSelection(old(selectedForBulk), id)
    {
      selectedForBulk := ToggleSelection(selectedForBulk, id);
    }

    /** `insertMarkdown`: `selection` is the textarea's selection, None when
        the textarea is not mounted (nothing happens). Returns the new caret. */
    method InsertMarkdown(markdown: string, selection: Option<(int, int)>) returns (caret: Option<int>)
      modifies this`draft
      ensures selection.None? ==> draft == old(draft) && caret.None?
      ensures selection.Some? ==>
        var (c, at) := Text.InsertMarkdown(old(draft).content, selection.value.0, selection.value.1, markdown);
        draft == old(draft).(content := c) && caret == Some(at)
    {
      if selection.None? {
        return None;
      }
      var (c, at) := Text.InsertMarkdown(draft.content, selection.value.0, selection.value.1, markdown);
      draft := draft.(content := c);
      return Some(at);
    }
  }
}
