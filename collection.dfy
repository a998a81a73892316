/** The new values the handlers of the note collection compute: each one a
    `map`, `filter`, `find` or spread over the `notes` array, the undo slot
    or the bulk selection. The `NoteStore` class assigns them to its fields. */
module Collection {
  import opened Notes
  import opened Text
  import opened Seqs
  import opened DueDates

  /** `ids.includes(e.id)`: an element with an id listed in `ids`. A batch
      element has no id and is never targeted. */
  predicate Targeted(e: Entry, ids: seq<int>) {
    e.NoteEntry? && e.note.id in ids
  }

  /** `!title.trim() && !content.trim()`. */
  predicate Blank(d: Draft) {
    Trim(d.title) == "" && Trim(d.content) == ""
  }

  /** The record `handleAdd` builds from the form. */
  function Created(d: Draft, id: int, now: int): (n: Note)
    ensures n.id == id && n.createdAt == now && n.updatedAt.None?
    ensures !n.pinned && !n.isArchived
    ensures n.title == d.title && n.content == d.content && n.color == d.color
    ensures n.tags == ParseTags(d.tags) && AllTags(n.tags)
    ensures n.category == Trim(d.category) && IsTrimmed(n.category)
    ensures n.priority == Some(d.priority) && n.dueDate == d.dueDate
  {
    Note(id, d.title, d.content, ParseTags(d.tags), Trim(d.category),
         Some(d.priority), d.dueDate, d.color, now, None, false, false)
  }

  /** The note `handleAdd` adds, or None when both the title and the content are blank. */
  function NewNote(d: Draft, id: int, now: int): (r: Option<Note>)
    ensures r.None? <==> AllSpace(d.title) && AllSpace(d.content)
    ensures r.Some? ==> r.value == Created(d, id, now)
  {
    if Blank(d) then None else Some(Created(d, id, now))
  }

  /** The three per-note rewrites: the edit form's fields, the pin toggle,
      and setting the archive flag. */
  datatype Change = Edit(form: Draft, now: int) | TogglePin | SetArchived(archived: bool)

  /** `{ ...note, <fields> }` for each change. */
  function Apply(n: Note, c: Change): (r: Note)
    ensures r.id == n.id && r.createdAt == n.createdAt
    ensures c.Edit? ==>
      r.pinned == n.pinned && r.isArchived == n.isArchived &&
      r.updatedAt == Some(c.now) && AllTags(r.tags) && IsTrimmed(r.category) &&
      r.priority.Some?
    ensures c.Edit? ==>
      r == Created(c.form, n.id, n.createdAt).(updatedAt := Some(c.now), pinned := n.pinned, isArchived := n.isArchived)
    ensures c.TogglePin? ==> r == n.(pinned := !n.pinned)
    ensures c.SetArchived? ==> r == n.(isArchived := c.archived)
  {
    match c
    case Edit(d, now) =>
      n.(title := d.title, content := d.content, tags := ParseTags(d.tags),
         category := Trim(d.category), priority := Some(d.priority),
         dueDate := d.dueDate, color := d.color, updatedAt := Some(now))
    case TogglePin => n.(pinned := !n.pinned)
    case SetArchived(b) => n.(isArchived := b)
  }

  /** `notes.map(note => ids.includes(note.id) ? change(note) : note)`:
      same length and order, only the targeted notes rewritten. */
  function MapWhere(es: seq<Entry>, ids: seq<int>, c: Change): (r: seq<Entry>)
    ensures |r| == |es|
    ensures forall i :: 0 <= i < |es| && Targeted(es[i], ids) ==> r[i] == NoteEntry(Apply(es[i].note, c))
    ensures forall i :: 0 <= i < |es| && !Targeted(es[i], ids) ==> r[i] == es[i]
  {
    if es == [] then []
    else
      var head := if Targeted(es[0], ids) then NoteEntry(Apply(es[0].note, c)) else es[0];
      [head] + MapWhere(es[1..], ids, c)
  }

  /** `notes.filter(note => ids.includes(note.id))`: the targeted notes in
      collection order. */
  function Selected(es: seq<Entry>, ids: seq<int>): (r: seq<Note>)
    ensures IsSubseq(Entries(r), es)
    ensures forall i :: 0 <= i < |r| ==> r[i].id in ids && NoteEntry(r[i]) in es
    ensures forall i :: 0 <= i < |es| && Targeted(es[i], ids) ==> es[i].note in r
  {
    if es == [] then []
    else if Targeted(es[0], ids) then
      var s := Selected(es[1..], ids);
      assert Entries([es[0].note] + s) == [es[0]] + Entries(s);
      [es[0].note] + s
    else
      var s := Selected(es[1..], ids);
      SubseqSkip(Entries(s), es);
      s
  }

  /** `notes.filter(note => !ids.includes(note.id))`: every element that is
      not targeted, in collection order. */
  function RemoveWhere(es: seq<Entry>, ids: seq<int>): (r: seq<Entry>)
    ensures IsSubseq(r, es)
    ensures forall i :: 0 <= i < |r| ==> r[i] in es && !Targeted(r[i], ids)
    ensures forall i :: 0 <= i < |es| && !Targeted(es[i], ids) ==> es[i] in r
  {
    if es == [] then []
    else if Targeted(es[0], ids) then
      var r := RemoveWhere(es[1..], ids);
      SubseqSkip(r, es);
      r
    else
      var r := RemoveWhere(es[1..], ids);
      assert ([es[0]] + r)[1..] == r;
      [es[0]] + r
  }

  /** Removing and selecting split the collection: every element goes to
      exactly one side. */
  lemma {:induction false} RemoveSelectPartition(es: seq<Entry>, ids: seq<int>)
    ensures multiset(RemoveWhere(es, ids)) + multiset(Entries(Selected(es, ids))) == multiset(es)
  {
    if es != [] {
      RemoveSelectPartition(es[1..], ids);
      assert es == [es[0]] + es[1..];
      if Targeted(es[0], ids) {
        var s := Selected(es[1..], ids);
        assert Entries([es[0].note] + s) == [es[0]] + Entries(s);
      }
    }
  }

  /** Nothing targeted: the map and the filter change nothing and select nothing. */
  lemma {:induction false} UntargetedNoOp(es: seq<Entry>, ids: seq<int>, c: Change)
    requires forall i :: 0 <= i < |es| ==> !Targeted(es[i], ids)
    ensures MapWhere(es, ids, c) == es
    ensures RemoveWhere(es, ids) == es
    ensures Selected(es, ids) == []
  {
    if es != [] {
      UntargetedNoOp(es[1..], ids, c);
      assert es == [es[0]] + es[1..];
    }
  }

  /** `notes.find(note => note.id === id)`: the first note with that id. */
  function FindFirst(es: seq<Entry>, id: int): (r: Option<Note>)
    ensures r.Some? ==> r.value.id == id && NoteEntry(r.value) in es
    ensures r.Some? ==> exists k :: 0 <= k < |es| && es[k] == NoteEntry(r.value) && FirstTargeted(es, [id], k)
    ensures r.None? <==> forall i :: 0 <= i < |es| ==> !Targeted(es[i], [id])
  {
    if es == [] then None
    else if Targeted(es[0], [id]) then
      assert FirstTargeted(es, [id], 0);
      Some(es[0].note)
    else
      var r := FindFirst(es[1..], id);
      assert forall i :: 1 <= i < |es| ==> es[i] == es[1..][i - 1];
      assert r.Some? ==> exists k :: 0 <= k < |es| && es[k] == NoteEntry(r.value) && FirstTargeted(es, [id], k) by {
        if r.Some? {
          var k :| 0 <= k < |es| - 1 && es[1..][k] == NoteEntry(r.value) && FirstTargeted(es[1..], [id], k);
          assert FirstTargeted(es, [id], k + 1);
        }
      }
      r
  }

  /** No element before index `k` is targeted. */
  predicate FirstTargeted(es: seq<Entry>, ids: seq<int>, k: int)
    requires 0 <= k <= |es|
  {
    forall j :: 0 <= j < k ==> !Targeted(es[j], ids)
  }

  /** `find` is the head of the corresponding `filter`. */
  lemma {:induction false} FindFirstIsFirstSelected(es: seq<Entry>, id: int)
    ensures FindFirst(es, id) == if Selected(es, [id]) == [] then None else Some(Selected(es, [id])[0])
  {
    if es != [] && !Targeted(es[0], [id]) {
      FindFirstIsFirstSelected(es[1..], id);
    }
  }

  /** What a single delete or archive stores for undo: the found note, or
      nothing (`undefined`) when no note has the id. */
  function SlotOf(found: Option<Note>): (r: Slot)
    ensures r.Empty? <==> found.None?
    ensures found.Some? ==> r == One(found.value)
  {
    match found
    case None => Empty
    case Some(n) => One(n)
  }

  /** `handleUndoDelete`: a truthy slot is appended as ONE element. */
  function Restore(es: seq<Entry>, slot: Slot): (r: seq<Entry>)
    ensures slot.Empty? ==> r == es
    ensures slot.One? ==> r == es + [NoteEntry(slot.note)]
    ensures slot.Many? ==> r == es + [BatchEntry(slot.notes)]
  {
    match slot
    case Empty => es
    case One(n) => es + [NoteEntry(n)]
    case Many(ns) => es + [BatchEntry(ns)]
  }

  /** The id occurs on exactly one note of the collection. */
  predicate UniqueId(es: seq<Entry>, id: int) {
    |Selected(es, [id])| == 1
  }

  /** Delete then undo gives back the same notes when the id was unique
      (the restored note moves to the end). */
  lemma DeleteThenUndo(es: seq<Entry>, id: int)
    requires UniqueId(es, id)
    ensures multiset(Restore(RemoveWhere(es, [id]), SlotOf(FindFirst(es, id)))) == multiset(es)
  {
    RemoveSelectPartition(es, [id]);
    FindFirstIsFirstSelected(es, id);
    var s := Selected(es, [id]);
    assert s == [s[0]];
    assert Entries(s) == [NoteEntry(s[0])];
  }

  /** Only the latest destructive action is recoverable: after deleting `x`
      and then `y`, undo brings back `y` but no note with id `x`. */
  lemma TwoDeletesOneUndo(es: seq<Entry>, x: int, y: int)
    requires x != y && FindFirst(es, y).Some?
    ensures var after := RemoveWhere(RemoveWhere(es, [x]), [y]);
      var slot := SlotOf(FindFirst(RemoveWhere(es, [x]), y));
      var restored := Restore(after, slot);
      slot.One? && slot.note.id == y &&
      forall i :: 0 <= i < |restored| ==> !Targeted(restored[i], [x])
  {
    var mid := RemoveWhere(es, [x]);
    var n := FindFirst(es, y).value;
    assert NoteEntry(n) in es && !Targeted(NoteEntry(n), [x]);
    var k :| 0 <= k < |es| && es[k] == NoteEntry(n);
    assert NoteEntry(n) in mid;
    assert FindFirst(mid, y).Some?;
    var after := RemoveWhere(mid, [y]);
    var slot := SlotOf(FindFirst(mid, y));
    var restored := after + [NoteEntry(slot.note)];
    forall i | 0 <= i < |restored| ensures !Targeted(restored[i], [x]) {
      if i < |after| {
        assert restored[i] == after[i] && after[i] in mid;
        var j :| 0 <= j < |mid| && mid[j] == after[i];
      }
    }
  }

  /** After a bulk action, undo appends the affected notes as one batch
      element; that element is never targeted again, so the notes stay out
      of the reach of every handler that looks notes up by id. */
  lemma BulkUndoAppendsOneElement(es: seq<Entry>, ids: seq<int>, probe: seq<int>)
    ensures var r := Restore(RemoveWhere(es, ids), Many(Selected(es, ids)));
      |r| == |RemoveWhere(es, ids)| + 1 &&
      r[|r| - 1] == BatchEntry(Selected(es, ids)) &&
      !Targeted(r[|r| - 1], probe)
  {
  }

  /** Archiving a note and undoing leaves two notes with its id: the
      archived one and the restored pre-archive copy. */
  lemma ArchiveThenUndo(es: seq<Entry>, id: int, n: Note)
    requires FindFirst(es, id) == Some(n) && !n.isArchived
    ensures var r := Restore(MapWhere(es, [id], SetArchived(true)), SlotOf(FindFirst(es, id)));
      NoteEntry(n.(isArchived := true)) in r && r[|r| - 1] == NoteEntry(n)
  {
    var k :| 0 <= k < |es| && es[k] == NoteEntry(n);
    assert MapWhere(es, [id], SetArchived(true))[k] == NoteEntry(n.(isArchived := true));
  }

  /** Archiving then unarchiving a set of ids gives back a collection whose
      targeted notes were all active. */
  lemma ArchiveUnarchive(es: seq<Entry>, ids: seq<int>)
    requires forall i :: 0 <= i < |es| && Targeted(es[i], ids) ==> !es[i].note.isArchived
    ensures MapWhere(MapWhere(es, ids, SetArchived(true)), ids, SetArchived(false)) == es
  {
    var r := MapWhere(MapWhere(es, ids, SetArchived(true)), ids, SetArchived(false));
    assert forall i :: 0 <= i < |es| ==> r[i] == es[i];
  }

  /** Pinning is an involution. */
  lemma PinTwice(es: seq<Entry>, id: int)
    ensures MapWhere(MapWhere(es, [id], TogglePin), [id], TogglePin) == es
  {
    var r := MapWhere(MapWhere(es, [id], TogglePin), [id], TogglePin);
    assert forall i :: 0 <= i < |es| ==> r[i] == es[i];
  }

  /** The checkbox of the notes list: remove the id if selected, else append it. */
  function ToggleSelection(sel: seq<int>, id: int): (r: seq<int>)
    ensures id in r <==> id !in sel
    ensures forall x :: x != id ==> (x in r <==> x in sel)
    ensures NoDup(sel) ==> NoDup(r)
  {
    if id in sel then RemoveAll(sel, id) else sel + [id]
  }

  /** `sel.filter(x => x !== id)`. */
  function RemoveAll(sel: seq<int>, id: int): (r: seq<int>)
    ensures id !in r
    ensures forall x :: x != id ==> (x in r <==> x in sel)
    ensures NoDup(sel) ==> NoDup(r)
    ensures IsSubseq(r, sel)
  {
    if sel == [] then []
    else if sel[0] == id then
      var r := RemoveAll(sel[1..], id);
      NoDupTail(sel);
      SubseqSkip(r, sel);
      r
    else
      var r := RemoveAll(sel[1..], id);
      NoDupTail(sel);
      assert ([sel[0]] + r)[1..] == r;
      assert sel[0] !in sel[1..] ==> sel[0] !in r;
      [sel[0]] + r
  }

  lemma NoDupTail(s: seq<int>)
    requires s != []
    ensures NoDup(s) ==> NoDup(s[1..]) && s[0] !in s[1..]
  {
    if NoDup(s) {
      forall k | 0 <= k < |s| - 1 ensures s[1..][k] != s[0] { assert s[1..][k] == s[k + 1]; }
    }
  }

  /** Ticking a box and unticking it restores the selection. */
  lemma ToggleTwice(sel: seq<int>, id: int)
    requires id !in sel
    ensures ToggleSelection(ToggleSelection(sel, id), id) == sel
  {
    RemoveAllAbsentLast(sel, id);
  }

  lemma {:induction false} RemoveAllAbsentLast(sel: seq<int>, id: int)
    requires id !in sel
    ensures RemoveAll(sel + [id], id) == sel
  {
    if sel != [] {
      assert (sel + [id])[1..] == sel[1..] + [id];
      RemoveAllAbsentLast(sel[1..], id);
      assert sel == [sel[0]] + sel[1..];
    } else {
      assert RemoveAll([id], id) == RemoveAll([], id);
    }
  }

  /** `setNotes([...notes, ...importedNotes])` on a good parse; a parse
      failure changes nothing. */
  function Import(es: seq<Entry>, parsed: Option<seq<Note>>): (r: seq<Entry>)
    ensures parsed.None? ==> r == es
    ensures parsed.Some? ==> |r| == |es| + |parsed.value| && r[..|es|] == es
    ensures parsed.Some? ==>
      forall i :: 0 <= i < |parsed.value| ==> r[|es| + i] == NoteEntry(parsed.value[i])
  {
    match parsed
    case None => es
    case Some(ns) => es + Entries(ns)
  }

  /** `notes.flatMap(note => note.tags)`; a batch element has no `tags`, which
      `flatMap` keeps as one `undefined` value (None). */
  function AllTagValues(es: seq<Entry>): (r: seq<Option<string>>)
    ensures forall i, k :: 0 <= i < |es| && es[i].NoteEntry? && 0 <= k < |es[i].note.tags| ==>
      Some(es[i].note.tags[k]) in r
    ensures forall i :: 0 <= i < |es| && es[i].BatchEntry? ==> None in r
    ensures forall i :: 0 <= i < |r| && r[i].Some? ==>
      exists j :: 0 <= j < |es| && es[j].NoteEntry? && r[i].value in es[j].note.tags
    ensures forall i :: 0 <= i < |r| && r[i].None? ==>
      exists j :: 0 <= j < |es| && es[j].BatchEntry?
  {
    if es == [] then []
    else
      var rest := AllTagValues(es[1..]);
      var head := match es[0]
        case NoteEntry(n) => TagValues(n.tags)
        case BatchEntry(_) => [None];
      assert forall j :: 1 <= j < |es| ==> es[j] == es[1..][j - 1];
      head + rest
  }

  /** The tag list of a concatenation is the concatenation of the tag lists. */
  lemma {:induction false} AllTagValuesAppend(a: seq<Entry>, b: seq<Entry>)
    ensures AllTagValues(a + b) == AllTagValues(a) + AllTagValues(b)
  {
    if a == [] {
      assert a + b == b;
    } else {
      var t := a[1..];
      assert a == [a[0]] + t;
      SeqAssoc([a[0]], t, b);
      AllTagValuesCons(a[0], t);
      AllTagValuesCons(a[0], t + b);
      AllTagValuesAppend(t, b);
      SeqAssoc(AllTagValues([a[0]]), AllTagValues(t), AllTagValues(b));
    }
  }

  lemma AllTagValuesCons(e: Entry, t: seq<Entry>)
    ensures AllTagValues([e] + t) == AllTagValues([e]) + AllTagValues(t)
  {
    assert ([e] + t)[1..] == t;
    assert [e][1..] == [];
  }

  /** One element contributes its own tags, or one `undefined`. */
  lemma AllTagValuesSingle(e: Entry)
    ensures e.NoteEntry? ==> AllTagValues([e]) == TagValues(e.note.tags)
    ensures e.BatchEntry? ==> AllTagValues([e]) == [None]
  {
    assert [e][1..] == [];
  }

  function TagValues(ts: seq<string>): (r: seq<Option<string>>)
    ensures |r| == |ts|
    ensures forall k :: 0 <= k < |ts| ==> r[k] == Some(ts[k])
  {
    if ts == [] then [] else [Some(ts[0])] + TagValues(ts[1..])
  }

  /** `getUniqueTags`: each tag value once, in order of first occurrence. */
  function UniqueTags(es: seq<Entry>): (r: seq<Option<string>>)
    ensures NoDup(r)
    ensures forall i :: 0 <= i < |r| ==> r[i] in AllTagValues(es)
    ensures forall i :: 0 <= i < |AllTagValues(es)| ==> AllTagValues(es)[i] in r
  {
    Dedupe(AllTagValues(es))
  }

  /** `notes.map(note => note.category).filter(cat => cat)`: the non-empty
      categories of the notes, in collection order. */
  function AllCategories(es: seq<Entry>): (r: seq<string>)
    ensures forall i :: 0 <= i < |r| ==> r[i] != ""
    ensures forall i :: 0 <= i < |r| ==>
      exists j :: 0 <= j < |es| && es[j].NoteEntry? && es[j].note.category == r[i]
    ensures forall j :: 0 <= j < |es| && es[j].NoteEntry? && es[j].note.category != "" ==>
      es[j].note.category in r
  {
    if es == [] then []
    else
      var rest := AllCategories(es[1..]);
      assert forall j :: 1 <= j < |es| ==> es[j] == es[1..][j - 1];
      if es[0].NoteEntry? && es[0].note.category != "" then [es[0].note.category] + rest
      else rest
  }

  /** The categories of a concatenation are the concatenation of the categories. */
  lemma {:induction false} AllCategoriesAppend(a: seq<Entry>, b: seq<Entry>)
    ensures AllCategories(a + b) == AllCategories(a) + AllCategories(b)
  {
    if a == [] {
      assert a + b == b;
    } else {
      var t := a[1..];
      assert a == [a[0]] + t;
      SeqAssoc([a[0]], t, b);
      AllCategoriesCons(a[0], t);
      AllCategoriesCons(a[0], t + b);
      AllCategoriesAppend(t, b);
      SeqAssoc(AllCategories([a[0]]), AllCategories(t), AllCategories(b));
    }
  }

  lemma AllCategoriesCons(e: Entry, t: seq<Entry>)
    ensures AllCategories([e] + t) == AllCategories([e]) + AllCategories(t)
  {
    assert ([e] + t)[1..] == t;
    assert [e][1..] == [];
  }

  /** One element contributes its category when it is a note with a non-empty one. */
  lemma AllCategoriesSingle(e: Entry)
    ensures e.NoteEntry? && e.note.category != "" ==> AllCategories([e]) == [e.note.category]
    ensures !(e.NoteEntry? && e.note.category != "") ==> AllCategories([e]) == []
  {
    assert [e][1..] == [];
  }

  /** `getUniqueCategories`: each non-empty category once, in order of first occurrence. */
  function UniqueCategories(es: seq<Entry>): (r: seq<string>)
    ensures NoDup(r)
    ensures forall i :: 0 <= i < |r| ==> r[i] != "" && r[i] in AllCategories(es)
    ensures forall j :: 0 <= j < |es| && es[j].NoteEntry? && es[j].note.category != "" ==>
      es[j].note.category in r
  {
    var all := AllCategories(es);
    var r := Dedupe(all);
    assert forall j :: 0 <= j < |es| && es[j].NoteEntry? && es[j].note.category != "" ==>
      es[j].note.category in all;
    r
  }

  /** What the edit form shows for a note (`handleEdit`): the tags joined with
      ", ", a missing priority as Medium, the due date cut to its UTC day. */
  function DraftOf(n: Note): (r: Draft)
    ensures r.title == n.title && r.content == n.content && r.color == n.color
    ensures r.category == n.category
    ensures AllTags(n.tags) ==> ParseTags(r.tags) == n.tags
    ensures n.priority.Some? ==> r.priority == n.priority.value
    ensures n.priority.None? ==> r.priority == Medium
    ensures r.dueDate.Some? <==> n.dueDate.Some?
    ensures n.dueDate.Some? ==>
      r.dueDate.value <= n.dueDate.value < r.dueDate.value + DayMs && r.dueDate.value % DayMs == 0
  {
    assert AllTags(n.tags) ==> ParseTags(JoinTags(n.tags)) == n.tags by {
      if AllTags(n.tags) {
        ParseJoinTags(n.tags);
      }
    }
    Draft(n.title, n.content, JoinTags(n.tags), n.category,
          match n.priority case Some(p) => p case None => Medium,
          match n.dueDate case Some(d) => Some(DayStart(d)) case None => None,
          n.color)
  }

  /** Opening a note in the editor and saving it without touching the form
      changes nothing but the update time, the due date's time of day and a
      missing priority, provided its tags and category are in the form the
      editor produces. */
  lemma EditUnchangedRoundTrip(n: Note, now: int)
    requires AllTags(n.tags) && IsTrimmed(n.category)
    ensures Apply(n, Edit(DraftOf(n), now)) ==
      n.(updatedAt := Some(now),
         priority := Some(match n.priority case Some(p) => p case None => Medium),
         dueDate := match n.dueDate case Some(d) => Some(DayStart(d)) case None => None)
  {
    ParseJoinTags(n.tags);
  }
}
