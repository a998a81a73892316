/** The plain-text backup of `handleExport('txt')`: one block per element of
    the collection, concatenated. `formatDate` is locale-dependent and is a
    parameter `fmt` from timestamps to display strings. */
module Export {
  import opened Notes
  import opened Text
  import opened Seqs

  const Separator: string := "--------------------\n"

  function PriorityName(p: Priority): (r: string)
    ensures r != ""
  {
    match p
    case High => "High"
    case Medium => "Medium"
    case Low => "Low"
  }

  /** The lines every block starts with: title, creation date and content. */
  function Header(n: Note, fmt: int -> string): string {
    "Title: " + n.title + "\n" + "Created: " + fmt(n.createdAt) + "\n" +
    "Content:\n" + n.content + "\n\n"
  }

  /** A labelled line `<name>: <value>\n`. */
  function Line(name: string, value: string): string {
    name + ": " + value + "\n"
  }

  /** `if (note.tags.length > 0)`: the tags joined with ", ". */
  function TagLine(n: Note): (r: string)
    ensures r == "" <==> n.tags == []
    ensures n.tags != [] ==> r == Line("Tags", JoinTags(n.tags))
  {
    if |n.tags| > 0 then Line("Tags", JoinTags(n.tags)) else ""
  }

  /** `if (note.category)`: present for a non-empty category. */
  function CategoryLine(n: Note): (r: string)
    ensures r == "" <==> n.category == ""
    ensures n.category != "" ==> r == Line("Category", n.category)
  {
    if n.category != "" then Line("Category", n.category) else ""
  }

  /** `if (note.priority)`: present when the note has a priority. */
  function PriorityLine(n: Note): (r: string)
    ensures r == "" <==> n.priority.None?
    ensures n.priority.Some? ==> r == Line("Priority", PriorityName(n.priority.value))
  {
    match n.priority
    case Some(p) => Line("Priority", PriorityName(p))
    case None => ""
  }

  /** `if (note.dueDate)`: present when the note has a due date. */
  function DueLine(n: Note, fmt: int -> string): (r: string)
    ensures r == "" <==> n.dueDate.None?
    ensures n.dueDate.Some? ==> r == Line("Due Date", fmt(n.dueDate.value))
  {
    match n.dueDate
    case Some(d) => Line("Due Date", fmt(d))
    case None => ""
  }

  /** The optional lines in their fixed order, each present only when its
      field is set. */
  function Details(n: Note, fmt: int -> string): (r: string)
    ensures r == "" <==> n.tags == [] && n.category == "" && n.priority.None? && n.dueDate.None?
  {
    TagLine(n) + CategoryLine(n) + PriorityLine(n) + DueLine(n, fmt)
  }

  /** The block of one note: it opens with the header and closes with the
      separator line, with the optional lines between them. */
  function Block(n: Note, fmt: int -> string): (r: string)
    ensures |r| == |Header(n, fmt)| + |Details(n, fmt)| + |Separator|
    ensures r[..|Header(n, fmt)|] == Header(n, fmt)
    ensures r[|r| - |Separator|..] == Separator
    ensures r[|Header(n, fmt)|..|r| - |Separator|] == Details(n, fmt)
    ensures Details(n, fmt) == "" ==> r == Header(n, fmt) + Separator
  {
    var h := Header(n, fmt);
    var d := Details(n, fmt);
    ThreeParts(h, d, Separator);
    assert (h + d + Separator)[|h|..|h| + |d|] == d;
    h + d + Separator
  }

  /** The file's text, or None when an element has no `tags` array (a batch
      element left by undoing a bulk action), where `note.tags.length` throws
      and no file is produced. */
  function ExportText(es: seq<Entry>, fmt: int -> string): (r: Option<string>)
    ensures r.None? <==> exists i :: 0 <= i < |es| && es[i].BatchEntry?
  {
    if es == [] then Some("")
    else
      var rest := ExportText(es[1..], fmt);
      HasBatchCons(es);
      match es[0]
      case BatchEntry(_) => None
      case NoteEntry(n) => if rest.None? then None else Some(Block(n, fmt) + rest.value)
  }

  lemma HasBatchCons(es: seq<Entry>)
    requires es != []
    ensures (exists i :: 0 <= i < |es| && es[i].BatchEntry?) <==>
      es[0].BatchEntry? || exists i :: 0 <= i < |es[1..]| && es[1..][i].BatchEntry?
  {
    assert forall i :: 1 <= i < |es| ==> es[i] == es[1..][i - 1];
  }

  /** One unfolding of `ExportText` on a note in front. */
  lemma ExportCons(n: Note, rest: seq<Entry>, fmt: int -> string)
    ensures ExportText([NoteEntry(n)] + rest, fmt) ==
      if ExportText(rest, fmt).None? then None else Some(Block(n, fmt) + ExportText(rest, fmt).value)
  {
    assert ([NoteEntry(n)] + rest)[1..] == rest;
  }

  lemma StringAssoc(x: string, y: string, z: string)
    ensures x + y + z == x + (y + z)
  {
  }

  lemma ConsAppend(x: Entry, t: seq<Entry>, b: seq<Entry>)
    ensures ([x] + t) + b == [x] + (t + b)
  {
  }

  /** Exporting a concatenation concatenates the exports. */
  lemma {:induction false} ExportAppend(a: seq<Entry>, b: seq<Entry>, fmt: int -> string)
    requires ExportText(a, fmt).Some? && ExportText(b, fmt).Some?
    ensures ExportText(a + b, fmt) == Some(ExportText(a, fmt).value + ExportText(b, fmt).value)
  {
    var vb := ExportText(b, fmt).value;
    if a == [] {
      assert a + b == b;
      assert "" + vb == vb;
    } else {
      var n := a[0].note;
      var tail := a[1..];
      assert a == [NoteEntry(n)] + tail;
      ExportCons(n, tail, fmt);
      ExportAppend(tail, b, fmt);
      ConsAppend(NoteEntry(n), tail, b);
      ExportCons(n, tail + b, fmt);
      var va := ExportText(tail, fmt).value;
      StringAssoc(Block(n, fmt), va, vb);
    }
  }

  /** A list of notes always exports, and exporting one more note appends
      its block: the file is the notes' blocks in collection order. */
  lemma ExportNotes(ns: seq<Note>, n: Note, fmt: int -> string)
    ensures ExportText(Entries(ns), fmt).Some?
    ensures ExportText(Entries(ns + [n]), fmt) == Some(ExportText(Entries(ns), fmt).value + Block(n, fmt))
  {
    EntriesSnoc(ns, n);
    ExportOne(n, fmt);
    ExportAppend(Entries(ns), [NoteEntry(n)], fmt);
  }

  lemma ExportOne(n: Note, fmt: int -> string)
    ensures ExportText([NoteEntry(n)], fmt) == Some(Block(n, fmt))
  {
    assert [NoteEntry(n)] + [] == [NoteEntry(n)];
    ExportCons(n, [], fmt);
    assert Block(n, fmt) + "" == Block(n, fmt);
  }
}
