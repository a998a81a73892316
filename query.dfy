/** `filteredNotes`: the archive partition, the conjunctive search / tag /
    category / due-date filter, and the multi-key sort that decide which
    notes the list shows and in what order. */
module Query {
  import opened Notes
  import opened Text
  import opened DueDates
  import opened Seqs

  /** The `sortBy` select; `UnknownKey` stands for any other value, which the
      comparator's `default` branch handles. */
  datatype SortKey = Newest | Oldest | TitleAsc | TitleDesc | DueSoon | UnknownKey

  /** The list criteria held by the component: the search box, the selected
      filter tags, category and due-date filter (None for "All"), the sort
      key and the archived/active toggle. */
  datatype Criteria = Criteria(
    searchTerm: string,
    filterTags: seq<string>,
    filterCategory: string,
    dueFilter: Option<DueFilter>,
    sortBy: SortKey,
    showArchived: bool)

  /** Case-insensitive search in the title, the content or any tag; the
      empty term matches every note. */
  function MatchesSearch(n: Note, term: string): (r: bool)
    ensures term == "" ==> r
  {
    assert Lower("") == "";
    var q := Lower(term);
    Contains(Lower(n.title), q) || Contains(Lower(n.content), q) ||
    exists k :: 0 <= k < |n.tags| && Contains(Lower(n.tags[k]), q)
  }

  /** The search ignores the case of the term and of the note's title. */
  lemma SearchIgnoresCase(n: Note, term: string)
    ensures MatchesSearch(n, Lower(term)) == MatchesSearch(n, term)
    ensures MatchesSearch(n.(title := Lower(n.title)), term) == MatchesSearch(n, term)
  {
    LowerIdempotent(term);
    LowerIdempotent(n.title);
  }

  /** `filterTags.every(ft => note.tags.includes(ft))`. */
  predicate HasAllTags(n: Note, required: seq<string>) {
    forall k :: 0 <= k < |required| ==> required[k] in n.tags
  }

  /** The second `filter` stage. */
  predicate PassesFilters(n: Note, c: Criteria, now: int) {
    MatchesSearch(n, c.searchTerm) &&
    (|c.filterTags| == 0 || HasAllTags(n, c.filterTags)) &&
    (c.filterCategory == "" || n.category == c.filterCategory) &&
    (c.dueFilter.None? || FilterByDueDate(n, c.dueFilter.value, now))
  }

  /** With no search term, tag, category or due-date filter, every note passes. */
  lemma NoCriteriaPassesAll(n: Note, c: Criteria, now: int)
    requires c.searchTerm == "" && c.filterTags == [] && c.filterCategory == "" && c.dueFilter.None?
    ensures PassesFilters(n, c, now)
  {
  }

  /** Requiring more tags can only narrow the list. */
  lemma MoreTagsNarrow(n: Note, c: Criteria, more: seq<string>, now: int)
    ensures PassesFilters(n, c.(filterTags := c.filterTags + more), now) ==> PassesFilters(n, c, now)
  {
    var wider := c.filterTags + more;
    if |wider| > 0 && HasAllTags(n, wider) {
      assert forall k :: 0 <= k < |c.filterTags| ==> c.filterTags[k] == wider[k];
    }
  }

  /** Reference definition of what the list shows: a note (not a batch
      element) on the requested side of the archive partition that passes
      every filter. */
  predicate Visible(n: Note, c: Criteria, now: int) {
    n.isArchived == c.showArchived && PassesFilters(n, c, now)
  }

  /** `notes.filter(note => note.isArchived === showArchivedNotes)`; a batch
      element has no `isArchived`, and `undefined` equals neither boolean. */
  function ArchivePartition(es: seq<Entry>, show: bool): (r: seq<Note>)
    ensures forall i :: 0 <= i < |r| ==> r[i].isArchived == show && NoteEntry(r[i]) in es
  {
    if es == [] then []
    else
      var rest := ArchivePartition(es[1..], show);
      if es[0].NoteEntry? && es[0].note.isArchived == show then [es[0].note] + rest else rest
  }

  function ApplyFilters(ns: seq<Note>, c: Criteria, now: int): (r: seq<Note>)
    ensures forall i :: 0 <= i < |r| ==> PassesFilters(r[i], c, now) && r[i] in ns
  {
    if ns == [] then []
    else
      var rest := ApplyFilters(ns[1..], c, now);
      if PassesFilters(ns[0], c, now) then [ns[0]] + rest else rest
  }

  /** Every visible note in collection order, in a single pass. */
  function VisibleNotes(es: seq<Entry>, c: Criteria, now: int): seq<Note> {
    if es == [] then []
    else
      var rest := VisibleNotes(es[1..], c, now);
      if es[0].NoteEntry? && Visible(es[0].note, c, now) then [es[0].note] + rest else rest
  }

  /** The two filter stages compose to the single-pass reference. */
  lemma {:induction false} FiltersCompose(es: seq<Entry>, c: Criteria, now: int)
    ensures ApplyFilters(ArchivePartition(es, c.showArchived), c, now) == VisibleNotes(es, c, now)
  {
    if es != [] {
      FiltersCompose(es[1..], c, now);
      var rest := ArchivePartition(es[1..], c.showArchived);
      if es[0].NoteEntry? && es[0].note.isArchived == c.showArchived {
        assert ([es[0].note] + rest)[1..] == rest;
      }
    }
  }

  /** `String.prototype.localeCompare`, taken as the code-point order. */
  function StrCmp(a: string, b: string): (r: int)
    ensures -1 <= r <= 1
  {
    if a == [] && b == [] then 0
    else if a == [] then -1
    else if b == [] then 1
    else if a[0] < b[0] then -1
    else if a[0] > b[0] then 1
    else StrCmp(a[1..], b[1..])
  }

  lemma {:induction false} StrCmpAntisymmetric(a: string, b: string)
    ensures StrCmp(a, b) == -StrCmp(b, a)
  {
    if a != [] && b != [] && a[0] == b[0] {
      StrCmpAntisymmetric(a[1..], b[1..]);
    }
  }

  lemma {:induction false} StrCmpZero(a: string, b: string)
    ensures StrCmp(a, b) == 0 <==> a == b
  {
    if a != [] && b != [] && a[0] == b[0] {
      StrCmpZero(a[1..], b[1..]);
      assert a == [a[0]] + a[1..] && b == [b[0]] + b[1..];
    }
  }

  lemma {:induction false} StrCmpTransitive(a: string, b: string, c: string)
    requires StrCmp(a, b) <= 0 && StrCmp(b, c) <= 0
    ensures StrCmp(a, c) <= 0
  {
    if a != [] && b != [] && c != [] && a[0] == b[0] && b[0] == c[0] {
      StrCmpTransitive(a[1..], b[1..], c[1..]);
    }
  }

  /** The `switch (sortBy)` of the comparator. */
  function KeyCompare(a: Note, b: Note, key: SortKey): int {
    match key
    case Newest => b.createdAt - a.createdAt
    case Oldest => a.createdAt - b.createdAt
    case TitleAsc => StrCmp(a.title, b.title)
    case TitleDesc => StrCmp(b.title, a.title)
    case DueSoon =>
      if a.dueDate.None? && b.dueDate.None? then 0
      else if a.dueDate.None? then 1
      else if b.dueDate.None? then -1
      else a.dueDate.value - b.dueDate.value
    case UnknownKey => 0
  }

  /** What the key comparison means: creation time descending or ascending,
      title order or its reverse, due dates ascending with undated notes
      after dated ones, and no order for an unknown key. */
  lemma KeyCompareMeaning(a: Note, b: Note, key: SortKey)
    ensures var r := KeyCompare(a, b, key);
      (key == Newest ==> (r < 0 <==> a.createdAt > b.createdAt) && (r == 0 <==> a.createdAt == b.createdAt)) &&
      (key == Oldest ==> (r < 0 <==> a.createdAt < b.createdAt) && (r == 0 <==> a.createdAt == b.createdAt)) &&
      (key == TitleAsc || key == TitleDesc ==> (r == 0 <==> a.title == b.title)) &&
      (key == TitleDesc ==> r == -StrCmp(a.title, b.title)) &&
      (key == DueSoon && a.dueDate.None? ==> (r == 0 <==> b.dueDate.None?) && r >= 0) &&
      (key == DueSoon && a.dueDate.Some? && b.dueDate.None? ==> r < 0) &&
      (key == DueSoon && a.dueDate.Some? && b.dueDate.Some? ==> (r < 0 <==> a.dueDate.value < b.dueDate.value)) &&
      (key == UnknownKey ==> r == 0)
  {
    StrCmpZero(a.title, b.title);
    StrCmpZero(b.title, a.title);
    StrCmpAntisymmetric(a.title, b.title);
  }

  /** Both notes have a priority and the ranks differ. */
  predicate RanksDiffer(a: Note, b: Note) {
    a.priority.Some? && b.priority.Some? && Rank(a.priority.value) != Rank(b.priority.value)
  }

  /** The `sort` comparator: negative puts `a` first. A pinned/unpinned pair
      puts the UNPINNED note first (`b.pinned ? -1 : 1`); then the higher
      priority; then the sort key. */
  function Compare(a: Note, b: Note, key: SortKey): int {
    if a.pinned != b.pinned then (if b.pinned then -1 else 1)
    else if RanksDiffer(a, b) then Rank(b.priority.value) - Rank(a.priority.value)
    else KeyCompare(a, b, key)
  }

  /** What the comparator means: the unpinned note of a mixed pair first,
      then the higher priority when both have one and they differ, and only
      then the sort key. */
  lemma CompareMeaning(a: Note, b: Note, key: SortKey)
    ensures var r := Compare(a, b, key);
      (a.pinned != b.pinned ==> r != 0 && (r < 0 <==> !a.pinned)) &&
      (a.pinned == b.pinned && RanksDiffer(a, b) ==>
        r != 0 && (r < 0 <==> Rank(a.priority.value) > Rank(b.priority.value))) &&
      (a.pinned == b.pinned && !RanksDiffer(a, b) ==> r == KeyCompare(a, b, key))
  {
  }

  /** Swapping the arguments negates the comparator, for every pair of notes. */
  lemma CompareAntisymmetric(a: Note, b: Note, key: SortKey)
    ensures Compare(a, b, key) == -Compare(b, a, key)
  {
    StrCmpAntisymmetric(a.title, b.title);
  }

  lemma CompareReflexive(a: Note, key: SortKey)
    ensures Compare(a, a, key) == 0
  {
    StrCmpZero(a.title, a.title);
  }

  lemma KeyCompareTransitive(a: Note, b: Note, c: Note, key: SortKey)
    requires KeyCompare(a, b, key) <= 0 && KeyCompare(b, c, key) <= 0
    ensures KeyCompare(a, c, key) <= 0
  {
    match key {
      case TitleAsc => StrCmpTransitive(a.title, b.title, c.title);
      case TitleDesc => StrCmpTransitive(c.title, b.title, a.title);
      case _ =>
    }
  }

  predicate HasPriority(n: Note) {
    n.priority.Some?
  }

  predicate AllHavePriority(s: seq<Note>) {
    forall i :: 0 <= i < |s| ==> HasPriority(s[i])
  }

  /** On notes that all have a priority the comparator is a total preorder. */
  lemma CompareTransitive(a: Note, b: Note, c: Note, key: SortKey)
    requires HasPriority(a) && HasPriority(b) && HasPriority(c)
    requires Compare(a, b, key) <= 0 && Compare(b, c, key) <= 0
    ensures Compare(a, c, key) <= 0
  {
    if a.pinned == b.pinned == c.pinned && !RanksDiffer(a, b) && !RanksDiffer(b, c) {
      KeyCompareTransitive(a, b, c, key);
    }
  }

  /** Without priorities the comparator is not transitive: two notes tie
      on the missing priority while the third orders them by rank. */
  lemma CompareNotTransitiveWithoutPriority()
    ensures var a := Note(1, "", "", [], "", Some(Low), None, "", 3, None, false, false);
      var b := Note(2, "", "", [], "", None, None, "", 2, None, false, false);
      var c := Note(3, "", "", [], "", Some(High), None, "", 1, None, false, false);
      Compare(a, b, Newest) < 0 && Compare(b, c, Newest) < 0 && Compare(a, c, Newest) > 0
  {
  }

  lemma CompareZeroTransitive(a: Note, b: Note, c: Note, key: SortKey)
    requires HasPriority(a) && HasPriority(b) && HasPriority(c)
    requires Compare(a, b, key) == 0 && Compare(b, c, key) == 0
    ensures Compare(a, c, key) == 0
  {
    CompareTransitive(a, b, c, key);
    CompareAntisymmetric(a, b, key);
    CompareAntisymmetric(b, c, key);
    CompareTransitive(c, b, a, key);
    CompareAntisymmetric(a, c, key);
  }

  /** Inserts `x` before the first element it does not sort after. */
  function Insert(x: Note, t: seq<Note>, key: SortKey): (r: seq<Note>)
    ensures multiset(r) == multiset(t) + multiset{x}
    ensures |r| == |t| + 1
  {
    if t == [] then [x]
    else if Compare(x, t[0], key) <= 0 then [x] + t
    else
      var rest := Insert(x, t[1..], key);
      assert t == [t[0]] + t[1..];
      [t[0]] + rest
  }

  /** `Array.prototype.sort` with the comparator: a stable insertion sort
      (an element goes before every later element it ties with). */
  function Sort(s: seq<Note>, key: SortKey): (r: seq<Note>)
    ensures multiset(r) == multiset(s)
    ensures |r| == |s|
  {
    if s == [] then []
    else
      var r := Insert(s[0], Sort(s[1..], key), key);
      assert s == [s[0]] + s[1..];
      r
  }

  /** No pair of the sequence is out of comparator order. */
  predicate Sorted(s: seq<Note>, key: SortKey) {
    forall i, j :: 0 <= i < j < |s| ==> Compare(s[i], s[j], key) <= 0
  }

  /** Every unpinned note comes before every pinned note. */
  predicate UnpinnedFirst(s: seq<Note>) {
    forall i, j :: 0 <= i < j < |s| && s[i].pinned ==> s[j].pinned
  }

  /** Dropping the head keeps a sequence sorted. */
  lemma SortedTail(t: seq<Note>, key: SortKey)
    requires t != [] && Sorted(t, key)
    ensures Sorted(t[1..], key)
  {
    var t' := t[1..];
    forall i, j | 0 <= i < j < |t'| ensures Compare(t'[i], t'[j], key) <= 0 {
      assert t'[i] == t[i + 1] && t'[j] == t[j + 1];
    }
  }

  /** The head of a sorted sequence sorts before every element of its tail. */
  lemma HeadBeforeTail(h: Note, t: seq<Note>, key: SortKey, y: Note)
    requires Sorted([h] + t, key) && y in t
    ensures Compare(h, y, key) <= 0
  {
    var k :| 0 <= k < |t| && t[k] == y;
    assert ([h] + t)[0] == h && ([h] + t)[k + 1] == y;
  }

  lemma {:induction false} InsertSorted(x: Note, t: seq<Note>, key: SortKey)
    requires Sorted(t, key) && HasPriority(x) && AllHavePriority(t)
    ensures Sorted(Insert(x, t, key), key)
  {
    if t != [] {
      if Compare(x, t[0], key) <= 0 {
        InsertSortedFront(x, t, key);
      } else {
        var t' := t[1..];
        SortedTail(t, key);
        assert AllHavePriority(t') by {
          forall i | 0 <= i < |t'| ensures HasPriority(t'[i]) { assert t'[i] == t[i + 1]; }
        }
        InsertSorted(x, t', key);
        assert t == [t[0]] + t';
        CompareAntisymmetric(x, t[0], key);
        InsertSortedBehind(t[0], x, t', key);
      }
    }
  }

  lemma InsertSortedFront(x: Note, t: seq<Note>, key: SortKey)
    requires t != [] && Sorted(t, key) && HasPriority(x) && AllHavePriority(t)
    requires Compare(x, t[0], key) <= 0
    ensures Sorted([x] + t, key)
  {
    var r := [x] + t;
    forall i, j | 0 <= i < j < |r| ensures Compare(r[i], r[j], key) <= 0 {
      if i == 0 && j > 1 {
        CompareTransitive(x, t[0], t[j - 1], key);
      } else if i > 0 {
        assert r[i] == t[i - 1] && r[j] == t[j - 1];
      }
    }
  }

  lemma InsertSortedBehind(h: Note, x: Note, t': seq<Note>, key: SortKey)
    requires Sorted([h] + t', key) && Sorted(Insert(x, t', key), key)
    requires Compare(h, x, key) <= 0
    ensures Sorted([h] + Insert(x, t', key), key)
  {
    var rest := Insert(x, t', key);
    var r := [h] + rest;
    forall i, j | 0 <= i < j < |r| ensures Compare(r[i], r[j], key) <= 0 {
      if i == 0 {
        var y := rest[j - 1];
        assert y in multiset(t') + multiset{x};
        if y != x {
          assert y in multiset(t');
          HeadBeforeTail(h, t', key, y);
        }
      } else {
        assert r[i] == rest[i - 1] && r[j] == rest[j - 1];
      }
    }
  }

  /** With every note prioritised the output is in comparator order. */
  lemma {:induction false} SortSorted(s: seq<Note>, key: SortKey)
    requires AllHavePriority(s)
    ensures Sorted(Sort(s, key), key)
  {
    if s != [] {
      var t := Sort(s[1..], key);
      assert AllHavePriority(s[1..]) by {
        forall i | 0 <= i < |s| - 1 ensures HasPriority(s[1..][i]) { assert s[1..][i] == s[i + 1]; }
      }
      SortSorted(s[1..], key);
      assert AllHavePriority(t) by {
        forall i | 0 <= i < |t| ensures HasPriority(t[i]) {
          assert t[i] in multiset(s[1..]);
          var k :| 0 <= k < |s[1..]| && s[1..][k] == t[i];
        }
      }
      InsertSorted(s[0], t, key);
    }
  }

  lemma {:induction false} InsertUnpinnedFirst(x: Note, t: seq<Note>, key: SortKey)
    requires UnpinnedFirst(t)
    ensures UnpinnedFirst(Insert(x, t, key))
  {
    if t != [] {
      var r := Insert(x, t, key);
      if Compare(x, t[0], key) <= 0 {
        if x.pinned {
          assert t[0].pinned;
          forall j | 0 < j < |r| ensures r[j].pinned {
            if j > 1 { assert t[j - 1].pinned; }
          }
        }
        assert r == [x] + t;
      } else {
        var t' := t[1..];
        assert UnpinnedFirst(t') by {
          forall i, j | 0 <= i < j < |t'| && t'[i].pinned ensures t'[j].pinned {
            assert t'[i] == t[i + 1] && t'[j] == t[j + 1];
          }
        }
        InsertUnpinnedFirst(x, t', key);
        var rest := Insert(x, t', key);
        if t[0].pinned {
          assert x.pinned;
          forall j | 0 <= j < |rest| ensures rest[j].pinned {
            assert rest[j] in multiset(t') + multiset{x};
            if rest[j] != x {
              var k :| 0 <= k < |t'| && t'[k] == rest[j];
              assert t'[k] == t[k + 1];
            }
          }
        }
        assert r == [t[0]] + rest;
      }
    }
  }

  /** The sort puts every unpinned note before every pinned one, whatever
      the priorities. */
  lemma {:induction false} SortUnpinnedFirst(s: seq<Note>, key: SortKey)
    ensures UnpinnedFirst(Sort(s, key))
  {
    if s != [] {
      SortUnpinnedFirst(s[1..], key);
      InsertUnpinnedFirst(s[0], Sort(s[1..], key), key);
    }
  }

  /** The notes of `s` that tie with `c`, in order: the sort keeps each such
      class in its input order (stability). */
  function Ties(s: seq<Note>, c: Note, key: SortKey): seq<Note> {
    if s == [] then []
    else (if Compare(s[0], c, key) == 0 then [s[0]] else []) + Ties(s[1..], c, key)
  }

  lemma {:induction false} InsertTies(x: Note, t: seq<Note>, c: Note, key: SortKey)
    requires HasPriority(x) && HasPriority(c) && AllHavePriority(t)
    ensures Ties(Insert(x, t, key), c, key) ==
      (if Compare(x, c, key) == 0 then [x] else []) + Ties(t, c, key)
  {
    if t != [] {
      if Compare(x, t[0], key) <= 0 {
        TiesCons(x, t, c, key);
      } else {
        var t' := t[1..];
        assert AllHavePriority(t') by {
          forall i | 0 <= i < |t'| ensures HasPriority(t'[i]) { assert t'[i] == t[i + 1]; }
        }
        InsertTies(x, t', c, key);
        InsertTiesBehind(x, t, c, key);
      }
    }
  }

  /** The step of `InsertTies` where `x` goes behind the head: at most one
      of `x` and the head ties with `c`, so their order does not matter. */
  lemma InsertTiesBehind(x: Note, t: seq<Note>, c: Note, key: SortKey)
    requires HasPriority(x) && HasPriority(c) && t != [] && HasPriority(t[0])
    requires Compare(x, t[0], key) > 0
    requires Ties(Insert(x, t[1..], key), c, key) ==
      (if Compare(x, c, key) == 0 then [x] else []) + Ties(t[1..], c, key)
    ensures Ties(Insert(x, t, key), c, key) ==
      (if Compare(x, c, key) == 0 then [x] else []) + Ties(t, c, key)
  {
    var rest := Insert(x, t[1..], key);
    assert Insert(x, t, key) == [t[0]] + rest;
    TiesCons(t[0], rest, c, key);
    assert t == [t[0]] + t[1..];
    TiesCons(t[0], t[1..], c, key);
    var tx := if Compare(x, c, key) == 0 then [x] else [];
    var th := if Compare(t[0], c, key) == 0 then [t[0]] else [];
    if tx != [] && th != [] {
      CompareAntisymmetric(t[0], c, key);
      CompareZeroTransitive(x, c, t[0], key);
      assert false;
    }
    SwapEmpty(tx, th, Ties(t[1..], c, key));
  }

  lemma TiesCons(h: Note, s: seq<Note>, c: Note, key: SortKey)
    ensures Ties([h] + s, c, key) == (if Compare(h, c, key) == 0 then [h] else []) + Ties(s, c, key)
  {
    assert ([h] + s)[1..] == s;
  }

  lemma {:induction false} SortStable(s: seq<Note>, c: Note, key: SortKey)
    requires AllHavePriority(s) && HasPriority(c)
    ensures Ties(Sort(s, key), c, key) == Ties(s, c, key)
  {
    if s != [] {
      var t := Sort(s[1..], key);
      assert AllHavePriority(s[1..]) by {
        forall i | 0 <= i < |s| - 1 ensures HasPriority(s[1..][i]) { assert s[1..][i] == s[i + 1]; }
      }
      SortStable(s[1..], c, key);
      assert AllHavePriority(t) by {
        forall i | 0 <= i < |t| ensures HasPriority(t[i]) {
          assert t[i] in multiset(s[1..]);
          var k :| 0 <= k < |s[1..]| && s[1..][k] == t[i];
        }
      }
      InsertTies(s[0], t, c, key);
    }
  }

  /** `filteredNotes`: a permutation of exactly the visible notes, so every
      listed note is on the requested side of the archive partition and
      passes every filter, with the unpinned notes first. */
  function FilteredNotes(es: seq<Entry>, c: Criteria, now: int): (r: seq<Note>)
    ensures multiset(r) == multiset(VisibleNotes(es, c, now))
    ensures forall i :: 0 <= i < |r| ==> Visible(r[i], c, now)
    ensures UnpinnedFirst(r)
  {
    FiltersCompose(es, c, now);
    var v := ApplyFilters(ArchivePartition(es, c.showArchived), c, now);
    var r := Sort(v, c.sortBy);
    SortUnpinnedFirst(v, c.sortBy);
    assert forall i :: 0 <= i < |r| ==> Visible(r[i], c, now) by {
      forall i | 0 <= i < |r| ensures Visible(r[i], c, now) {
        assert r[i] in multiset(v);
        var k :| 0 <= k < |v| && v[k] == r[i];
        assert v[k] in ArchivePartition(es, c.showArchived);
      }
    }
    r
  }

  /** Every note element that is visible is listed. */
  lemma {:induction false} VisibleNotesComplete(es: seq<Entry>, c: Criteria, now: int, i: nat)
    requires i < |es| && es[i].NoteEntry? && Visible(es[i].note, c, now)
    ensures es[i].note in FilteredNotes(es, c, now)
  {
    VisibleNoteListed(es, c, now, i);
    assert es[i].note in multiset(VisibleNotes(es, c, now));
  }

  lemma {:induction false} VisibleNoteListed(es: seq<Entry>, c: Criteria, now: int, i: nat)
    requires i < |es| && es[i].NoteEntry? && Visible(es[i].note, c, now)
    ensures es[i].note in VisibleNotes(es, c, now)
  {
    if i > 0 {
      assert es[1..][i - 1] == es[i];
      VisibleNoteListed(es[1..], c, now, i - 1);
    }
  }

  /** Within one pin state and priority the sort key alone decides the order. */
  predicate KeyOrdered(r: seq<Note>, key: SortKey) {
    forall i, j :: 0 <= i < j < |r| && r[i].pinned == r[j].pinned && r[i].priority == r[j].priority ==>
      (key == Newest ==> r[i].createdAt >= r[j].createdAt) &&
      (key == Oldest ==> r[i].createdAt <= r[j].createdAt) &&
      (key == TitleAsc ==> StrCmp(r[i].title, r[j].title) <= 0) &&
      (key == TitleDesc ==> StrCmp(r[j].title, r[i].title) <= 0) &&
      (key == DueSoon && r[i].dueDate.None? ==> r[j].dueDate.None?) &&
      (key == DueSoon && r[j].dueDate.Some? ==> r[i].dueDate.value <= r[j].dueDate.value)
  }

  lemma SortedKeyOrdered(r: seq<Note>, key: SortKey)
    requires Sorted(r, key)
    ensures KeyOrdered(r, key)
  {
    forall i, j | 0 <= i < j < |r| && r[i].pinned == r[j].pinned && r[i].priority == r[j].priority
      ensures KeyCompare(r[i], r[j], key) <= 0
    {
      assert Compare(r[i], r[j], key) <= 0;
    }
  }

  /** The order of the list: unpinned notes first; and when every shown note
      has a priority, the list is in comparator order, so within one pin state
      and priority the sort key orders it: creation time descending for
      `newest` and ascending for `oldest`, title order for the title keys,
      and due dates ascending with undated notes last for `due-soon`. */
  lemma FilteredNotesOrder(es: seq<Entry>, c: Criteria, now: int)
    ensures UnpinnedFirst(FilteredNotes(es, c, now))
    ensures AllHavePriority(VisibleNotes(es, c, now)) ==> Sorted(FilteredNotes(es, c, now), c.sortBy)
    ensures AllHavePriority(VisibleNotes(es, c, now)) ==> KeyOrdered(FilteredNotes(es, c, now), c.sortBy)
  {
    FiltersCompose(es, c, now);
    var v := VisibleNotes(es, c, now);
    SortUnpinnedFirst(v, c.sortBy);
    if AllHavePriority(v) {
      SortSorted(v, c.sortBy);
      SortedKeyOrdered(Sort(v, c.sortBy), c.sortBy);
    }
  }

  /** Equal-ranked notes keep their collection order in the list. */
  lemma FilteredNotesStable(es: seq<Entry>, c: Criteria, now: int, probe: Note)
    requires AllHavePriority(VisibleNotes(es, c, now)) && HasPriority(probe)
    ensures Ties(FilteredNotes(es, c, now), probe, c.sortBy) == Ties(VisibleNotes(es, c, now), probe, c.sortBy)
  {
    FiltersCompose(es, c, now);
    SortStable(VisibleNotes(es, c, now), probe, c.sortBy);
  }

  /** A pinned note is listed after an unpinned one even when it is newer
      and has the higher priority. */
  lemma PinnedListedLast()
    ensures var a := Note(1, "a", "", [], "", Some(High), None, "", 20, None, true, false);
      var b := Note(2, "b", "", [], "", Some(Low), None, "", 10, None, false, false);
      Sort([a, b], Newest) == [b, a]
  {
    var a := Note(1, "a", "", [], "", Some(High), None, "", 20, None, true, false);
    var b := Note(2, "b", "", [], "", Some(Low), None, "", 10, None, false, false);
    assert [a, b][1..] == [b];
    assert Sort([b], Newest) == [b];
    assert Compare(a, b, Newest) == 1;
    assert [b][1..] == [];
  }
}
