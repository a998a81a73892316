# Notes-Pal note engine in Dafny

This project models the note-collection engine inside the `App` component of
Notes-Pal, a React note-taking application. The engine has three parts:

- the **collection state machine**: the `notes` array, the one-slot undo
  buffer `lastDeletedNote`, the bulk selection, the selected note, the note
  being edited and the editor form, changed by the add, update, pin,
  archive, unarchive, delete, bulk archive, bulk delete, undo, import and
  checkbox handlers;
- the **query pipeline** `filteredNotes`: the archive partition, the
  conjunctive search / tag / category / due-date filter and the multi-key
  comparator sort;
- the **pure helpers**: the due-date buckets and the due-soon bell, comma tag
  parsing and the `join(', ')` of the editor, first-occurrence dedupe of tags
  and categories, the `insertMarkdown` splice, the word counter and the
  plain-text export.

Modules:

- `Notes` holds the records. `Entry` is an element of `notes`: an ordinary
  note, or the array of notes stored by a bulk action, which the undo
  handler appends as ONE element. `Slot` is the undo buffer: empty, one
  note, or a list.
- `Seqs` provides sequence helpers: no-duplicates, subsequence and
  first-occurrence dedupe.
- `Text` models JavaScript string behaviour: `trim`, `split` and `join`,
  tag parsing, ASCII lower-casing, `includes`, `substring`, the markdown
  splice and the word count.
- `DueDates` holds the date buckets and the day truncation of the edit form.
- `Collection` gives the new value each handler computes, as functions.
- `Query` covers `filteredNotes` and the comparator.
- `Store` has the class `NoteStore`, whose methods are the handlers. Each
  one assigns the value the matching `Collection` function computes and
  touches no other field.
- `Export` is the text backup.

The handlers' bodies are `map`, `filter`, `find` and spread expressions, so
those are functions. The component state they replace is a class.

Behaviour of the code that the model keeps as written:

- The comparator puts **unpinned** notes before pinned ones (`b.pinned ? -1 : 1`).
  `Query.FilteredNotes` proves this of the modelled insertion sort for every
  input, and `Query.PinnedListedLast` shows it on a concrete pair. When some
  listed note lacks a priority the comparator is not consistent, and the
  engine's own sort algorithm may then order the list differently.
- The `no-date` due filter lets dated notes through too.
- Undo appends the slot as one element. After a bulk action that element is
  a list: it has no id, no handler ever targets it, and the list never
  shows it.
- Deleting or archiving an id that no note has stores `undefined` in the
  slot, which empties it. Deleting a note does not drop its id from the bulk
  selection, so a later bulk action can hold only ids that match no note; it
  stores an empty list, which is truthy, so the next undo appends an empty
  batch element.
- Ids need not be unique. A single-id handler affects every note with that
  id, while the undo slot receives only the first one. Archive followed by
  undo leaves two notes with the same id (`Collection.ArchiveThenUndo`).
- The comparator ignores priority when either note lacks one, and is then
  not transitive (`Query.CompareNotTransitiveWithoutPriority`). Sortedness
  and stability are therefore proved when every listed note has a priority.
  That holds for every note that `handleAdd` and `handleUpdate` produce.
  The pin partition is proved with no such condition.
- Exporting to text fails as soon as the collection holds a batch element,
  because that element has no `tags` array.

Modelling choices:

- A timestamp is an integer number of milliseconds. `Date.now()` and
  `new Date()` become the parameters `newId` and `now`. `handleAdd` takes
  both from the clock; the model keeps them apart.
- The date input holds an instant. `handleEdit` cuts a due date to its UTC
  day (`toISOString().split('T')[0]`), which is `DueDates.DayStart`.
- `Array.prototype.sort` is modelled as a stable insertion sort with the
  source's comparator. `localeCompare` is the lexicographic order on code
  points (Dafny's `char` is a Unicode scalar value).
- Strings are sequences of code points; JavaScript strings are sequences of
  UTF-16 code units. The two agree on text without characters outside the
  Basic Multilingual Plane.

## Model

| member | source | states |
|---|---|---|
| Collection.NewNote | src/App.js:118-131 | no note exactly when both title and content are blank after trimming; otherwise the built record |
| Collection.Created | src/App.js:120-131 | the note has the given id and creation time, no update time, is unpinned and active, copies title, content, colour, priority and due date, its tags are the parsed comma pieces (all clean tags) and its category the trimmed input |
| Store.NoteStore.Add | src/App.js:118-148 | a blank form changes nothing; otherwise exactly that note is appended after all earlier notes, it becomes the selected note and the form is reset |
| Collection.Apply | src/App.js:216-226 | each rewrite keeps id and creation time; an edit is the note the form would create, keeping id, creation time, pin and archive state, with the update time set (so title, content, tags, category, priority, due date and colour come from the form); pin flips `pinned`; archive sets `isArchived` |
| Collection.MapWhere | src/App.js:170-172 | same length; every targeted note rewritten in place, every other element unchanged |
| Collection.RemoveWhere | src/App.js:154 | the result is an order-preserving subsequence holding exactly the untargeted elements |
| Collection.Selected | src/App.js:183 | the targeted notes in collection order (a subsequence of the collection), every one of them, and only notes of the collection |
| Collection.RemoveSelectPartition | src/App.js:193-194 | removed notes plus kept elements are the original collection as a multiset |
| Collection.UntargetedNoOp | src/App.js:152-155 | with no note carrying a target id, map, filter and select leave the collection unchanged and select nothing |
| Collection.FindFirst | src/App.js:152 | a found note has the id, is in the collection and no element before it has the id; none is found exactly when no note has the id |
| Collection.FindFirstIsFirstSelected | src/App.js:152 | `find` returns the first element of the `filter` result |
| Collection.SlotOf | src/App.js:153 | the slot is empty exactly when nothing was found, else holds the found note |
| Collection.Restore | src/App.js:159-165 | an empty slot changes nothing; otherwise the slot is appended as one element |
| Store.NoteStore.Delete | src/App.js:150-157 | the first matching note goes to the slot, every matching note is removed, a selection of that id is cleared |
| Store.NoteStore.UndoDelete | src/App.js:159-165 | an empty slot changes nothing; otherwise one element is appended and the slot emptied |
| Store.NoteStore.Archive | src/App.js:167-174 | the first matching note goes to the slot, every matching note is archived, the selection is cleared |
| Store.NoteStore.Unarchive | src/App.js:176-180 | every matching note is unarchived and nothing else changes |
| Store.NoteStore.BulkArchive | src/App.js:182-189 | the selected notes in collection order go to the slot as one list, they are archived, the selection is emptied |
| Store.NoteStore.BulkDelete | src/App.js:191-198 | the selected notes in collection order go to the slot as one list, they are removed, the selection is emptied |
| Collection.DeleteThenUndo | src/App.js:150-165 | for a unique id, delete then undo restores the same notes as a multiset |
| Collection.TwoDeletesOneUndo | src/App.js:153 | after two deletes, only the second note is in the slot and undo cannot bring back the first |
| Collection.BulkUndoAppendsOneElement | src/App.js:161 | after a bulk action, undo appends exactly one batch element that no id targets |
| Collection.ArchiveThenUndo | src/App.js:167-174 | archive plus undo leaves the archived copy and appends the pre-archive copy of the same note |
| Collection.ArchiveUnarchive | src/App.js:167-180 | unarchiving what was archived gives the original collection back when the targets were active |
| Collection.PinTwice | src/App.js:251-255 | pinning twice is the identity |
| Store.NoteStore.Pin | src/App.js:251-255 | every matching note has `pinned` flipped and nothing else changes |
| Store.NoteStore.Edit | src/App.js:200-212 | the note's id becomes the edited and selected id and the form shows the note |
| Store.NoteStore.Update | src/App.js:214-237 | every note with the edited id is rewritten from the form (none when nothing is edited), then the form is reset |
| Store.NoteStore.Cancel | src/App.js:239-249 | the edit is abandoned and the form reset |
| Store.EditTargets | src/App.js:216 | no edited note targets nothing; an edited id targets exactly that id |
| Collection.EditUnchangedRoundTrip | src/App.js:200-227 | opening a note and saving the unchanged form changes only the update time, a missing priority and the due date's time of day |
| Collection.DraftOf | src/App.js:200-208 | the form shows title, content, category and colour as they are, tags that parse back to the note's clean tags, a missing priority as Medium, and the UTC midnight of the due day |
| Collection.Import | src/App.js:416-431 | a parse failure changes nothing; otherwise the imported notes are appended in order after the unchanged collection |
| Store.NoteStore.ImportNotes | src/App.js:423 | the collection becomes the import result |
| Collection.ToggleSelection | src/App.js:696-702 | the id is selected after exactly when it was not before, every other id keeps its state, and no id is listed twice |
| Collection.ToggleTwice | src/App.js:696-702 | toggling an unselected id twice gives the selection back |
| Collection.RemoveAll | src/App.js:699 | removes every occurrence of the id and keeps the other ids in order |
| Store.NoteStore.ToggleSelect | src/App.js:696-702 | the selection becomes the toggle result and stays duplicate-free |
| Store.NoteStore.constructor | src/App.js:7-10 | the saved collection, an empty form, nothing selected, edited or recoverable |
| Store.NoteStore.SetDraft | src/App.js:737-858 | the form becomes the edited form and nothing else changes |
| Store.NoteStore.SelectedNote | src/App.js:365 | no selection finds nothing; a selected id that some note carries is found; a found note has the selected id and is in the collection |
| Collection.UniqueTags | src/App.js:291-294 | no value twice, and exactly the values of the flattened tag lists (batch elements give `undefined`) |
| Collection.AllTagValues | src/App.js:292 | every tag of every note, and `undefined` for each batch element, nothing else |
| Collection.AllTagValuesAppend | src/App.js:292 | the values of a concatenation are the concatenated values, so they come in collection order |
| Collection.AllTagValuesSingle | src/App.js:292 | a note contributes its tags in order, a batch element one `undefined` |
| Collection.UniqueCategories | src/App.js:296-299 | no category twice, none empty, and exactly the non-empty categories of the notes |
| Collection.AllCategories | src/App.js:297 | the non-empty categories of the notes, and only those |
| Collection.AllCategoriesAppend | src/App.js:297 | the categories of a concatenation are the concatenated categories, so they come in collection order |
| Collection.AllCategoriesSingle | src/App.js:297 | a note contributes its category when it is non-empty, any other element nothing |
| Seqs.Dedupe | src/App.js:293 | no duplicates and the same members as the input |
| Seqs.DedupeFirstOccurrenceOrder | src/App.js:293 | values appear in the order of their first occurrence |
| Seqs.DedupeIdempotent | src/App.js:293 | deduping twice is deduping once |
| Text.ParseTags | src/App.js:125 | the trimmed comma pieces that are non-empty, each occurrence kept, in order: a subsequence of the trimmed pieces with the same count of every non-empty piece; all of them clean tags |
| Text.KeepNonEmpty | src/App.js:125 | the subsequence of the non-empty strings, with the same count of each |
| Text.JoinTags | src/App.js:204 | the editor's tag field is the tags joined by `", "` |
| Text.ParseJoinTags | src/App.js:125 | parsing the joined tags gives back exactly the same list whenever every tag is non-empty, trimmed and comma-free |
| Text.JoinSplit | src/App.js:125 | joining the pieces of a split restores the string |
| Text.Split | src/App.js:125 | at least one piece, none containing the separator |
| Text.Join | src/App.js:204 | no pieces give the empty string; otherwise the pieces' lengths plus one separator between each pair, starting with the first piece |
| Text.SplitJoin | src/App.js:204 | splitting a join of separator-free pieces restores the pieces |
| Text.Trim | src/App.js:119 | the result is a slice of the input with only white space outside it, is trimmed, is empty exactly when the input is all white space, and a trimmed input is unchanged |
| Text.Lower | src/App.js:336-338 | same length, every character lower-cased on its own: an ASCII capital becomes the letter 32 code points above it, anything else is kept |
| Text.LowerIdempotent | src/App.js:336-338 | lower-casing twice is lower-casing once |
| Text.Contains | src/App.js:336-338 | every string contains the empty needle and contains itself; a longer needle never does |
| Text.InsertMarkdown | src/App.js:275-289 | the selected range is replaced by the markdown, and the caret lands right after it |
| Text.InsertMarkdownUndo | src/App.js:283 | cutting the inserted markdown back out restores the content |
| Text.Substring | src/App.js:283 | for in-range indices the slice between them |
| Store.NoteStore.InsertMarkdown | src/App.js:275-289 | no textarea changes nothing; otherwise the form's content is spliced and the caret returned |
| Text.WordCount | src/App.js:81-87 | the count is 0 exactly for empty content |
| Text.WordCountMeaning | src/App.js:81-87 | empty content counts 0, all-blank content 1, otherwise the number of words |
| Store.NoteStore.DraftWords | src/App.js:81-87 | the counter under the editor is 0, 1 or the number of words as above |
| DueDates.FilterByDueDate | src/App.js:310-323 | undated passes only `no-date`; dated passes `this-week` iff due within a week, `overdue` iff past due, `no-date` always |
| DueDates.IsDueSoon | src/App.js:325-331 | due soon exactly when dated and due within the next 24 hours, from now on |
| DueDates.DueSoonIsThisWeek | src/App.js:325-331 | due soon means due within a day, which is in this week's bucket |
| DueDates.DatedBuckets | src/App.js:310-323 | overdue and this-week exclude each other and, with later, cover every dated note |
| DueDates.UndatedBuckets | src/App.js:311 | an undated note is never due soon and is in neither time bucket |
| DueDates.NoDateKeepsAll | src/App.js:322 | the `no-date` filter keeps every note |
| DueDates.DueNowIsThisWeekNotOverdue | src/App.js:316-320 | a note due now is this week, due soon and not overdue |
| DueDates.OverdueStaysOverdue | src/App.js:319 | overdue stays overdue as time advances |
| DueDates.DayStart | src/App.js:207 | the UTC midnight of the day containing the instant |
| DueDates.DayStartUnique | src/App.js:207 | it is the only midnight of that day |
| Query.ArchivePartition | src/App.js:334 | only notes of the requested archive state, each from the collection |
| Query.ApplyFilters | src/App.js:335-342 | only notes passing every filter, each from the input |
| Query.FiltersCompose | src/App.js:333-342 | the two filter stages equal the single reference pass |
| Query.FilteredNotes | src/App.js:333-363 | the list is a permutation of exactly the visible notes, each on the requested archive side and passing every filter, with unpinned notes first |
| Query.VisibleNotesComplete | src/App.js:333-342 | every visible note is listed |
| Query.MatchesSearch | src/App.js:336-338 | an empty search term matches every note |
| Query.SearchIgnoresCase | src/App.js:336-338 | the match depends neither on the case of the term nor on that of the title |
| Query.NoCriteriaPassesAll | src/App.js:335-341 | with no search term, tag, category or due-date filter every note passes |
| Query.MoreTagsNarrow | src/App.js:339 | requiring more tags can only remove notes from the list |
| Query.StrCmpAntisymmetric | src/App.js:354-355 | swapping the titles negates the order |
| Query.StrCmpZero | src/App.js:354-355 | the order ties only equal titles |
| Query.StrCmpTransitive | src/App.js:354-355 | the title order is transitive |
| Query.KeyCompareMeaning | src/App.js:351-362 | `newest` orders by creation time descending and `oldest` ascending, the title keys by title and its reverse, `due-soon` by due date ascending with undated notes after dated ones, any other key ties |
| Query.CompareMeaning | src/App.js:343-350 | of a mixed pair the unpinned note comes first; then the higher priority when both have one and they differ; otherwise the key decides |
| Query.CompareAntisymmetric | src/App.js:343-363 | swapping the notes negates the comparator |
| Query.CompareReflexive | src/App.js:343-363 | a note ties with itself |
| Query.CompareTransitive | src/App.js:343-363 | with every note prioritised the comparator is transitive |
| Query.CompareNotTransitiveWithoutPriority | src/App.js:347 | three notes, one without priority, on which it is not |
| Query.KeyCompareTransitive | src/App.js:351-362 | each sort key alone is transitive |
| Query.Insert | src/App.js:343 | one more element, same multiset plus the inserted note |
| Query.Sort | src/App.js:343 | the sort is a permutation |
| Query.SortSorted | src/App.js:343-363 | with every note prioritised the output is in comparator order |
| Query.SortUnpinnedFirst | src/App.js:344 | every unpinned note precedes every pinned one |
| Query.SortStable | src/App.js:343 | notes that tie keep their input order |
| Query.FilteredNotesOrder | src/App.js:343-363 | unpinned first; with priorities, comparator order, so within one pin state and priority newest/oldest by creation time, title order, and due dates ascending with undated last |
| Query.SortedKeyOrdered | src/App.js:351-362 | in a sorted list, notes with the same pin state and priority are ordered by the sort key alone |
| Query.FilteredNotesStable | src/App.js:343-363 | tying notes keep collection order in the list |
| Query.PinnedListedLast | src/App.js:344 | a newer high-priority pinned note is listed after an unpinned low-priority one |
| Store.NoteStore.Shown | src/App.js:333-363 | the shown list is a permutation of the visible notes with unpinned first |
| Notes.Rank | src/App.js:346 | High ranks 3, Medium 2, Low 1 |
| Export.Details | src/App.js:388-399 | the optional lines are empty exactly when the note has no tags, category, priority or due date |
| Export.TagLine | src/App.js:388-390 | the tag line is present exactly when the note has tags, and then lists them joined by `", "` |
| Export.CategoryLine | src/App.js:391-393 | the category line is present exactly when the category is non-empty |
| Export.PriorityLine | src/App.js:394-396 | the priority line is present exactly when the note has a priority |
| Export.DueLine | src/App.js:397-399 | the due-date line is present exactly when the note has a due date |
| Export.Block | src/App.js:384-401 | a block opens with title, creation date and content, closes with the separator, and holds exactly the note's optional lines between them |
| Export.ExportText | src/App.js:383-402 | the export fails exactly when the collection holds a batch element |
| Export.ExportAppend | src/App.js:402 | exporting a concatenation concatenates the exports |
| Export.ExportNotes | src/App.js:383-402 | a list of notes always exports, and one more note appends exactly its block, so the file is the blocks in collection order |

## Left out

- JSX rendering, CSS classes, the priority colour strings and the theme: presentation only.
- Markdown rendering and code highlighting: foreign libraries.
- Speech input, clipboard copy and fullscreen: browser APIs with asynchronous callbacks.
- Persistence to `localStorage`: this is I/O. The constructor takes the loaded collection as a parameter.
- JSON parsing of an import: a library call. An import is the parsed array of notes, or None for a parse failure. A parsed file whose elements are not note records is not modelled.
- FileReader, the Blob download, `window.print` and the PDF export: I/O.
- `window.confirm`, `alert` and the animation timer: UI. Confirmation is treated as given.
- `formatDate`: it is locale-dependent, so it is a function parameter of the export.
- `Date` parsing and ISO strings: times are integers, and an invalid date input is not modelled.
- Text.Lower: lower-cases ASCII letters only, not the full Unicode mapping of `toLowerCase`.
- Query.StrCmp: code-point order stands in for the locale collation of `localeCompare`.
- Text.InsertMarkdown: indices, `selectionStart` and `markdown.length` count code points, where the browser counts UTF-16 code units; they differ for characters outside the Basic Multilingual Plane.
- Query.Sort: the sort is a stable insertion sort. With notes lacking a priority the engine's own algorithm may order them differently, because the comparator is then not consistent.
- Query.SortSorted: stated only when every listed note has a priority; imported notes may lack one.
- Priority values outside High, Medium and Low from imported files: not modelled.
- The editor mode, the settings panes, the cheat sheet and `isAnimating`: UI state with no effect on the collection.
