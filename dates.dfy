/** Time-relative facts about a note: the due-date filter buckets, the
    "due soon" bell, and the day truncation the edit form applies to a due
    date. `now` is a parameter (the source reads the clock). */
module DueDates {
  import opened Notes

  const DayMs: int := 24 * 60 * 60 * 1000
  const WeekMs: int := 7 * DayMs

  /** The non-empty options of the due-date filter select. */
  datatype DueFilter = ThisWeek | Overdue | NoDate

  /** `filterByDueDate(note, filter)`. A note without a due date passes only
      `no-date`; a dated note passes `this-week` when it is due within the
      next seven days, `overdue` when it is past due, and `no-date` always. */
  function FilterByDueDate(n: Note, f: DueFilter, now: int): (r: bool)
    ensures n.dueDate.None? ==> (r <==> f == NoDate)
    ensures n.dueDate.Some? && f == ThisWeek ==> (r <==> 0 <= n.dueDate.value - now < WeekMs)
    ensures n.dueDate.Some? && f == Overdue ==> (r <==> n.dueDate.value < now)
    ensures n.dueDate.Some? && f == NoDate ==> r
  {
    match n.dueDate
    case None => f == NoDate
    case Some(due) =>
      match f
      case ThisWeek => due - now < WeekMs && due >= now
      case Overdue => due < now
      case NoDate => true
  }

  /** `checkDueSoon(note)`: due within the next 24 hours. */
  function IsDueSoon(n: Note, now: int): (r: bool)
    ensures r <==> n.dueDate.Some? && 0 <= n.dueDate.value - now < DayMs
  {
    match n.dueDate
    case None => false
    case Some(due) => due - now < DayMs && due >= now
  }

  /** The bell implies the note is also in the "this week" bucket. */
  lemma DueSoonIsThisWeek(n: Note, now: int)
    requires IsDueSoon(n, now)
    ensures n.dueDate.Some? && 0 <= n.dueDate.value - now < DayMs
    ensures FilterByDueDate(n, ThisWeek, now)
  {
  }

  /** A dated note falls in exactly one of: overdue, this week, later. */
  lemma DatedBuckets(n: Note, now: int)
    requires n.dueDate.Some?
    ensures !(FilterByDueDate(n, ThisWeek, now) && FilterByDueDate(n, Overdue, now))
    ensures FilterByDueDate(n, ThisWeek, now) || FilterByDueDate(n, Overdue, now) ||
            n.dueDate.value >= now + WeekMs
  {
  }

  /** The `no-date` filter keeps every note, dated or not. */
  lemma NoDateKeepsAll(n: Note, now: int)
    ensures FilterByDueDate(n, NoDate, now)
  {
  }

  /** An undated note is never due soon and is in neither time bucket. */
  lemma UndatedBuckets(n: Note, now: int)
    requires n.dueDate.None?
    ensures !IsDueSoon(n, now)
    ensures !FilterByDueDate(n, ThisWeek, now) && !FilterByDueDate(n, Overdue, now)
  {
  }

  /** A note due exactly now is in this week's bucket but not overdue. */
  lemma DueNowIsThisWeekNotOverdue(n: Note, now: int)
    requires n.dueDate == Some(now)
    ensures FilterByDueDate(n, ThisWeek, now) && !FilterByDueDate(n, Overdue, now)
    ensures IsDueSoon(n, now)
  {
  }

  /** Once overdue, a note stays overdue as time advances. */
  lemma OverdueStaysOverdue(n: Note, now: int, later: int)
    requires now <= later && FilterByDueDate(n, Overdue, now)
    ensures FilterByDueDate(n, Overdue, later)
  {
  }

  /** The date-input round trip of the edit form: `toISOString().split('T')[0]`
      keeps the UTC day, which the date input parses back as UTC midnight. */
  function DayStart(t: int): (r: int)
    ensures r <= t < r + DayMs
    ensures r % DayMs == 0
  {
    t - t % DayMs
  }

  /** The start of the day is the only midnight in it. */
  lemma DayStartUnique(t: int, m: int)
    requires m % DayMs == 0 && m <= t < m + DayMs
    ensures DayStart(t) == m
  {
    var r := DayStart(t);
    assert r % DayMs == 0 && r <= t < r + DayMs;
    assert (r - m) % DayMs == 0;
    assert -DayMs < r - m < DayMs;
  }
}
