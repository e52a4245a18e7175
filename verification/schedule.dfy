/**
 * The two date rules of the scheduler: how a pending task's status follows its due date, and
 * what completing a task does, including the weekly rescheduling of recurring tasks.
 */
module Schedule {
  import opened Text
  import opened Dates
  import opened Records

  // ---------------------------------------------------------------
  //  status derivation (the first loop of populate_tasks)
  // ---------------------------------------------------------------

  /** The status a task gets when the task list is refreshed on `today`: a Pending task whose
      date parses is Behind before its date, Ahead after it and stays Pending on the day;
      every other task, and a Pending task whose date does not parse, is left as it is. */
  function DeriveStatus<R>(t: TaskData<R>, today: Date): TaskData<R>
  {
    if t.status != Pending then t
    else
      match ParseDate(t.date)
      case None => t
      case Some(d) =>
        t.(status := if Before(d, today) then Behind else if Before(today, d) then Ahead else Pending)
  }

  /** A pending task with a parsable due date is Behind exactly when its day number is below
      today's, Ahead exactly when it is above, and stays Pending exactly on the day. */
  lemma DeriveStatusByDayNumber<R>(t: TaskData<R>, today: Date, due: Date)
    requires Valid(today)
    requires t.status == Pending && ParseDate(t.date) == Some(due)
    ensures DeriveStatus(t, today).status == Behind <==> Ordinal(due) < Ordinal(today)
    ensures DeriveStatus(t, today).status == Ahead <==> Ordinal(due) > Ordinal(today)
    ensures DeriveStatus(t, today).status == Pending <==> Ordinal(due) == Ordinal(today)
  {
    BeforeIsOrdinalLess(due, today);
    BeforeIsOrdinalLess(today, due);
  }

  /** Derivation changes the status column and nothing else; a task that is not Pending, or
      whose date does not parse, is not changed at all. */
  lemma DeriveStatusFrame<R>(t: TaskData<R>, today: Date)
    ensures DeriveStatus(t, today) == t.(status := DeriveStatus(t, today).status)
    ensures t.status != Pending || ParseDate(t.date).None? ==> DeriveStatus(t, today) == t
    ensures DeriveStatus(t, today).status in {Pending, Ahead, Behind} || DeriveStatus(t, today) == t
  {
  }

  /** Once derived, a status that is no longer Pending is never derived again, on any later day:
      an Ahead task stays Ahead after its date has passed. */
  lemma DerivedStatusIsFinal<R>(t: TaskData<R>, today: Date, later: Date)
    requires DeriveStatus(t, today).status != Pending
    ensures DeriveStatus(DeriveStatus(t, today), later) == DeriveStatus(t, today)
  {
  }

  /** Refreshing twice on the same day gives what refreshing once gave. */
  lemma DeriveStatusIdempotent<R>(t: TaskData<R>, today: Date)
    requires Valid(today)
    ensures DeriveStatus(DeriveStatus(t, today), today) == DeriveStatus(t, today)
  {
    var r := DeriveStatus(t, today);
    if r.status == Pending && t.status == Pending {
      match ParseDate(t.date)
      case None =>
      case Some(d) =>
        BeforeIsOrdinalLess(d, today);
        BeforeIsOrdinalLess(today, d);
    }
  }

  /** A task still Pending on its due day is Behind on any later refresh. */
  lemma DueTodayThenBehind<R>(t: TaskData<R>, today: Date, later: Date)
    requires Valid(today) && Valid(later) && Ordinal(today) < Ordinal(later)
    requires t.status == Pending && ParseDate(t.date) == Some(today)
    ensures DeriveStatus(t, today).status == Pending
    ensures DeriveStatus(DeriveStatus(t, today), later).status == Behind
  {
    BeforeIsOrdinalLess(today, later);
    assert !Before(today, today);
  }

  // ---------------------------------------------------------------
  //  completion (mark_completed)
  // ---------------------------------------------------------------

  const RecurrenceDays := 7

  /** mark_completed's change to a task at the moment `now`: Completed with a timestamp; a
      recurring task whose date parses is instead moved a week on, back to Pending, with the
      timestamp cleared. When the date does not parse, or a week later lies past 9999-12-31,
      the exception is swallowed and the task stays Completed. */
  function Complete<R>(t: TaskData<R>, now: Instant): TaskData<R>
    requires ValidInstant(now)
  {
    var done := t.(status := Completed, completionTimestamp := FormatTimestamp(now));
    if !t.recurring then done
    else
      match ParseDate(t.date)
      case None => done
      case Some(d) =>
        match AddDays(d, RecurrenceDays)
        case None => done
        case Some(next) => done.(date := FormatDate(next), status := Pending, completionTimestamp := "")
  }

  /** Completion touches the date, status and timestamp columns only. */
  lemma CompleteFrame(t: Task, now: Instant)
    requires ValidInstant(now)
    ensures var r := Complete(t, now);
      r == t.(date := r.date, status := r.status, completionTimestamp := r.completionTimestamp)
  {
  }

  /** A one-off task ends Completed, stamped with the moment of completion (19 characters,
      beginning with the day's date), its date untouched. */
  lemma CompleteOneOff(t: Task, now: Instant)
    requires ValidInstant(now) && !t.recurring
    ensures Complete(t, now).status == Completed
    ensures |Complete(t, now).completionTimestamp| == 19
    ensures Complete(t, now).completionTimestamp[..10] == FormatDate(now.date)
    ensures Complete(t, now).date == t.date
    ensures forall today :: DeriveStatus(Complete(t, now), today) == Complete(t, now)
  {
  }

  /** A recurring task due on `due` is rescheduled to the date seven days later (a real calendar
      date, whose day number is seven more), Pending and with no timestamp. */
  lemma CompleteRecurring(t: Task, now: Instant, due: Date)
    requires ValidInstant(now) && t.recurring && ParseDate(t.date) == Some(due)
    requires Ordinal(due) + RecurrenceDays <= Ordinal(MaxDate)
    ensures ParseDate(Complete(t, now).date).Some?
    ensures Ordinal(ParseDate(Complete(t, now).date).value) == Ordinal(due) + RecurrenceDays
    ensures Complete(t, now).status == Pending && Complete(t, now).completionTimestamp == ""
    ensures Complete(t, now).recurring
    ensures AddDays(due, RecurrenceDays).Some?
    ensures Complete(t, now).date == FormatDate(AddDays(due, RecurrenceDays).value)
  {
    var next := AddDays(due, RecurrenceDays).value;
    ParseFormatDate(next);
  }

  /** On the refresh that follows completion, the rescheduled task is Ahead when its new date
      lies after the day of completion, Behind when before it (possible only for a task more
      than a week overdue), and Pending when it falls on that day. */
  lemma CompleteThenDerive(t: Task, now: Instant, due: Date)
    requires ValidInstant(now) && t.recurring && ParseDate(t.date) == Some(due)
    requires Ordinal(due) + RecurrenceDays <= Ordinal(MaxDate)
    ensures var r := DeriveStatus(Complete(t, now), now.date);
      && (r.status == Ahead <==> Ordinal(due) + RecurrenceDays > Ordinal(now.date))
      && (r.status == Behind <==> Ordinal(due) + RecurrenceDays < Ordinal(now.date))
      && (r.status == Pending <==> Ordinal(due) + RecurrenceDays == Ordinal(now.date))
  {
    CompleteRecurring(t, now, due);
    var done := Complete(t, now);
    DeriveStatusByDayNumber(done, now.date, ParseDate(done.date).value);
  }

  /** Completing a recurring task twice moves it fourteen days on. */
  lemma CompleteRecurringTwice(t: Task, now1: Instant, now2: Instant, due: Date)
    requires ValidInstant(now1) && ValidInstant(now2)
    requires t.recurring && ParseDate(t.date) == Some(due)
    requires Ordinal(due) + 2 * RecurrenceDays <= Ordinal(MaxDate)
    ensures ParseDate(Complete(Complete(t, now1), now2).date) == AddDays(due, 2 * RecurrenceDays)
    ensures Complete(Complete(t, now1), now2).status == Pending
  {
    var next := AddDays(due, RecurrenceDays).value;
    ParseFormatDate(next);
    var once := Complete(t, now1);
    assert ParseDate(once.date) == Some(next);
    AddDaysTwice(due, RecurrenceDays, RecurrenceDays);
    var after := AddDays(next, RecurrenceDays).value;
    ParseFormatDate(after);
  }

  /** A recurring task whose date does not parse, or whose next occurrence would lie past
      9999-12-31, is not rescheduled: it stays Completed with its timestamp and its date. */
  lemma CompleteRecurringNotRescheduled(t: Task, now: Instant)
    requires ValidInstant(now) && t.recurring
    requires ParseDate(t.date).None? || Ordinal(ParseDate(t.date).value) + RecurrenceDays > Ordinal(MaxDate)
    ensures Complete(t, now).status == Completed
    ensures Complete(t, now).completionTimestamp == FormatTimestamp(now)
    ensures Complete(t, now).date == t.date
  {
  }

  /** An example of the swallowed overflow: a weekly task due 9999-12-30 stays Completed. */
  lemma CompleteAtEndOfCalendar(t: Task, now: Instant)
    requires ValidInstant(now) && t.recurring && t.date == "9999-12-30"
    ensures Complete(t, now).status == Completed && Complete(t, now).date == "9999-12-30"
  {
    var d := Date(9999, 12, 30);
    assert Valid(d);
    ParseFormatDate(d);
    assert FormatDate(d) == "9999-12-30" by {
      assert Digits(9999, 4) == "9999";
    }
    AddWeekOverflowFrom(d);
  }

  lemma AddWeekOverflowFrom(d: Date)
    requires d == Date(9999, 12, 30)
    ensures Valid(d) && AddDays(d, RecurrenceDays).None?
  {
    assert Valid(d);
    NextDayOrdinal(d);
    assert NextDay(d) == MaxDate;
  }
}
