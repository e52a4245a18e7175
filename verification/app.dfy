/**
 * The main window's state and the actions that change the store: refreshing the task list
 * (status derivation, filter normalisation, filtering), marking a task completed, quick add,
 * and saving the task dialog. The clock is a parameter: `today` for a refresh, `now` for the
 * actions that stamp or default a date.
 */
module App {
  import opened Text
  import opened Dates
  import opened Tables
  import opened Records
  import opened Schedule
  import opened Filters
  import opened Forms
  import opened QuickAdd
  import opened Store

  /** The stored rows after a refresh on `today` has derived the status of each. */
  function DeriveRows(rows: seq<Row<StoredTask>>, today: Date): seq<Row<StoredTask>>
  {
    seq(|rows|, i requires 0 <= i < |rows| => Row(rows[i].id, DeriveStatus(rows[i].data, today)))
  }

  /** A refresh keeps every row, in order and with its id; it changes at most the status of a
      pending row with a parsable date, and leaves every other row as it was. */
  lemma DeriveRowsFrame(rows: seq<Row<StoredTask>>, today: Date)
    ensures |DeriveRows(rows, today)| == |rows|
    ensures forall i :: 0 <= i < |rows| ==>
      && DeriveRows(rows, today)[i].id == rows[i].id
      && DeriveRows(rows, today)[i].data == rows[i].data.(status := DeriveRows(rows, today)[i].data.status)
    ensures forall i :: 0 <= i < |rows| && (rows[i].data.status != Pending || ParseDate(rows[i].data.date).None?) ==>
      DeriveRows(rows, today)[i] == rows[i]
  {
    forall i | 0 <= i < |rows|
      ensures DeriveRows(rows, today)[i].data == rows[i].data.(status := DeriveRows(rows, today)[i].data.status)
    {
      DeriveStatusFrame(rows[i].data, today);
    }
  }

  /** Refreshing twice on the same day stores what refreshing once stored. */
  lemma DeriveRowsIdempotent(rows: seq<Row<StoredTask>>, today: Date)
    requires Valid(today)
    ensures DeriveRows(DeriveRows(rows, today), today) == DeriveRows(rows, today)
  {
    var once := DeriveRows(rows, today);
    forall i | 0 <= i < |rows| ensures DeriveRows(once, today)[i] == once[i] {
      DeriveStatusIdempotent(rows[i].data, today);
    }
  }

  /** While the refresh walks the table: the rows before index i carry their derived status,
      the rest are as they were. */
  ghost predicate DerivedBefore(cur: seq<Row<StoredTask>>, stored: seq<Row<StoredTask>>, i: int, today: Date)
  {
    && |cur| == |stored| && 0 <= i <= |stored|
    && (forall k :: 0 <= k < i ==> cur[k] == Row(stored[k].id, DeriveStatus(stored[k].data, today)))
    && (forall k :: i <= k < |stored| ==> cur[k] == stored[k])
  }

  /** One step of the walk: a row the refresh skips is already derived; a row it writes back
      (by its id, in a keyed table) becomes derived. */
  lemma DerivedBeforeStep(cur: seq<Row<StoredTask>>, stored: seq<Row<StoredTask>>, i: int, today: Date)
    requires DerivedBefore(cur, stored, i, today) && i < |stored| && UniqueIds(cur)
    ensures stored[i].data.status != Pending || ParseDate(stored[i].data.date).None? ==>
      DerivedBefore(cur, stored, i + 1, today)
    ensures DerivedBefore(Replace(cur, cur[i].id, DeriveStatus(stored[i].data, today)), stored, i + 1, today)
    ensures DecodeRows(Replace(cur, cur[i].id, DeriveStatus(stored[i].data, today)))
      == DecodeRows(cur)[i := Row(cur[i].id, FromStored(DeriveStatus(stored[i].data, today)))]
  {
    var d := DeriveStatus(stored[i].data, today);
    ReplaceAt(cur, i, d);
    var next := cur[i := Row(cur[i].id, d)];
    assert DerivedBefore(next, stored, i + 1, today) by {
      forall k | 0 <= k < i + 1 ensures next[k] == Row(stored[k].id, DeriveStatus(stored[k].data, today)) {
      }
    }
    DecodeUpdate(cur, i, d);
  }

  /** Decoding commutes with rewriting one row. */
  lemma DecodeUpdate(rows: seq<Row<StoredTask>>, i: int, d: StoredTask)
    requires 0 <= i < |rows|
    ensures DecodeRows(rows[i := Row(rows[i].id, d)]) == DecodeRows(rows)[i := Row(rows[i].id, FromStored(d))]
  {
    var a := DecodeRows(rows[i := Row(rows[i].id, d)]);
    var b := DecodeRows(rows)[i := Row(rows[i].id, FromStored(d))];
    assert |a| == |b|;
    forall k | 0 <= k < |a| ensures a[k] == b[k] {
    }
  }

  /** At the end of the walk the table is the derived table. */
  lemma DerivedBeforeDone(cur: seq<Row<StoredTask>>, stored: seq<Row<StoredTask>>, today: Date)
    requires DerivedBefore(cur, stored, |stored|, today)
    ensures cur == DeriveRows(stored, today)
  {
  }

  /** The dictionary the refresh writes back for a row stores exactly the derived row: the
      resources column survives being split and joined again. */
  lemma WriteBackDerived(s: StoredTask, today: Date)
    ensures ToStored(DeriveStatus(FromStored(s), today)) == DeriveStatus(s, today)
    ensures FromStored(DeriveStatus(s, today)) == DeriveStatus(FromStored(s), today)
  {
    StoredTaskRoundTrip(s);
  }

  /** Likewise for the dictionary mark_completed writes back. */
  lemma WriteBackCompleted(s: StoredTask, now: Instant)
    requires ValidInstant(now)
    ensures ToStored(Complete(FromStored(s), now)) == Complete(s, now)
  {
    StoredTaskRoundTrip(s);
  }

  /** The rows after mark_completed has written back the task with that id (when there is one). */
  function CompleteRow(rows: seq<Row<StoredTask>>, id: int, now: Instant): seq<Row<StoredTask>>
    requires ValidInstant(now)
  {
    match Find(rows, id)
    case None => rows
    case Some(r) => Replace(rows, id, Complete(r.data, now))
  }

  /** In a keyed table, completing the task at index k rewrites that row alone, as Complete
      says; completing an id that is not there changes nothing. */
  lemma CompleteRowSpec(rows: seq<Row<StoredTask>>, id: int, now: Instant)
    requires ValidInstant(now) && UniqueIds(rows)
    ensures !HasId(rows, id) ==> CompleteRow(rows, id, now) == rows
    ensures forall k :: 0 <= k < |rows| && rows[k].id == id ==>
      CompleteRow(rows, id, now) == rows[k := Row(id, Complete(rows[k].data, now))]
  {
    forall k | 0 <= k < |rows| && rows[k].id == id
      ensures CompleteRow(rows, id, now) == rows[k := Row(id, Complete(rows[k].data, now))]
    {
      FindIsUnique(rows, k);
      ReplaceAt(rows, k, Complete(rows[k].data, now));
    }
  }

  /** In a keyed table the row found by id is the one at the index holding that id. */
  lemma FindIsUnique<T>(rows: seq<Row<T>>, k: int)
    requires UniqueIds(rows) && 0 <= k < |rows|
    ensures Find(rows, rows[k].id) == Some(rows[k])
  {
    var r := Find(rows, rows[k].id).value;
    var j :| 0 <= j < |rows| && rows[j] == r;
  }

  // ---------------------------------------------------------------
  //  the main window
  // ---------------------------------------------------------------

  class Arcanaeum {
    const db: ArcanaeumDb
    /** The search box and the four filter boxes. */
    var search: string
    var categoryFilter: string
    var priorityFilter: string
    var phaseFilter: string
    var objectiveFilter: string
    /** The quick-add box. */
    var quickAddText: string
    /** The tasks the list shows after the last refresh. */
    var filteredTasks: seq<Row<Task>>

    ghost predicate Valid()
      reads this, db
    {
      db.Valid()
    }

    /** The window's boxes as it opens: an empty search, every filter on All. */
    constructor (db: ArcanaeumDb)
      requires db.Valid()
      ensures Valid() && this.db == db
      ensures search == "" && categoryFilter == All && priorityFilter == All
      ensures phaseFilter == All && objectiveFilter == All
      ensures quickAddText == "" && filteredTasks == []
    {
      this.db := db;
      search := "";
      categoryFilter := All;
      priorityFilter := All;
      phaseFilter := All;
      objectiveFilter := All;
      quickAddText := "";
      filteredTasks := [];
    }

    /** The filter criteria the boxes currently hold. */
    function CurrentCriteria(): Criteria
      reads this
    {
      Criteria(search, categoryFilter, priorityFilter, phaseFilter, objectiveFilter)
    }

    /** The list shows exactly the stored tasks the boxes select, in table order. */
    ghost predicate Listed()
      reads this, db
    {
      filteredTasks == Filter(db.Tasks(), CurrentCriteria(), PhaseMap(db.phases), IdMap(db.objectives, ObjectiveLabel))
    }

    /** What a refresh leaves in the boxes and the list: a phase or objective filter that
        `phaseFrom` / `objectiveFrom` held and is no longer offered is reset to All, and the list
        shows what the filters then select. */
    ghost predicate RefreshedFrom(phaseFrom: string, objectiveFrom: string)
      reads this, db
    {
      && phaseFilter == Normalise(phaseFrom, PhaseChoices(db.phases))
      && objectiveFilter == Normalise(objectiveFrom, ObjectiveChoices(db.objectives))
      && Listed()
    }

    /** populate_tasks on day `today`: resets a phase or objective filter that is no longer
        offered to All, derives and writes back the status of every pending task with a
        parsable date, and lists the tasks the filters select. */
    method PopulateTasks(today: Date)
      requires Valid()
      modifies this, db
      ensures Valid()
      ensures db.tasks == DeriveRows(old(db.tasks), today)
      ensures db.phases == old(db.phases) && db.objectives == old(db.objectives)
      ensures db.lastTaskId == old(db.lastTaskId) && db.lastPhaseId == old(db.lastPhaseId)
      ensures db.lastObjectiveId == old(db.lastObjectiveId)
      ensures RefreshedFrom(old(phaseFilter), old(objectiveFilter))
      ensures search == old(search) && categoryFilter == old(categoryFilter)
      ensures priorityFilter == old(priorityFilter) && quickAddText == old(quickAddText)
    {
      // The status pass writes only the task table, so running it before the phase and
      // objective tables and the filter boxes are read leaves the same outcome as the
      // source's order (tables, boxes, then statuses).
      var tasks := DeriveStatuses(db.Tasks(), today);
      var phases := db.phases;
      var objectives := db.objectives;
      var phaseMap := PhaseMap(phases);
      var objectiveMap := BuildObjectiveMap(objectives);
      var phaseShown := Normalise(phaseFilter, PhaseChoices(phases));
      var objectiveShown := Normalise(objectiveFilter, ObjectiveChoices(objectives));
      var criteria := Criteria(search, categoryFilter, priorityFilter, phaseShown, objectiveShown);
      var filtered := FilterTasks(tasks, criteria, phaseMap, objectiveMap);
      phaseFilter, objectiveFilter, filteredTasks := phaseShown, objectiveShown, filtered;
    }

    /** The status pass of populate_tasks over `tasks`, the rows get_tasks returned: every
        Pending task with a parsable date gets the status its date gives on `today` and is
        written back. The list it leaves is what get_tasks now returns. */
    method DeriveStatuses(tasks: seq<Row<Task>>, today: Date) returns (derived: seq<Row<Task>>)
      requires Valid() && tasks == db.Tasks()
      modifies db
      ensures Valid()
      ensures db.tasks == DeriveRows(old(db.tasks), today)
      ensures derived == db.Tasks()
      ensures db.phases == old(db.phases) && db.objectives == old(db.objectives)
      ensures db.lastTaskId == old(db.lastTaskId) && db.lastPhaseId == old(db.lastPhaseId)
      ensures db.lastObjectiveId == old(db.lastObjectiveId)
    {
      derived := tasks;
      ghost var stored := db.tasks;
      for i := 0 to |derived|
        invariant db.Valid()
        invariant db.phases == old(db.phases) && db.objectives == old(db.objectives)
        invariant db.lastTaskId == old(db.lastTaskId) && db.lastPhaseId == old(db.lastPhaseId)
        invariant db.lastObjectiveId == old(db.lastObjectiveId)
        invariant DerivedBefore(db.tasks, stored, i, today)
        invariant derived == DecodeRows(db.tasks)
      {
        var t := derived[i].data;
        DerivedBeforeStep(db.tasks, stored, i, today);
        if t.status == Pending {
          var parsed := ParseDate(t.date);
          if parsed.Some? {
            var due := parsed.value;
            t := t.(status := if Before(due, today) then Behind else if Before(today, due) then Ahead else Pending);
            WriteBackDerived(stored[i].data, today);
            db.UpdateTask(derived[i].id, t);
            derived := derived[i := Row(derived[i].id, t)];
          }
        }
      }
      DerivedBeforeDone(db.tasks, stored, today);
    }

    /** add_task followed by populate_tasks: `t` is stored under a fresh id and the list is
        refreshed on `today`. */
    method AddAndRefresh(t: Task, today: Date)
      requires Valid()
      modifies this, db
      ensures Valid()
      ensures db.lastTaskId == old(db.lastTaskId) + 1
      ensures db.tasks == DeriveRows(old(db.tasks) + [Row(db.lastTaskId, ToStored(t))], today)
      ensures db.phases == old(db.phases) && db.objectives == old(db.objectives)
      ensures db.lastPhaseId == old(db.lastPhaseId) && db.lastObjectiveId == old(db.lastObjectiveId)
      ensures RefreshedFrom(old(phaseFilter), old(objectiveFilter))
      ensures search == old(search) && categoryFilter == old(categoryFilter)
      ensures priorityFilter == old(priorityFilter) && quickAddText == old(quickAddText)
    {
      db.AddTask(t);
      PopulateTasks(today);
    }

    /** update_task followed by populate_tasks: the task with id `id` is overwritten with `t`
        and the list is refreshed on `today`. */
    method UpdateAndRefresh(id: int, t: Task, today: Date)
      requires Valid()
      modifies this, db
      ensures Valid()
      ensures db.tasks == DeriveRows(Replace(old(db.tasks), id, ToStored(t)), today)
      ensures db.phases == old(db.phases) && db.objectives == old(db.objectives)
      ensures db.lastTaskId == old(db.lastTaskId)
      ensures db.lastPhaseId == old(db.lastPhaseId) && db.lastObjectiveId == old(db.lastObjectiveId)
      ensures RefreshedFrom(old(phaseFilter), old(objectiveFilter))
      ensures search == old(search) && categoryFilter == old(categoryFilter)
      ensures priorityFilter == old(priorityFilter) && quickAddText == old(quickAddText)
    {
      db.UpdateTask(id, t);
      PopulateTasks(today);
    }

    /** mark_completed for the task selected in the list (None: nothing selected, a warning is
        shown and nothing changes). The task with that id, if it still exists, is completed at
        `now` and written back; then the list is refreshed on the day of `now`. */
    method MarkCompleted(selected: Option<int>, now: Instant)
      requires Valid() && ValidInstant(now)
      modifies this, db
      ensures Valid()
      ensures selected.None? ==>
        && db.tasks == old(db.tasks) && filteredTasks == old(filteredTasks)
        && phaseFilter == old(phaseFilter) && objectiveFilter == old(objectiveFilter)
      ensures selected.Some? ==> db.tasks == DeriveRows(CompleteRow(old(db.tasks), selected.value, now), now.date)
      ensures selected.Some? ==>
        && RefreshedFrom(old(phaseFilter), old(objectiveFilter))
      ensures db.phases == old(db.phases) && db.objectives == old(db.objectives)
      ensures db.lastTaskId == old(db.lastTaskId)
      ensures db.lastPhaseId == old(db.lastPhaseId) && db.lastObjectiveId == old(db.lastObjectiveId)
      ensures search == old(search) && categoryFilter == old(categoryFilter)
      ensures priorityFilter == old(priorityFilter) && quickAddText == old(quickAddText)
    {
      if selected.None? {
        return;
      }
      var id := selected.value;
      var found := db.TaskById(id);
      if found.Some? {
        var t := found.value.data;
        t := t.(status := Completed);
        t := t.(completionTimestamp := FormatTimestamp(now));
        if t.recurring {
          var parsed := ParseDate(t.date);
          if parsed.Some? {
            var next := AddDays(parsed.value, RecurrenceDays);
            if next.Some? {
              t := t.(date := FormatDate(next.value));
              t := t.(status := Pending);
              t := t.(completionTimestamp := "");
            }
          }
        }
        var row := Find(db.tasks, id).value;
        assert t == Complete(FromStored(row.data), now);
        WriteBackCompleted(row.data, now);
        db.UpdateTask(id, t);
      }
      PopulateTasks(now.date);
    }

    /** quick_add_task at the moment `now`: blank text adds nothing and changes nothing;
        otherwise the task the text describes is added under a fresh id, the box is cleared,
        and the list is refreshed on the day of `now`. */
    method QuickAddTask(now: Instant)
      requires Valid() && ValidInstant(now)
      modifies this, db
      ensures Valid()
      ensures ParseQuickAdd(old(quickAddText), now.date).None? ==>
        db.tasks == old(db.tasks) && db.lastTaskId == old(db.lastTaskId)
        && quickAddText == old(quickAddText) && filteredTasks == old(filteredTasks)
        && phaseFilter == old(phaseFilter) && objectiveFilter == old(objectiveFilter)
      ensures ParseQuickAdd(old(quickAddText), now.date).Some? ==>
        && db.lastTaskId == old(db.lastTaskId) + 1
        && db.tasks == DeriveRows(old(db.tasks) + [Row(db.lastTaskId, ToStored(ParseQuickAdd(old(quickAddText), now.date).value))], now.date)
        && quickAddText == ""
        && RefreshedFrom(old(phaseFilter), old(objectiveFilter))
      ensures db.phases == old(db.phases) && db.objectives == old(db.objectives)
      ensures db.lastPhaseId == old(db.lastPhaseId) && db.lastObjectiveId == old(db.lastObjectiveId)
      ensures search == old(search) && categoryFilter == old(categoryFilter)
      ensures priorityFilter == old(priorityFilter)
    {
      var parsed := ParseQuickAdd(quickAddText, now.date);
      if parsed.None? {
        return;
      }
      // The box is cleared before the refresh, which does not read it.
      quickAddText := "";
      AddAndRefresh(parsed.value, now.date);
    }

    /** save_task: the dialog's fields are saved as a new task, or over the task being edited
        (`editing`, with its id), and the list is refreshed on `today`; a blank title or a date
        that does not parse is reported instead and nothing changes. */
    method SaveTaskDialog(form: TaskForm, editing: Option<Row<Task>>, today: Date) returns (r: Saved)
      requires Valid()
      modifies this, db
      ensures Valid()
      ensures r == SaveTask(form, if editing.Some? then Some(editing.value.data) else None)
      ensures r.Rejected? ==>
        && db.tasks == old(db.tasks) && db.lastTaskId == old(db.lastTaskId)
        && filteredTasks == old(filteredTasks)
        && phaseFilter == old(phaseFilter) && objectiveFilter == old(objectiveFilter)
      ensures r.Saved? ==>
        && RefreshedFrom(old(phaseFilter), old(objectiveFilter))
      ensures r.Saved? && editing.Some? ==>
        db.tasks == DeriveRows(Replace(old(db.tasks), editing.value.id, ToStored(r.task)), today)
        && db.lastTaskId == old(db.lastTaskId)
      ensures r.Saved? && editing.None? ==>
        && db.lastTaskId == old(db.lastTaskId) + 1
        && db.tasks == DeriveRows(old(db.tasks) + [Row(db.lastTaskId, ToStored(r.task))], today)
      ensures db.phases == old(db.phases) && db.objectives == old(db.objectives)
      ensures db.lastPhaseId == old(db.lastPhaseId) && db.lastObjectiveId == old(db.lastObjectiveId)
      ensures search == old(search) && categoryFilter == old(categoryFilter)
      ensures priorityFilter == old(priorityFilter) && quickAddText == old(quickAddText)
    {
      r := SaveTask(form, if editing.Some? then Some(editing.value.data) else None);
      if r.Rejected? {
        return;
      }
      if editing.Some? {
        UpdateAndRefresh(editing.value.id, r.task, today);
      } else {
        AddAndRefresh(r.task, today);
      }
    }
  }
}
