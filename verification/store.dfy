/**
 * The record store: three AUTOINCREMENT tables (tasks, phases, objectives) held in memory, with
 * the inserts, full-record updates and deletes the application issues. Deleting a phase or an
 * objective first clears the references to it.
 */
module Store {
  import opened Text
  import opened Tables
  import opened Records

  // ---------------------------------------------------------------
  //  the nullifying updates
  // ---------------------------------------------------------------

  /** UPDATE tasks SET phase_id=NULL, objective_id=NULL WHERE phase_id=? */
  function UnlinkTasksFromPhase(tasks: seq<Row<StoredTask>>, phaseId: int): seq<Row<StoredTask>>
  {
    seq(|tasks|, i requires 0 <= i < |tasks| =>
      if tasks[i].data.phaseId == Some(phaseId)
      then Row(tasks[i].id, tasks[i].data.(phaseId := None, objectiveId := None))
      else tasks[i])
  }

  /** UPDATE objectives SET phase_id=NULL WHERE phase_id=? */
  function UnlinkObjectivesFromPhase(objectives: seq<Row<Objective>>, phaseId: int): seq<Row<Objective>>
  {
    seq(|objectives|, i requires 0 <= i < |objectives| =>
      if objectives[i].data.phaseId == Some(phaseId)
      then Row(objectives[i].id, objectives[i].data.(phaseId := None))
      else objectives[i])
  }

  /** UPDATE tasks SET objective_id=NULL WHERE objective_id=? */
  function UnlinkTasksFromObjective(tasks: seq<Row<StoredTask>>, objectiveId: int): seq<Row<StoredTask>>
  {
    seq(|tasks|, i requires 0 <= i < |tasks| =>
      if tasks[i].data.objectiveId == Some(objectiveId)
      then Row(tasks[i].id, tasks[i].data.(objectiveId := None))
      else tasks[i])
  }

  // ---------------------------------------------------------------
  //  references between the tables
  // ---------------------------------------------------------------

  /** A reference column holds NULL or the id of an existing row. */
  predicate RefOk<T>(ref: Option<int>, rows: seq<Row<T>>)
  {
    ref.None? || HasId(rows, ref.value)
  }

  /** No task or objective refers to a missing phase or objective. The store does not enforce
      this (foreign keys are not switched on), but its deletes keep it. */
  predicate RefsValid(tasks: seq<Row<StoredTask>>, phases: seq<Row<Phase>>, objectives: seq<Row<Objective>>)
  {
    && (forall i :: 0 <= i < |tasks| ==> RefOk(tasks[i].data.phaseId, phases) && RefOk(tasks[i].data.objectiveId, objectives))
    && (forall i :: 0 <= i < |objectives| ==> RefOk(objectives[i].data.phaseId, phases))
  }

  lemma SameIds<S, T>(a: seq<Row<S>>, b: seq<Row<T>>)
    requires |a| == |b| && forall i :: 0 <= i < |a| ==> a[i].id == b[i].id
    ensures forall x :: HasId(a, x) <==> HasId(b, x)
  {
    forall x | HasId(a, x) ensures HasId(b, x) {
      var i :| 0 <= i < |a| && a[i].id == x;
      assert b[i].id == x;
    }
    forall x | HasId(b, x) ensures HasId(a, x) {
      var i :| 0 <= i < |b| && b[i].id == x;
      assert a[i].id == x;
    }
  }

  /** delete_phase keeps every reference valid: references to the deleted phase are cleared
      (a task's objective with it), every other reference still names a row that remains. */
  lemma DeletePhaseKeepsRefs(tasks: seq<Row<StoredTask>>, phases: seq<Row<Phase>>, objectives: seq<Row<Objective>>, phaseId: int)
    requires RefsValid(tasks, phases, objectives)
    ensures RefsValid(UnlinkTasksFromPhase(tasks, phaseId), Remove(phases, phaseId), UnlinkObjectivesFromPhase(objectives, phaseId))
  {
    var tasks' := UnlinkTasksFromPhase(tasks, phaseId);
    var phases' := Remove(phases, phaseId);
    var objectives' := UnlinkObjectivesFromPhase(objectives, phaseId);
    SameIds(objectives, objectives');
    forall x ensures HasId(phases', x) <==> HasId(phases, x) && x != phaseId {
      HasIdAfterRemove(phases, phaseId, x);
    }
  }

  /** delete_objective keeps every reference valid. */
  lemma DeleteObjectiveKeepsRefs(tasks: seq<Row<StoredTask>>, phases: seq<Row<Phase>>, objectives: seq<Row<Objective>>, objectiveId: int)
    requires RefsValid(tasks, phases, objectives)
    ensures RefsValid(UnlinkTasksFromObjective(tasks, objectiveId), phases, Remove(objectives, objectiveId))
  {
    var tasks' := UnlinkTasksFromObjective(tasks, objectiveId);
    var objectives' := Remove(objectives, objectiveId);
    forall x ensures HasId(objectives', x) <==> HasId(objectives, x) && x != objectiveId {
      HasIdAfterRemove(objectives, objectiveId, x);
    }
    forall i | 0 <= i < |tasks'|
      ensures RefOk(tasks'[i].data.phaseId, phases) && RefOk(tasks'[i].data.objectiveId, objectives')
    {
      assert RefOk(tasks[i].data.objectiveId, objectives);
    }
    RemoveSpec(objectives, objectiveId);
    forall i | 0 <= i < |objectives'| ensures RefOk(objectives'[i].data.phaseId, phases) {
      assert objectives'[i] in objectives;
      var k :| 0 <= k < |objectives| && objectives[k] == objectives'[i];
    }
  }

  /** delete_task keeps every reference valid: no row refers to a task. */
  lemma DeleteTaskKeepsRefs(tasks: seq<Row<StoredTask>>, phases: seq<Row<Phase>>, objectives: seq<Row<Objective>>, taskId: int)
    requires RefsValid(tasks, phases, objectives)
    ensures RefsValid(Remove(tasks, taskId), phases, objectives)
  {
    RemoveSpec(tasks, taskId);
    forall i | 0 <= i < |Remove(tasks, taskId)|
      ensures RefOk(Remove(tasks, taskId)[i].data.phaseId, phases) && RefOk(Remove(tasks, taskId)[i].data.objectiveId, objectives)
    {
      var r := Remove(tasks, taskId)[i];
      assert r in Remove(tasks, taskId);
      var k :| 0 <= k < |tasks| && tasks[k] == r;
    }
  }

  /** The unlinking updates keep every row, in place and with its id; they clear exactly the
      references to the deleted row and leave every row not referring to it as it was. */
  lemma UnlinkSpec(tasks: seq<Row<StoredTask>>, objectives: seq<Row<Objective>>, phaseId: int, objectiveId: int)
    ensures var t := UnlinkTasksFromPhase(tasks, phaseId);
      && |t| == |tasks|
      && (forall i :: 0 <= i < |tasks| ==> t[i].id == tasks[i].id && t[i].data.phaseId != Some(phaseId))
      && (forall i :: 0 <= i < |tasks| && tasks[i].data.phaseId != Some(phaseId) ==> t[i] == tasks[i])
      && (forall i :: 0 <= i < |tasks| && tasks[i].data.phaseId == Some(phaseId) ==>
            t[i].data.objectiveId.None? && t[i].data == tasks[i].data.(phaseId := None, objectiveId := None))
    ensures var o := UnlinkObjectivesFromPhase(objectives, phaseId);
      && |o| == |objectives|
      && (forall i :: 0 <= i < |objectives| ==> o[i].id == objectives[i].id && o[i].data.phaseId != Some(phaseId))
      && (forall i :: 0 <= i < |objectives| && objectives[i].data.phaseId != Some(phaseId) ==> o[i] == objectives[i])
      && (forall i :: 0 <= i < |objectives| && objectives[i].data.phaseId == Some(phaseId) ==>
            o[i].data == objectives[i].data.(phaseId := None))
    ensures var t := UnlinkTasksFromObjective(tasks, objectiveId);
      && |t| == |tasks|
      && (forall i :: 0 <= i < |tasks| ==> t[i].id == tasks[i].id && t[i].data.objectiveId != Some(objectiveId))
      && (forall i :: 0 <= i < |tasks| && tasks[i].data.objectiveId != Some(objectiveId) ==> t[i] == tasks[i])
      && (forall i :: 0 <= i < |tasks| ==> t[i].data.phaseId == tasks[i].data.phaseId)
      && (forall i :: 0 <= i < |tasks| && tasks[i].data.objectiveId == Some(objectiveId) ==>
            t[i].data == tasks[i].data.(objectiveId := None))
  {
  }

  /** The task dictionaries built from stored rows, in table order. */
  function DecodeRows(rows: seq<Row<StoredTask>>): seq<Row<Task>>
  {
    seq(|rows|, i requires 0 <= i < |rows| => Row(rows[i].id, FromStored(rows[i].data)))
  }

  // ---------------------------------------------------------------
  //  the store
  // ---------------------------------------------------------------

  class ArcanaeumDb {
    var tasks: seq<Row<StoredTask>>
    var phases: seq<Row<Phase>>
    var objectives: seq<Row<Objective>>
    /** The last id each table has handed out (SQLite's sqlite_sequence). */
    var lastTaskId: int
    var lastPhaseId: int
    var lastObjectiveId: int

    ghost predicate Valid()
      reads this
    {
      && lastTaskId >= 0 && lastPhaseId >= 0 && lastObjectiveId >= 0
      && Keyed(tasks, lastTaskId) && Keyed(phases, lastPhaseId) && Keyed(objectives, lastObjectiveId)
    }

    /** A new, empty database. */
    constructor ()
      ensures Valid()
      ensures tasks == [] && phases == [] && objectives == []
      ensures lastTaskId == 0 && lastPhaseId == 0 && lastObjectiveId == 0
    {
      tasks := [];
      phases := [];
      objectives := [];
      lastTaskId := 0;
      lastPhaseId := 0;
      lastObjectiveId := 0;
    }

    // ----- phases -----

    /** add_phase: appends the phase under a fresh id. */
    method AddPhase(p: Phase)
      requires Valid()
      modifies this
      ensures Valid()
      ensures !HasId(old(phases), lastPhaseId) && lastPhaseId == old(lastPhaseId) + 1
      ensures phases == old(phases) + [Row(lastPhaseId, p)]
      ensures tasks == old(tasks) && objectives == old(objectives)
      ensures lastTaskId == old(lastTaskId) && lastObjectiveId == old(lastObjectiveId)
    {
      KeyedInsert(phases, lastPhaseId, p);
      lastPhaseId := lastPhaseId + 1;
      phases := phases + [Row(lastPhaseId, p)];
    }

    /** update_phase: replaces every column of the phase with that id (nothing when there is none). */
    method UpdatePhase(id: int, p: Phase)
      requires Valid()
      modifies this
      ensures Valid()
      ensures phases == Replace(old(phases), id, p)
      ensures tasks == old(tasks) && objectives == old(objectives)
      ensures lastTaskId == old(lastTaskId) && lastPhaseId == old(lastPhaseId) && lastObjectiveId == old(lastObjectiveId)
    {
      phases := Replace(phases, id, p);
    }

    /** delete_phase: clears the tasks' phase and objective and the objectives' phase where they
        name the phase, then deletes it. */
    method DeletePhase(id: int)
      requires Valid()
      modifies this
      ensures Valid()
      ensures tasks == UnlinkTasksFromPhase(old(tasks), id)
      ensures objectives == UnlinkObjectivesFromPhase(old(objectives), id)
      ensures phases == Remove(old(phases), id) && !HasId(phases, id)
      ensures old(RefsValid(tasks, phases, objectives)) ==> RefsValid(tasks, phases, objectives)
      ensures lastTaskId == old(lastTaskId) && lastPhaseId == old(lastPhaseId) && lastObjectiveId == old(lastObjectiveId)
    {
      var tasks' := UnlinkTasksFromPhase(tasks, id);
      var objectives' := UnlinkObjectivesFromPhase(objectives, id);
      var phases' := Remove(phases, id);
      if RefsValid(tasks, phases, objectives) {
        DeletePhaseKeepsRefs(tasks, phases, objectives, id);
      }
      UnlinkSpec(tasks, objectives, id, id);
      KeyedSameIds(tasks, tasks', lastTaskId);
      KeyedSameIds(objectives, objectives', lastObjectiveId);
      RemoveSpec(phases, id);
      RemoveKeyed(phases, lastPhaseId, id);
      tasks := tasks';
      objectives := objectives';
      phases := phases';
    }

    // ----- objectives -----

    /** add_objective: appends the objective under a fresh id. */
    method AddObjective(o: Objective)
      requires Valid()
      modifies this
      ensures Valid()
      ensures !HasId(old(objectives), lastObjectiveId) && lastObjectiveId == old(lastObjectiveId) + 1
      ensures objectives == old(objectives) + [Row(lastObjectiveId, o)]
      ensures tasks == old(tasks) && phases == old(phases)
      ensures lastTaskId == old(lastTaskId) && lastPhaseId == old(lastPhaseId)
    {
      KeyedInsert(objectives, lastObjectiveId, o);
      lastObjectiveId := lastObjectiveId + 1;
      objectives := objectives + [Row(lastObjectiveId, o)];
    }

    /** update_objective: replaces every column of the objective with that id. */
    method UpdateObjective(id: int, o: Objective)
      requires Valid()
      modifies this
      ensures Valid()
      ensures objectives == Replace(old(objectives), id, o)
      ensures tasks == old(tasks) && phases == old(phases)
      ensures lastTaskId == old(lastTaskId) && lastPhaseId == old(lastPhaseId) && lastObjectiveId == old(lastObjectiveId)
    {
      objectives := Replace(objectives, id, o);
    }

    /** delete_objective: clears the tasks' objective where it names the objective, then deletes it. */
    method DeleteObjective(id: int)
      requires Valid()
      modifies this
      ensures Valid()
      ensures tasks == UnlinkTasksFromObjective(old(tasks), id)
      ensures objectives == Remove(old(objectives), id) && !HasId(objectives, id)
      ensures phases == old(phases)
      ensures old(RefsValid(tasks, phases, objectives)) ==> RefsValid(tasks, phases, objectives)
      ensures lastTaskId == old(lastTaskId) && lastPhaseId == old(lastPhaseId) && lastObjectiveId == old(lastObjectiveId)
    {
      var tasks' := UnlinkTasksFromObjective(tasks, id);
      var objectives' := Remove(objectives, id);
      if RefsValid(tasks, phases, objectives) {
        DeleteObjectiveKeepsRefs(tasks, phases, objectives, id);
      }
      UnlinkSpec(tasks, objectives, id, id);
      KeyedSameIds(tasks, tasks', lastTaskId);
      RemoveSpec(objectives, id);
      RemoveKeyed(objectives, lastObjectiveId, id);
      tasks := tasks';
      objectives := objectives';
    }

    // ----- tasks -----

    /** get_tasks: every task, its resources column split back into a list. */
    function Tasks(): seq<Row<Task>>
      reads this
    {
      DecodeRows(tasks)
    }

    /** get_task_by_id: None exactly when no row has the id; otherwise a task with that id,
        one of those get_tasks lists. */
    function TaskById(id: int): (r: Option<Row<Task>>)
      reads this
      ensures r.None? <==> !HasId(tasks, id)
      ensures r.Some? ==> r.value.id == id && r.value in Tasks()
    {
      match Find(tasks, id)
      case Some(row) =>
        assert Row(row.id, FromStored(row.data)) in Tasks() by {
          var i :| 0 <= i < |tasks| && tasks[i] == row;
          assert Tasks()[i] == Row(row.id, FromStored(row.data));
        }
        Some(Row(row.id, FromStored(row.data)))
      case None => None
    }

    /** add_task: appends the task under a fresh id; with clean resources it reads back as
        it was given. */
    method AddTask(t: Task)
      requires Valid()
      modifies this
      ensures Valid()
      ensures !HasId(old(tasks), lastTaskId) && lastTaskId == old(lastTaskId) + 1
      ensures tasks == old(tasks) + [Row(lastTaskId, ToStored(t))]
      ensures HasCleanResources(t) ==> TaskById(lastTaskId) == Some(Row(lastTaskId, t))
      ensures phases == old(phases) && objectives == old(objectives)
      ensures lastPhaseId == old(lastPhaseId) && lastObjectiveId == old(lastObjectiveId)
    {
      KeyedInsert(tasks, lastTaskId, ToStored(t));
      FindAppended(tasks, Row(lastTaskId + 1, ToStored(t)));
      if HasCleanResources(t) {
        TaskRoundTrip(t);
      }
      lastTaskId := lastTaskId + 1;
      tasks := tasks + [Row(lastTaskId, ToStored(t))];
    }

    /** update_task: replaces every column of the task with that id; with clean resources the
        task reads back as it was given, and every other task reads as before. */
    method UpdateTask(id: int, t: Task)
      requires Valid()
      modifies this
      ensures Valid()
      ensures tasks == Replace(old(tasks), id, ToStored(t))
      ensures HasCleanResources(t) && old(HasId(tasks, id)) ==> TaskById(id) == Some(Row(id, t))
      ensures forall other :: other != id ==> TaskById(other) == old(TaskById(other))
      ensures phases == old(phases) && objectives == old(objectives)
      ensures lastTaskId == old(lastTaskId) && lastPhaseId == old(lastPhaseId) && lastObjectiveId == old(lastObjectiveId)
    {
      forall other ensures Find(Replace(tasks, id, ToStored(t)), other) ==
        (if other == id then (if HasId(tasks, id) then Some(Row(id, ToStored(t))) else None) else Find(tasks, other))
      {
        FindAfterReplace(tasks, id, ToStored(t), other);
      }
      if HasCleanResources(t) {
        TaskRoundTrip(t);
      }
      tasks := Replace(tasks, id, ToStored(t));
    }

    /** delete_task */
    method DeleteTask(id: int)
      requires Valid()
      modifies this
      ensures Valid()
      ensures tasks == Remove(old(tasks), id) && TaskById(id).None?
      ensures phases == old(phases) && objectives == old(objectives)
      ensures lastTaskId == old(lastTaskId) && lastPhaseId == old(lastPhaseId) && lastObjectiveId == old(lastObjectiveId)
    {
      RemoveSpec(tasks, id);
      RemoveKeyed(tasks, lastTaskId, id);
      tasks := Remove(tasks, id);
    }
  }

  /** A lookup by the id of a row appended under a fresh id finds that row. */
  lemma {:induction false} FindAppended<T>(rows: seq<Row<T>>, r: Row<T>)
    requires !HasId(rows, r.id)
    ensures Find(rows + [r], r.id) == Some(r)
  {
    if rows == [] {
    } else {
      assert (rows + [r])[1..] == rows[1..] + [r];
      forall i | 0 <= i < |rows[1..]| ensures rows[1..][i].id != r.id {
        assert rows[1..][i] == rows[i + 1];
      }
      FindAppended(rows[1..], r);
    }
  }
}
