/**
 * The task list's filter: the labels under which tasks show their phase and objective, the
 * maps from ids to labels, the five criteria and the order-preserving selection they make.
 */
module Filters {
  import opened Text
  import opened Tables
  import opened Records

  const All := "All"
  const NoPhase := "No Phase"
  const NoObjective := "No Objective"

  // ---------------------------------------------------------------
  //  labels and label maps
  // ---------------------------------------------------------------

  /** f"{phase_number}: {phase_title}" */
  function PhaseLabel(p: Row<Phase>): (s: string)
    ensures s != [] && (IsDigit(s[0]) || s[0] == '-')
  {
    IntToString(p.data.number) + ": " + p.data.title
  }

  /** f"{id} - {objective_name}" */
  function ObjectiveLabel(o: Row<Objective>): (s: string)
    ensures s != [] && (IsDigit(s[0]) || s[0] == '-')
  {
    IntToString(o.id) + " - " + o.data.name
  }

  /** The placeholders are never the label of a real phase or objective. */
  lemma PlaceholdersAreNotLabels(p: Row<Phase>, o: Row<Objective>)
    ensures PhaseLabel(p) != NoPhase && PhaseLabel(p) != All
    ensures ObjectiveLabel(o) != NoObjective && ObjectiveLabel(o) != All
  {
    assert NoPhase[0] == 'N' && NoObjective[0] == 'N' && All[0] == 'A';
  }

  /** A dictionary from id to label built over the rows in order: a later row with a repeated
      id overwrites an earlier one, as both the dict comprehension and the assignment loop do. */
  function IdMap<T(!new)>(rows: seq<Row<T>>, labelOf: Row<T> -> string): (m: map<int, string>)
    ensures forall id :: id in m <==> HasId(rows, id)
    decreases |rows|
  {
    if rows == [] then map[]
    else
      var init := rows[..|rows| - 1];
      var last := rows[|rows| - 1];
      HasIdSnoc(init, last);
      IdMap(init, labelOf)[last.id := labelOf(last)]
  }

  lemma HasIdSnoc<T>(init: seq<Row<T>>, last: Row<T>)
    ensures forall id :: HasId(init + [last], id) <==> HasId(init, id) || last.id == id
  {
    var rows := init + [last];
    forall id | HasId(rows, id) ensures HasId(init, id) || last.id == id {
      var i :| 0 <= i < |rows| && rows[i].id == id;
      if i < |init| {
        assert init[i].id == id;
      }
    }
    forall id | HasId(init, id) ensures HasId(rows, id) {
      var i :| 0 <= i < |init| && init[i].id == id;
      assert rows[i].id == id;
    }
    assert rows[|init|] == last;
  }

  /** Under unique ids, the map holds each row's own label under its id. */
  lemma {:induction false} IdMapLookup<T(!new)>(rows: seq<Row<T>>, labelOf: Row<T> -> string, k: int)
    requires UniqueIds(rows) && 0 <= k < |rows|
    ensures rows[k].id in IdMap(rows, labelOf) && IdMap(rows, labelOf)[rows[k].id] == labelOf(rows[k])
    decreases |rows|
  {
    var init := rows[..|rows| - 1];
    if k < |rows| - 1 {
      assert init[k] == rows[k];
      IdMapLookup(init, labelOf, k);
    }
  }

  /** phase_map */
  function PhaseMap(phases: seq<Row<Phase>>): map<int, string>
  {
    IdMap(phases, PhaseLabel)
  }

  /** The objective map the loop in populate_tasks builds: one entry per objective, assigned in
      turn. */
  method BuildObjectiveMap(objectives: seq<Row<Objective>>) returns (m: map<int, string>)
    ensures m == IdMap(objectives, ObjectiveLabel)
  {
    m := map[];
    var i := 0;
    while i < |objectives|
      invariant 0 <= i <= |objectives|
      invariant m == IdMap(objectives[..i], ObjectiveLabel)
    {
      assert objectives[..i + 1][..i] == objectives[..i];
      m := m[objectives[i].id := ObjectiveLabel(objectives[i])];
      i := i + 1;
    }
    assert objectives[..i] == objectives;
  }

  /** phase_map.get(t['phase_id'], "No Phase") */
  function TaskPhaseLabel<R>(t: TaskData<R>, phaseMap: map<int, string>): string
  {
    match t.phaseId
    case Some(id) => if id in phaseMap then phaseMap[id] else NoPhase
    case None => NoPhase
  }

  /** "No Objective" unless t['objective_id'] is truthy (present and not 0), then
      objective_map.get(t['objective_id'], "No Objective"). */
  function TaskObjectiveLabel<R>(t: TaskData<R>, objectiveMap: map<int, string>): string
  {
    match t.objectiveId
    case Some(id) => if id != 0 && id in objectiveMap then objectiveMap[id] else NoObjective
    case None => NoObjective
  }

  /** With unique phase ids: a task shows "No Phase" exactly when its phase id is absent or
      names no phase, and otherwise the label of the phase it names. */
  lemma TaskPhaseLabelSpec<R>(t: TaskData<R>, phases: seq<Row<Phase>>)
    requires UniqueIds(phases)
    ensures TaskPhaseLabel(t, PhaseMap(phases)) == NoPhase <==> t.phaseId.None? || !HasId(phases, t.phaseId.value)
    ensures t.phaseId.Some? && Find(phases, t.phaseId.value).Some? ==>
      TaskPhaseLabel(t, PhaseMap(phases)) == PhaseLabel(Find(phases, t.phaseId.value).value)
  {
    if t.phaseId.Some? && HasId(phases, t.phaseId.value) {
      var r := Find(phases, t.phaseId.value).value;
      var k :| 0 <= k < |phases| && phases[k] == r;
      IdMapLookup(phases, PhaseLabel, k);
      PlaceholdersAreNotLabels(r, Row(0, Objective(None, "", "", "")));
    }
  }

  /** With unique objective ids: a task shows "No Objective" exactly when its objective id is
      absent, 0, or names no objective, and otherwise the label of the objective it names. */
  lemma TaskObjectiveLabelSpec<R>(t: TaskData<R>, objectives: seq<Row<Objective>>)
    requires UniqueIds(objectives)
    ensures TaskObjectiveLabel(t, IdMap(objectives, ObjectiveLabel)) == NoObjective <==>
      t.objectiveId.None? || t.objectiveId.value == 0 || !HasId(objectives, t.objectiveId.value)
    ensures t.objectiveId.Some? && t.objectiveId.value != 0 && Find(objectives, t.objectiveId.value).Some? ==>
      TaskObjectiveLabel(t, IdMap(objectives, ObjectiveLabel)) == ObjectiveLabel(Find(objectives, t.objectiveId.value).value)
  {
    if t.objectiveId.Some? && t.objectiveId.value != 0 && HasId(objectives, t.objectiveId.value) {
      var r := Find(objectives, t.objectiveId.value).value;
      var k :| 0 <= k < |objectives| && objectives[k] == r;
      IdMapLookup(objectives, ObjectiveLabel, k);
      PlaceholdersAreNotLabels(Row(0, Phase(0, "", "")), r);
    }
  }

  // ---------------------------------------------------------------
  //  filter choices
  // ---------------------------------------------------------------

  /** One label per phase, in table order. */
  function PhaseLabels(phases: seq<Row<Phase>>): (r: seq<string>)
    ensures |r| == |phases|
    ensures forall i :: 0 <= i < |phases| ==> r[i] == PhaseLabel(phases[i])
  {
    if phases == [] then [] else [PhaseLabel(phases[0])] + PhaseLabels(phases[1..])
  }

  /** One label per objective, in table order. */
  function ObjectiveLabels(objectives: seq<Row<Objective>>): (r: seq<string>)
    ensures |r| == |objectives|
    ensures forall i :: 0 <= i < |objectives| ==> r[i] == ObjectiveLabel(objectives[i])
  {
    if objectives == [] then [] else [ObjectiveLabel(objectives[0])] + ObjectiveLabels(objectives[1..])
  }

  /** ["All"] + one label per phase: the choices of the phase filter. */
  function PhaseChoices(phases: seq<Row<Phase>>): (r: seq<string>)
    ensures |r| == |phases| + 1 && r[0] == All
    ensures forall i :: 1 <= i < |r| ==> r[i] == PhaseLabel(phases[i - 1])
  {
    var labels := PhaseLabels(phases);
    assert forall i :: 1 <= i <= |labels| ==> ([All] + labels)[i] == labels[i - 1];
    [All] + labels
  }

  /** ["All"] + one label per objective: the choices of the objective filter. */
  function ObjectiveChoices(objectives: seq<Row<Objective>>): (r: seq<string>)
    ensures |r| == |objectives| + 1 && r[0] == All
    ensures forall i :: 1 <= i < |r| ==> r[i] == ObjectiveLabel(objectives[i - 1])
  {
    var labels := ObjectiveLabels(objectives);
    assert forall i :: 1 <= i <= |labels| ==> ([All] + labels)[i] == labels[i - 1];
    [All] + labels
  }

  /** A filter value no longer among the choices falls back to "All". */
  function Normalise(current: string, choices: seq<string>): (r: string)
    ensures r in choices || r == All
    ensures current in choices ==> r == current
  {
    if current in choices then current else All
  }

  /** After the fallback, the phase filter never holds "No Phase" and the objective filter
      never holds "No Objective": the placeholders are not among the choices. */
  lemma NormalisedFilterNotPlaceholder(current: string, phases: seq<Row<Phase>>, objectives: seq<Row<Objective>>)
    ensures Normalise(current, PhaseChoices(phases)) != NoPhase
    ensures Normalise(current, ObjectiveChoices(objectives)) != NoObjective
  {
    var pc := PhaseChoices(phases);
    forall i | 0 <= i < |pc|
      ensures pc[i] != NoPhase
    {
      if i > 0 {
        PlaceholdersAreNotLabels(phases[i - 1], Row(0, Objective(None, "", "", "")));
      }
    }
    var oc := ObjectiveChoices(objectives);
    forall i | 0 <= i < |oc|
      ensures oc[i] != NoObjective
    {
      if i > 0 {
        PlaceholdersAreNotLabels(Row(0, Phase(0, "", "")), objectives[i - 1]);
      }
    }
  }

  // ---------------------------------------------------------------
  //  the five criteria
  // ---------------------------------------------------------------

  /** The values of the search box and the four filter boxes. */
  datatype Criteria = Criteria(query: string, category: string, priority: string, phase: string, objective: string)

  const NoCriteria := Criteria("", All, All, All, All)

  /** A task is listed when it passes all five tests: the lower-cased query occurs in the
      lower-cased title or description (an empty query passes everything), and each of
      category, priority, phase label and objective label equals its filter value unless that
      value is "All". */
  predicate Matches<R>(t: TaskData<R>, c: Criteria, phaseMap: map<int, string>, objectiveMap: map<int, string>)
  {
    var q := Lower(c.query);
    && (q == [] || Contains(Lower(t.title), q) || Contains(Lower(t.description), q))
    && (c.category == All || t.category == c.category)
    && (c.priority == All || t.priority == c.priority)
    && (c.phase == All || c.phase == TaskPhaseLabel(t, phaseMap))
    && (c.objective == All || c.objective == TaskObjectiveLabel(t, objectiveMap))
  }

  function Matcher(c: Criteria, phaseMap: map<int, string>, objectiveMap: map<int, string>): Row<Task> -> bool
  {
    (r: Row<Task>) => Matches(r.data, c, phaseMap, objectiveMap)
  }

  /** The listed tasks: those passing every test, in their original order. */
  function Filter(tasks: seq<Row<Task>>, c: Criteria, phaseMap: map<int, string>, objectiveMap: map<int, string>): seq<Row<Task>>
  {
    Select(tasks, Matcher(c, phaseMap, objectiveMap))
  }

  /** The filter loop of populate_tasks: appends each task that passes, in order. */
  method FilterTasks(tasks: seq<Row<Task>>, c: Criteria, phaseMap: map<int, string>, objectiveMap: map<int, string>)
    returns (filtered: seq<Row<Task>>)
    ensures filtered == Filter(tasks, c, phaseMap, objectiveMap)
  {
    filtered := [];
    var q := Lower(c.query);
    for i := 0 to |tasks|
      invariant filtered == Filter(tasks[..i], c, phaseMap, objectiveMap)
    {
      var t := tasks[i].data;
      SelectAppend(tasks[..i], tasks[i], Matcher(c, phaseMap, objectiveMap));
      assert tasks[..i + 1] == tasks[..i] + [tasks[i]];
      if q != [] && !Contains(Lower(t.title), q) && !Contains(Lower(t.description), q) {
        continue;
      }
      if c.category != All && t.category != c.category {
        continue;
      }
      if c.priority != All && t.priority != c.priority {
        continue;
      }
      var phaseLabel := TaskPhaseLabel(t, phaseMap);
      if c.phase != All && c.phase != phaseLabel {
        continue;
      }
      var objectiveLabel := TaskObjectiveLabel(t, objectiveMap);
      if c.objective != All && c.objective != objectiveLabel {
        continue;
      }
      filtered := filtered + [tasks[i]];
    }
    assert tasks[..|tasks|] == tasks;
  }

  /** The listed tasks are exactly the tasks that pass, each kept in its original relative
      order. */
  lemma FilterSpec(tasks: seq<Row<Task>>, c: Criteria, phaseMap: map<int, string>, objectiveMap: map<int, string>)
    ensures forall r :: r in Filter(tasks, c, phaseMap, objectiveMap) <==> r in tasks && Matches(r.data, c, phaseMap, objectiveMap)
    ensures IsSubsequence(Filter(tasks, c, phaseMap, objectiveMap), tasks)
  {
    SelectIsSubsequence(tasks, Matcher(c, phaseMap, objectiveMap));
  }

  /** An empty query and "All" everywhere list every task. */
  lemma NoCriteriaListsAll(tasks: seq<Row<Task>>, phaseMap: map<int, string>, objectiveMap: map<int, string>)
    ensures Filter(tasks, NoCriteria, phaseMap, objectiveMap) == tasks
  {
    SelectAll(tasks, Matcher(NoCriteria, phaseMap, objectiveMap));
  }

  /** Setting any one dimension to "All" (or clearing the query) never hides a listed task. */
  lemma RelaxingKeepsMatches<R>(t: TaskData<R>, c: Criteria, phaseMap: map<int, string>, objectiveMap: map<int, string>)
    requires Matches(t, c, phaseMap, objectiveMap)
    ensures Matches(t, c.(query := ""), phaseMap, objectiveMap)
    ensures Matches(t, c.(category := All), phaseMap, objectiveMap)
    ensures Matches(t, c.(priority := All), phaseMap, objectiveMap)
    ensures Matches(t, c.(phase := All), phaseMap, objectiveMap)
    ensures Matches(t, c.(objective := All), phaseMap, objectiveMap)
  {
  }

  /** A search for a string occurring in a task's title lists the task when the four boxes
      read "All", whatever the case of either. */
  lemma SearchFindsTitle<R>(t: TaskData<R>, query: string, phaseMap: map<int, string>, objectiveMap: map<int, string>)
    requires Contains(Lower(t.title), Lower(query))
    ensures Matches(t, NoCriteria.(query := query), phaseMap, objectiveMap)
  {
  }

  /** A task in a phase passes the phase filter set to that phase's label. */
  lemma PhaseFilterSelectsItsTasks<R>(t: TaskData<R>, phases: seq<Row<Phase>>, k: int)
    requires UniqueIds(phases) && 0 <= k < |phases| && t.phaseId == Some(phases[k].id)
    ensures TaskPhaseLabel(t, PhaseMap(phases)) == PhaseLabel(phases[k])
  {
    IdMapLookup(phases, PhaseLabel, k);
  }

  /** Since the phase filter never holds "No Phase" after the fallback, a task without a phase
      (or with a dangling one) passes the phase test only when the filter reads "All"; likewise
      for objectives. */
  lemma UnassignedOnlyUnderAll<R>(t: TaskData<R>, current: string, phases: seq<Row<Phase>>, objectives: seq<Row<Objective>>)
    requires UniqueIds(phases) && UniqueIds(objectives)
    ensures var pf := Normalise(current, PhaseChoices(phases));
      ((t.phaseId.None? || !HasId(phases, t.phaseId.value))
        && (pf == All || pf == TaskPhaseLabel(t, PhaseMap(phases)))) ==> pf == All
    ensures var of := Normalise(current, ObjectiveChoices(objectives));
      ((t.objectiveId.None? || !HasId(objectives, t.objectiveId.value))
        && (of == All || of == TaskObjectiveLabel(t, IdMap(objectives, ObjectiveLabel)))) ==> of == All
  {
    NormalisedFilterNotPlaceholder(current, phases, objectives);
    TaskPhaseLabelSpec(t, phases);
    TaskObjectiveLabelSpec(t, objectives);
  }
}
