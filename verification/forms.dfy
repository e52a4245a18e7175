/**
 * The task dialog: the choices it offers for a task's phase and objective, how it fills its
 * fields from a task being edited, and how it turns its fields back into a task on Save.
 */
module Forms {
  import opened Text
  import opened Dates
  import opened Tables
  import opened Records

  // ---------------------------------------------------------------
  //  phase and objective choices: "{id}|..."
  // ---------------------------------------------------------------

  const NoChoice := "(None)"

  /** f"{id}|{phase_number} - {phase_title}" */
  function PhaseChoice(p: Row<Phase>): string
  {
    IntToString(p.id) + "|" + IntToString(p.data.number) + " - " + p.data.title
  }

  /** f"{id}|{objective_name}" */
  function ObjectiveChoice(o: Row<Objective>): string
  {
    IntToString(o.id) + "|" + o.data.name
  }

  /** The id a phase or objective box holds: None when it is empty or "(None)", otherwise
      int() of the text before the first '|', and None when that is not an integer. */
  function ParseIdPrefix(v: string): (r: Option<int>)
    ensures v == [] || v == NoChoice ==> r == None
  {
    if v == [] || v == NoChoice then None
    else ParseInt(Split(v, '|')[0])
  }

  /** Reading back an id-prefixed label gives the id, whatever follows the bar. */
  lemma IdPrefixRoundTrip(id: int, rest: string)
    ensures ParseIdPrefix(IntToString(id) + "|" + rest) == Some(id)
  {
    var v := IntToString(id) + "|" + rest;
    IntToStringAvoids(id, '|');
    assert v == IntToString(id) + ['|'] + rest;
    FirstPiece(IntToString(id), '|', rest);
    ParseIntRoundTrip(id);
    assert v != NoChoice by {
      assert NoChoice[0] == '(';
    }
  }

  /** Choosing a phase or an objective in the dialog records its id. */
  lemma ChoicesRoundTrip(p: Row<Phase>, o: Row<Objective>)
    ensures ParseIdPrefix(PhaseChoice(p)) == Some(p.id)
    ensures ParseIdPrefix(ObjectiveChoice(o)) == Some(o.id)
  {
    assert PhaseChoice(p) == IntToString(p.id) + "|" + (IntToString(p.data.number) + " - " + p.data.title);
    IdPrefixRoundTrip(p.id, IntToString(p.data.number) + " - " + p.data.title);
    IdPrefixRoundTrip(o.id, o.data.name);
  }

  /** Text typed into a box without a leading integer gives no id. */
  lemma IdPrefixOfText()
    ensures ParseIdPrefix("Phase one") == None
  {
    var v := "Phase one";
    assert IsStripped(v);
    StripOfStripped(v);
    SplitNoSeparator(v, '|');
  }

  // ---------------------------------------------------------------
  //  the dialog's fields
  // ---------------------------------------------------------------

  /** What the dialog's widgets hold. `description` is what the multi-line text widget returns,
      which ends with the newline the widget adds. */
  datatype TaskForm = TaskForm(
    phase: string,
    objective: string,
    title: string,
    description: string,
    date: string,
    status: string,
    priority: string,
    category: string,
    estimate: string,
    resources: string,
    recurring: bool)

  /** A fresh dialog: empty fields, status Pending, priority Medium, category General. */
  const BlankForm := TaskForm("", "", "", "\n", "", Pending, "Medium", "General", "", "", false)

  /** The phase or objective box for a task being edited: the choice for the row its (non-zero)
      id names, or empty when there is none (the first row with that id, as the dialog's loop
      stops at the first match). */
  function ChoiceFor<T>(id: Option<int>, rows: seq<Row<T>>, choice: Row<T> -> string): string
  {
    if id.None? || id.value == 0 then ""
    else
      match Find(rows, id.value)
      case Some(r) => choice(r)
      case None => ""
  }

  /** populate_fields: the dialog's fields for a task being edited. */
  function FormFor(t: Task, phases: seq<Row<Phase>>, objectives: seq<Row<Objective>>): TaskForm
  {
    TaskForm(
      ChoiceFor(t.phaseId, phases, PhaseChoice),
      ChoiceFor(t.objectiveId, objectives, ObjectiveChoice),
      t.title, t.description + "\n", t.date, t.status, t.priority, t.category,
      t.estimatedTime, EncodeResources(t.resources), t.recurring)
  }

  datatype SaveError = TitleRequired | InvalidDate

  datatype Saved = Saved(task: Task) | Rejected(error: SaveError)

  /** save_task: the task the dialog saves, or the warning it shows instead. A blank title is
      reported first, then a date that does not parse. `editing` is the task being edited, whose
      completion timestamp is carried over; a new task has none. */
  function SaveTask(form: TaskForm, editing: Option<Task>): (r: Saved)
    ensures r.Saved? <==> Strip(form.title) != [] && ParseDate(Strip(form.date)).Some?
    ensures Strip(form.title) == [] ==> r == Rejected(TitleRequired)
  {
    var title := Strip(form.title);
    var description := Strip(form.description);
    var date := Strip(form.date);
    var estimate := Strip(form.estimate);
    var resources := CleanResources(form.resources);
    if title == [] then Rejected(TitleRequired)
    else if ParseDate(date).None? then Rejected(InvalidDate)
    else
      Saved(TaskData(
        ParseIdPrefix(form.phase), ParseIdPrefix(form.objective), title, description, date,
        form.status, resources, form.recurring, form.priority, form.category, estimate,
        if editing.Some? then editing.value.completionTimestamp else ""))
  }

  /** A saved task has a non-blank title and a parsable date, all text fields stripped, clean
      resources (so it reads back from the store exactly as saved), and the completion
      timestamp of the task it replaces (none for a new task). */
  lemma SavedTaskShape(form: TaskForm, editing: Option<Task>)
    requires SaveTask(form, editing).Saved?
    ensures var t := SaveTask(form, editing).task;
      && t.title != [] && IsStripped(t.title)
      && ParseDate(t.date).Some? && IsStripped(t.date)
      && IsStripped(t.description) && IsStripped(t.estimatedTime)
      && HasCleanResources(t)
      && FromStored(ToStored(t)) == t
      && t.completionTimestamp == (if editing.Some? then editing.value.completionTimestamp else "")
    ensures var t := SaveTask(form, editing).task;
      && t.title == Strip(form.title) && t.date == Strip(form.date)
      && t.description == Strip(form.description) && t.estimatedTime == Strip(form.estimate)
      && t.phaseId == ParseIdPrefix(form.phase) && t.objectiveId == ParseIdPrefix(form.objective)
      && t.resources == CleanResources(form.resources)
      && t.status == form.status && t.priority == form.priority && t.category == form.category
      && t.recurring == form.recurring
  {
    var t := SaveTask(form, editing).task;
    StripSpec(form.title);
    StripSpec(form.date);
    StripSpec(form.description);
    StripSpec(form.estimate);
    TaskRoundTrip(t);
  }

  /** The phase or objective reference an edited task keeps when saved unchanged: the id, if it
      is non-zero and names an existing row; otherwise the reference is lost. */
  function KeptRef<T>(id: Option<int>, rows: seq<Row<T>>): Option<int>
  {
    if id.Some? && id.value != 0 && HasId(rows, id.value) then id else None
  }

  lemma StripTrailingNewline(s: string)
    requires IsStripped(s)
    ensures Strip(s + "\n") == s
  {
    var t := s + "\n";
    if s == [] {
      assert TrimStart(t) == [];
    } else {
      assert TrimStart(t) == t;
      assert TrimEnd(t) == TrimEnd(s) by {
        assert t[..|t| - 1] == s;
      }
      StripOfStripped(s);
    }
  }

  /** The phase box filled for an edited task reads back as the reference the task keeps. */
  lemma PhaseChoiceRoundTrip(id: Option<int>, phases: seq<Row<Phase>>)
    ensures ParseIdPrefix(ChoiceFor(id, phases, PhaseChoice)) == KeptRef(id, phases)
  {
    if id.Some? && id.value != 0 && Find(phases, id.value).Some? {
      ChoicesRoundTrip(Find(phases, id.value).value, Row(0, Objective(None, "", "", "")));
    }
  }

  /** The objective box filled for an edited task reads back as the reference the task keeps. */
  lemma ObjectiveChoiceRoundTrip(id: Option<int>, objectives: seq<Row<Objective>>)
    ensures ParseIdPrefix(ChoiceFor(id, objectives, ObjectiveChoice)) == KeptRef(id, objectives)
  {
    if id.Some? && id.value != 0 && Find(objectives, id.value).Some? {
      ChoicesRoundTrip(Row(0, Phase(0, "", "")), Find(objectives, id.value).value);
    }
  }

  /** Opening a task in the dialog and saving it unchanged gives the task back, except that a
      phase or objective reference that names no row (or is 0) is dropped. The title, date,
      description and estimate must be free of surrounding whitespace and the resources clean,
      since the dialog strips and cleans them; the date must parse. */
  lemma EditRoundTrip(t: Task, phases: seq<Row<Phase>>, objectives: seq<Row<Objective>>)
    requires t.title != [] && IsStripped(t.title)
    requires IsStripped(t.date) && ParseDate(t.date).Some?
    requires IsStripped(t.description) && IsStripped(t.estimatedTime)
    requires forall k :: 0 <= k < |t.resources| ==> CleanResource(t.resources[k]) && IsStripped(t.resources[k])
    ensures SaveTask(FormFor(t, phases, objectives), Some(t))
      == Saved(t.(phaseId := KeptRef(t.phaseId, phases), objectiveId := KeptRef(t.objectiveId, objectives)))
  {
    var form := FormFor(t, phases, objectives);
    StripOfStripped(t.title);
    StripOfStripped(t.date);
    StripOfStripped(t.estimatedTime);
    StripTrailingNewline(t.description);
    CleanEncodedResources(t.resources);
    PhaseChoiceRoundTrip(t.phaseId, phases);
    ObjectiveChoiceRoundTrip(t.objectiveId, objectives);
    assert Strip(form.title) == t.title && Strip(form.date) == t.date;
    assert Strip(form.description) == t.description && Strip(form.estimate) == t.estimatedTime;
    assert CleanResources(form.resources) == t.resources;
  }

  /** A fresh dialog cannot be saved until a title is typed. */
  lemma BlankFormRejected()
    ensures SaveTask(BlankForm, None) == Rejected(TitleRequired)
  {
    assert Strip(BlankForm.title) == [];
  }
}
