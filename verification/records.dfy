/**
 * The records the scheduler keeps: tasks, phases (learning stages) and objectives (milestones
 * within a phase), and the comma-joined text form in which a task's resource list is stored.
 */
module Records {
  import opened Text

  /** The status texts the application itself writes. The status column is free text
      (imported files may hold anything), so a status is a string. */
  const Pending := "Pending"
  const Ahead := "Ahead"
  const Behind := "Behind"
  const Completed := "Completed"

  /** A task's columns other than its id. Res is the type of the resources column: a list of
      strings in the task dictionaries the application handles, the comma-joined string in the
      stored table. Absent phase and objective ids are NULL / None. */
  datatype TaskData<Res> = TaskData(
    phaseId: Option<int>,
    objectiveId: Option<int>,
    title: string,
    description: string,
    date: string,
    status: string,
    resources: Res,
    recurring: bool,
    priority: string,
    category: string,
    estimatedTime: string,
    completionTimestamp: string)

  type Task = TaskData<seq<string>>
  type StoredTask = TaskData<string>

  datatype Phase = Phase(number: int, title: string, description: string)

  datatype Objective = Objective(phaseId: Option<int>, name: string, description: string, criteria: string)

  // ---------------------------------------------------------------
  //  the resources column
  // ---------------------------------------------------------------

  /** ','.join(resources), as a task is written. */
  function EncodeResources(rs: seq<string>): string
  {
    Join(rs, ',')
  }

  /** r.split(',') if r else [], as a task is read back. */
  function DecodeResources(s: string): seq<string>
  {
    if s == [] then [] else Split(s, ',')
  }

  /** A resource entry that survives the round trip: non-empty and free of commas. */
  predicate CleanResource(r: string)
  {
    r != [] && ',' !in r
  }

  /** Reading back what was written gives the same list, for entries that are non-empty and
      comma-free; in particular [] is written as '' and '' is read as []. */
  lemma ResourcesRoundTrip(rs: seq<string>)
    requires forall k :: 0 <= k < |rs| ==> CleanResource(rs[k])
    ensures DecodeResources(EncodeResources(rs)) == rs
    ensures rs == [] <==> EncodeResources(rs) == []
  {
    if rs != [] {
      JoinStartsWith(rs);
      SplitJoin(rs, ',');
    }
  }

  lemma {:induction false} JoinStartsWith(rs: seq<string>)
    requires rs != []
    ensures |Join(rs, ',')| >= |rs[0]| && Join(rs, ',')[..|rs[0]|] == rs[0]
  {
    if |rs| > 1 {
      assert Join(rs, ',') == rs[0] + [','] + Join(rs[1..], ',');
      assert (rs[0] + [','] + Join(rs[1..], ','))[..|rs[0]|] == rs[0];
    }
  }

  /** Writing back what was read stores the same text, whatever the column held. */
  lemma StoredResourcesRoundTrip(s: string)
    ensures EncodeResources(DecodeResources(s)) == s
  {
    if s != [] {
      JoinSplit(s, ',');
    }
  }

  /** An empty entry is lost: [''] is written as '' and read back as []. */
  lemma EmptyResourceLost()
    ensures EncodeResources([""]) == ""
    ensures DecodeResources(EncodeResources([""])) == []
  {
  }

  /** [r.strip() for r in text.split(',') if r.strip()]: the task form's reading of its
      comma-separated resources field. */
  function CleanResources(text: string): (rs: seq<string>)
    ensures forall k :: 0 <= k < |rs| ==> CleanResource(rs[k]) && IsStripped(rs[k])
    ensures forall x :: x in rs <==> KeptPiece(Split(text, ','), x)
  {
    KeepStripped(Split(text, ','))
  }

  /** x is the non-blank strip() of one of the pieces. */
  predicate KeptPiece(pieces: seq<string>, x: string)
  {
    exists k :: 0 <= k < |pieces| && x == Strip(pieces[k]) && x != []
  }

  lemma KeptPieceTail(pieces: seq<string>, x: string)
    requires pieces != []
    ensures KeptPiece(pieces, x) <==> (x == Strip(pieces[0]) && x != []) || KeptPiece(pieces[1..], x)
  {
    if KeptPiece(pieces[1..], x) {
      var k :| 0 <= k < |pieces[1..]| && x == Strip(pieces[1..][k]) && x != [];
      assert pieces[k + 1] == pieces[1..][k];
    }
    if KeptPiece(pieces, x) {
      var k :| 0 <= k < |pieces| && x == Strip(pieces[k]) && x != [];
      if k > 0 {
        assert pieces[1..][k - 1] == pieces[k];
      }
    }
  }

  /** One step of KeepStripped: the first piece's strip, when non-blank, goes in front of what
      the remaining pieces give. */
  lemma KeepStrippedStep(pieces: seq<string>, rest: seq<string>, rs: seq<string>)
    requires pieces != [] && ',' !in pieces[0]
    requires forall k :: 0 <= k < |rest| ==> CleanResource(rest[k]) && IsStripped(rest[k])
    requires forall x :: x in rest <==> KeptPiece(pieces[1..], x)
    requires rs == if Strip(pieces[0]) != [] then [Strip(pieces[0])] + rest else rest
    ensures forall k :: 0 <= k < |rs| ==> CleanResource(rs[k]) && IsStripped(rs[k])
    ensures forall x :: x in rs <==> KeptPiece(pieces, x)
  {
    var p := Strip(pieces[0]);
    assert IsStripped(p) by { StripSpec(pieces[0]); }
    assert ',' !in p by { StripAvoids(pieces[0], ','); }
    forall k | 0 <= k < |rs| ensures CleanResource(rs[k]) && IsStripped(rs[k]) {
      if p == [] || k > 0 {
        assert rs[k] == rest[k - (|rs| - |rest|)];
      }
    }
    forall x ensures x in rs <==> KeptPiece(pieces, x) {
      KeptPieceTail(pieces, x);
    }
  }

  /** The non-blank stripped pieces, in the order of the pieces. */
  function KeepStripped(pieces: seq<string>): (rs: seq<string>)
    requires forall k :: 0 <= k < |pieces| ==> ',' !in pieces[k]
    ensures |rs| <= |pieces|
    ensures forall k :: 0 <= k < |rs| ==> CleanResource(rs[k]) && IsStripped(rs[k])
    ensures forall x :: x in rs <==> KeptPiece(pieces, x)
  {
    if pieces == [] then []
    else
      var rest := KeepStripped(pieces[1..]);
      var rs := if Strip(pieces[0]) != [] then [Strip(pieces[0])] + rest else rest;
      KeepStrippedStep(pieces, rest, rs);
      rs
  }

  /** Cleaning keeps order: the pieces of a list joined to another are cleaned as the two
      lists are, one after the other. */
  lemma {:induction false} KeepStrippedAppend(a: seq<string>, b: seq<string>)
    requires forall k :: 0 <= k < |a| ==> ',' !in a[k]
    requires forall k :: 0 <= k < |b| ==> ',' !in b[k]
    ensures KeepStripped(a + b) == KeepStripped(a) + KeepStripped(b)
  {
    if a != [] {
      var ab := a + b;
      assert ab[0] == a[0];
      assert ab[1..] == a[1..] + b;
      KeepStrippedAppend(a[1..], b);
      var head := if Strip(a[0]) != [] then [Strip(a[0])] else [];
      var rest, kb := KeepStripped(a[1..]), KeepStripped(b);
      assert KeepStripped(ab) == head + (rest + kb);
      assert KeepStripped(a) == head + rest;
      AppendAssociates(head, rest, kb);
    } else {
      assert a + b == b;
    }
  }

  /** The form's field is read in order: the entries of the text before a comma come first,
      then those of the text after it. */
  lemma CleanResourcesConcat(a: string, b: string)
    ensures CleanResources(a + [','] + b) == CleanResources(a) + CleanResources(b)
  {
    SplitConcat(a, ',', b);
    KeepStrippedAppend(Split(a, ','), Split(b, ','));
  }

  /** Cleaning the text of a clean list gives the list back: this is how an edited task's
      resources survive the form (the form shows ','.join(resources)). */
  lemma CleanEncodedResources(rs: seq<string>)
    requires forall k :: 0 <= k < |rs| ==> CleanResource(rs[k]) && IsStripped(rs[k])
    ensures CleanResources(EncodeResources(rs)) == rs
  {
    var e := EncodeResources(rs);
    if rs == [] {
      assert e == [];
      assert Split(e, ',') == [[]];
      assert Strip([]) == [];
      assert KeepStripped([[]]) == [];
    } else {
      SplitJoin(rs, ',');
      assert Split(e, ',') == rs;
      KeepStrippedOfStripped(rs);
      assert CleanResources(e) == KeepStripped(rs);
    }
  }

  lemma {:induction false} KeepStrippedOfStripped(rs: seq<string>)
    requires forall k :: 0 <= k < |rs| ==> CleanResource(rs[k]) && IsStripped(rs[k])
    ensures (forall k :: 0 <= k < |rs| ==> ',' !in rs[k]) && KeepStripped(rs) == rs
  {
    if rs != [] {
      StripOfStripped(rs[0]);
      KeepStrippedOfStripped(rs[1..]);
      assert rs == [rs[0]] + rs[1..];
    }
  }

  /** Cleaning is idempotent on the form's text. */
  lemma CleanResourcesIdempotent(text: string)
    ensures CleanResources(EncodeResources(CleanResources(text))) == CleanResources(text)
  {
    CleanEncodedResources(CleanResources(text));
  }

  // ---------------------------------------------------------------
  //  stored row <-> task dictionary
  // ---------------------------------------------------------------

  /** The column values add_task and update_task write for a task. */
  function ToStored(t: Task): StoredTask
  {
    TaskData(t.phaseId, t.objectiveId, t.title, t.description, t.date, t.status,
      EncodeResources(t.resources), t.recurring, t.priority, t.category, t.estimatedTime,
      t.completionTimestamp)
  }

  /** The task dictionary get_tasks and get_task_by_id build from a stored row. */
  function FromStored(s: StoredTask): Task
  {
    TaskData(s.phaseId, s.objectiveId, s.title, s.description, s.date, s.status,
      DecodeResources(s.resources), s.recurring, s.priority, s.category, s.estimatedTime,
      s.completionTimestamp)
  }

  predicate HasCleanResources(t: Task)
  {
    forall k :: 0 <= k < |t.resources| ==> CleanResource(t.resources[k])
  }

  /** Writing back a task that was read stores exactly the row that was read. */
  lemma StoredTaskRoundTrip(s: StoredTask)
    ensures ToStored(FromStored(s)) == s
  {
    StoredResourcesRoundTrip(s.resources);
  }

  /** Reading back a written task gives the task, when its resource entries are clean. */
  lemma TaskRoundTrip(t: Task)
    requires HasCleanResources(t)
    ensures FromStored(ToStored(t)) == t
  {
    ResourcesRoundTrip(t.resources);
  }
}
