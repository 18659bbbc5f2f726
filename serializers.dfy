/** TaskSerializer of TodoList/App/serializers.py: the status rule of
    `validate`, the orchestration of `create` and `update` over the database,
    and `to_representation`, which renders tags as their names. */
module Serializers {
  import opened Wrappers
  import opened Models
  import opened Orm

  /** The attrs / validated_data dictionary: every key may be absent. A given
      due date may itself be null. */
  datatype Attrs = Attrs(
    title: Field<string>,
    description: Field<string>,
    dueDate: Field<Option<Day>>,
    status: Field<Status>,
    tags: Field<seq<string>>)

  /** The serializer's description field, built from the TextField's
      max_length, refuses a longer description before create or update runs;
      full_clean itself does not check that length. */
  predicate DescriptionAccepted(a: Attrs) {
    a.description.Given? ==> |a.description.value| <= DescriptionMaxLength
  }

  /** attrs.get("due_date", None). */
  function DueDateOf(a: Attrs): Option<Day> {
    a.dueDate.GetOr(None)
  }

  /** TaskSerializer.validate: a due date before today forces the status to
      OVERDUE unless the request sets COMPLETED; nothing else is touched. */
  function Validate(a: Attrs, today: Day): (r: Attrs)
    ensures r.(status := a.status) == a
    ensures IsPastDue(DueDateOf(a), today) && a.status != Given(Completed) ==> r.status == Given(Overdue)
    ensures r.status != a.status ==> r.status == Given(Overdue) && IsPastDue(DueDateOf(a), today)
    ensures a.status == Given(Completed) ==> r == a
  {
    if IsPastDue(DueDateOf(a), today) && a.status != Given(Completed) then
      a.(status := Given(Overdue))
    else a
  }

  /** Validating twice changes nothing more. */
  lemma ValidateIdempotent(a: Attrs, today: Day)
    ensures Validate(Validate(a, today), today) == Validate(a, today)
  {
  }

  /** A request carrying a past due date leaves validate with a status that is
      set and is not OPEN, so such a task can never fail Task.clean. */
  lemma ValidatedPastDueNeverOpen(a: Attrs, today: Day, t: Task)
    requires IsPastDue(DueDateOf(a), today)
    requires t.status == Validate(a, today).status.GetOr(Open)
    ensures Validate(a, today).status.Given? && t.status != Open
    ensures Clean(t, today) == {}
  {
  }

  /** Task(**validated_data): missing text columns default to "", a missing due
      date to null, a missing status to OPEN; no tags yet. */
  function Instantiate(a: Attrs): (t: Task)
    ensures a.status == Absent ==> t.status == Open
    ensures t.tags == {}
  {
    Task(a.title.GetOr(""), a.description.GetOr(""), DueDateOf(a), a.status.GetOr(Open), {})
  }

  /** The setattr loop of update: every given key overwrites the column. */
  function Assign(t: Task, a: Attrs): (u: Task)
    ensures u.tags == t.tags
    ensures a == Attrs(Absent, Absent, Absent, Absent, a.tags) ==> u == t
  {
    Task(
      a.title.GetOr(t.title),
      a.description.GetOr(t.description),
      a.dueDate.GetOr(t.dueDate),
      a.status.GetOr(t.status),
      t.tags)
  }

  /** validated_data.pop("tags", []) in create. */
  function TagsForCreate(a: Attrs): seq<string> {
    a.tags.GetOr([])
  }

  /** TaskSerializer.create: the status is forced to OPEN, a past due date is
      refused before anything is written, the row is inserted through
      Task.objects.create (which runs full_clean), then every name is resolved
      by get_or_create and linked. */
  ghost function CreateSpec(db: Db, a: Attrs, today: Day): Result<(Db, TaskId), Error> {
    var data := a.(status := Given(Open));
    if IsPastDue(DueDateOf(data), today) then Err(PastDueOnCreate)
    else
      match InsertTask(db, Instantiate(data), today)
      case Err(e) => Err(e)
      case Ok(ins) =>
        var resolved := ResolveNames(ins.0, TagsForCreate(a));
        Ok((ReplaceTags(resolved.0, ins.1, resolved.1), ins.1))
  }

  /** A create that passes both checks: the database stays consistent, one
      task is added under a fresh key with the requested columns, status OPEN
      and exactly the named tags; other tasks are untouched; every name
      resolves; existing tags are reused unchanged and new ones carry only
      names that had none. */
  lemma CreateSucceeds(db: Db, a: Attrs, today: Day)
    requires Consistent(db) && NamesAccepted(TagsForCreate(a))
    requires !IsPastDue(DueDateOf(a), today) && FieldsValid(Instantiate(a))
    ensures var r := CreateSpec(db, a, today);
      && r.Ok?
      && var (d, id) := r.value;
      var names := TagsForCreate(a);
      && Consistent(d)
      && id !in db.tasks && d.tasks.Keys == db.tasks.Keys + {id}
      && (forall j :: j in db.tasks ==> d.tasks[j] == db.tasks[j])
      && d.tasks[id] == Instantiate(a).(status := Open, tags := TagsNamed(d.tagName, names))
      && (forall n :: n in names ==> n in d.tagName.Values)
      && (forall u :: u in db.tagName ==> u in d.tagName && d.tagName[u] == db.tagName[u])
      && (forall u :: u in d.tagName && u !in db.tagName ==>
            d.tagName[u] in names && d.tagName[u] !in db.tagName.Values)
  {
    var data := a.(status := Given(Open));
    var t := Instantiate(data);
    assert FieldsValid(t);
    var ins := InsertTask(db, t, today);
    assert ins.Ok?;
    var (d1, id) := ins.value;
    ResolveNamesSpec(d1, TagsForCreate(a));
    var (d2, ts) := ResolveNames(d1, TagsForCreate(a));
    var d := ReplaceTags(d2, id, ts);
    assert d.tasks[id] == Instantiate(a).(status := Open, tags := ts);
    forall j | j in d.tasks ensures FieldsValid(d.tasks[j]) {
      assert FieldsValid(d2.tasks[j]);
    }
    assert Consistent(d);
  }

  /** What create promises: it fails exactly when the due date is past
      (PastDueOnCreate, nothing written) or a title or description is blank or
      the title too long; on success the new task is OPEN whatever status was
      sent, carries the requested fields and exactly the tags named in the
      request, every name resolves to a tag, existing tags are reused unchanged,
      tags are inserted only for names that had none, other tasks are untouched
      and the database stays consistent. */
  lemma CreateSpecProps(db: Db, a: Attrs, today: Day)
    requires Consistent(db) && NamesAccepted(TagsForCreate(a))
    ensures var r := CreateSpec(db, a, today);
      && (r.Err? <==> IsPastDue(DueDateOf(a), today) || !FieldsValid(Instantiate(a)))
      && (IsPastDue(DueDateOf(a), today) ==> r == Err(PastDueOnCreate))
      && (r.Ok? ==>
            var (d, id) := r.value;
            var names := TagsForCreate(a);
            && Consistent(d)
            && id !in db.tasks && d.tasks.Keys == db.tasks.Keys + {id}
            && (forall j :: j in db.tasks ==> d.tasks[j] == db.tasks[j])
            && d.tasks[id] == Instantiate(a).(status := Open, tags := TagsNamed(d.tagName, names))
            && (forall n :: n in names ==> n in d.tagName.Values)
            && (forall u :: u in db.tagName ==> u in d.tagName && d.tagName[u] == db.tagName[u])
            && (forall u :: u in d.tagName && u !in db.tagName ==>
                  d.tagName[u] in names && d.tagName[u] !in db.tagName.Values))
  {
    assert FieldsValid(Instantiate(a.(status := Given(Open)))) == FieldsValid(Instantiate(a));
    if !IsPastDue(DueDateOf(a), today) && FieldsValid(Instantiate(a)) {
      CreateSucceeds(db, a, today);
    }
  }

  /** One step of create's loop on a task whose links are `tags`: get_or_create
      and add give the tag get_or_create finds in the tag table alone, and
      link it on top of `tags`. */
  lemma GetOrCreateThenLink(d: Db, id: TaskId, tags: set<TagId>, name: string)
    requires id in d.tasks
    ensures var x := GetOrCreate(ReplaceTags(d, id, tags), name);
      var g := GetOrCreate(d, name);
      && x.1 == g.1
      && LinkTag(x.0, id, x.1) == ReplaceTags(g.0, id, tags + {g.1})
  {
  }

  /** The loop of create: get_or_create each name in turn and add the tag to
      the task. */
  method LinkNames(s: Store, id: TaskId, names: seq<string>)
    requires s.Valid() && id in s.tasks && NamesAccepted(names)
    modifies s
    ensures s.Valid()
    ensures var r := ResolveNames(old(s.State()), names);
      s.State() == ReplaceTags(r.0, id, old(s.tasks[id].tags) + r.1)
  {
    ghost var start := s.State();
    ghost var tags0 := s.tasks[id].tags;
    ghost var d, ts := start, {};
    assert ResolveNames(start, names[..0]) == (d, ts);
    assert tags0 + {} == tags0;
    assert start.tasks[id := start.tasks[id].(tags := tags0)] == start.tasks;
    var i := 0;
    while i < |names|
      invariant 0 <= i <= |names|
      invariant (d, ts) == ResolveNames(start, names[..i])
      invariant s.Valid() && id in d.tasks
      invariant s.State() == ReplaceTags(d, id, tags0 + ts)
    {
      ghost var step := GetOrCreate(d, names[i]);
      assert names[..i + 1][..i] == names[..i];
      assert ResolveNames(start, names[..i + 1]) == (step.0, ts + {step.1});
      GetOrCreateThenLink(d, id, tags0 + ts, names[i]);
      var t := s.GetOrCreateTag(names[i]);
      s.AddTag(id, t);
      assert tags0 + ts + {t} == tags0 + (ts + {t});
      d, ts := step.0, ts + {t};
      i := i + 1;
    }
    assert names[..|names|] == names;
  }

  /** TaskSerializer.create run against the database. */
  method Create(s: Store, a: Attrs, today: Day) returns (r: Result<TaskId, Error>)
    requires s.Valid() && NamesAccepted(TagsForCreate(a)) && DescriptionAccepted(a)
    modifies s
    ensures s.Valid()
    ensures var out := CreateSpec(old(s.State()), a, today);
      if out.Ok? then r == Ok(out.value.1) && s.State() == out.value.0
      else r == Err(out.error) && s.State() == old(s.State())
  {
    var data := a.(status := Given(Open));
    if IsPastDue(DueDateOf(data), today) {
      return Err(PastDueOnCreate);
    }
    var inserted := s.Insert(Instantiate(data), today);
    if inserted.Err? {
      return Err(inserted.error);
    }
    var id := inserted.value;
    ghost var ins := s.State();
    assert s.tasks[id].tags == {};
    LinkNames(s, id, TagsForCreate(a));
    ghost var ts := ResolveNames(ins, TagsForCreate(a)).1;
    assert {} + ts == ts;
    return Ok(id);
  }

  /** The tags the clean-up loop of update deletes: linked to this task, named
      nowhere in the new list, and counting one task. */
  function Dropped(db: Db, id: TaskId, names: seq<string>): set<TagId>
    requires id in db.tasks
  {
    set t | t in db.tasks[id].tags && t in db.tagName && db.tagName[t] !in names && RefCount(db, t) == 1
  }

  /** The tag half of update when a tags list is given: delete the dropped
      tags, get_or_create each listed name, then tags.set(...). These writes are
      made before the final save and are not undone when it fails. */
  ghost function Relink(db: Db, id: TaskId, names: seq<string>): (d: Db)
    requires id in db.tasks
    ensures d.tasks.Keys == db.tasks.Keys
  {
    var cleaned := DeleteTags(db, Dropped(db, id, names));
    var resolved := ResolveNames(cleaned, names);
    ReplaceTags(resolved.0, id, resolved.1)
  }

  /** A dropped tag is one this task carries under a name missing from the
      list whose only task is this one; no other task carries a dropped tag. */
  lemma DroppedSpec(db: Db, id: TaskId, names: seq<string>)
    requires id in db.tasks
    ensures forall t :: t in db.tasks[id].tags && t in db.tagName ==>
      (t in Dropped(db, id, names) <==> db.tagName[t] !in names && Referrers(db, t) == {id})
    ensures forall j :: j in db.tasks && j != id ==> db.tasks[j].tags !! Dropped(db, id, names)
  {
    var dropped := Dropped(db, id, names);
    forall t | t in db.tasks[id].tags
      ensures RefCount(db, t) == 1 <==> Referrers(db, t) == {id}
    {
      SoleReferrer(db, id, t);
    }
    forall j, t | j in db.tasks && j != id && t in dropped
      ensures t !in db.tasks[j].tags
    {
      assert Referrers(db, t) == {id};
      assert j !in Referrers(db, t);
    }
  }

  /** After the clean-up loop of update: consistent, only this task's links
      changed, and the tag table lost exactly the dropped tags. */
  lemma CleanedSpec(db: Db, id: TaskId, names: seq<string>)
    requires Consistent(db) && id in db.tasks
    ensures var c := DeleteTags(db, Dropped(db, id, names));
      && Consistent(c)
      && c.tasks[id].(tags := db.tasks[id].tags) == db.tasks[id]
      && (forall j :: j in db.tasks && j != id ==> c.tasks[j] == db.tasks[j])
      && c.tagName.Keys == db.tagName.Keys - Dropped(db, id, names)
      && (forall u :: u in c.tagName ==> c.tagName[u] == db.tagName[u])
  {
    var dropped := Dropped(db, id, names);
    DeleteTagsSpec(db, dropped);
    DroppedSpec(db, id, names);
    forall j | j in db.tasks && j != id
      ensures DeleteTags(db, dropped).tasks[j] == db.tasks[j]
    {
      DeleteTagsSpares(db, dropped, j);
    }
  }

  /** What the tag half of update does to the tasks: the task's tags become
      exactly the tags named in the list; no other task and none of this
      task's own columns change; the database stays consistent. */
  lemma RelinkTasks(db: Db, id: TaskId, names: seq<string>)
    requires Consistent(db) && id in db.tasks && NamesAccepted(names)
    ensures var d := Relink(db, id, names);
      && Consistent(d)
      && d.tasks[id].tags == TagsNamed(d.tagName, names)
      && d.tasks[id].(tags := db.tasks[id].tags) == db.tasks[id]
      && (forall j :: j in db.tasks && j != id ==> d.tasks[j] == db.tasks[j])
  {
    var cleaned := DeleteTags(db, Dropped(db, id, names));
    CleanedSpec(db, id, names);
    ResolveNamesSpec(cleaned, names);
    var (d2, ts) := ResolveNames(cleaned, names);
    var d := ReplaceTags(d2, id, ts);
    assert d == Relink(db, id, names);
    forall j | j in d.tasks ensures FieldsValid(d.tasks[j]) {
      assert FieldsValid(cleaned.tasks[j]);
    }
  }

  /** What the tag half of update does to the tag table: every listed name
      resolves to a tag; a dropped tag is deleted exactly when this task was
      its only task; every other existing tag keeps its row and name; new tags
      appear only for names that had none. */
  lemma RelinkTagTable(db: Db, id: TaskId, names: seq<string>)
    requires Consistent(db) && id in db.tasks && NamesAccepted(names)
    ensures var d := Relink(db, id, names);
      && (forall n :: n in names ==> n in d.tagName.Values)
      && (forall t :: t in db.tasks[id].tags && db.tagName[t] !in names ==>
            (t in d.tagName <==> Referrers(db, t) != {id}))
      && (forall t :: t in db.tagName && (t !in db.tasks[id].tags || db.tagName[t] in names) ==>
            t in d.tagName && d.tagName[t] == db.tagName[t])
      && (forall u :: u in d.tagName && u !in db.tagName ==>
            d.tagName[u] in names && d.tagName[u] !in db.tagName.Values)
  {
    var dropped := Dropped(db, id, names);
    var cleaned := DeleteTags(db, dropped);
    CleanedSpec(db, id, names);
    DroppedSpec(db, id, names);
    ResolveNamesSpec(cleaned, names);
    var d2 := ResolveNames(cleaned, names).0;
    assert Relink(db, id, names).tagName == d2.tagName;
    forall t | t in dropped ensures t !in d2.tagName {
      assert t < cleaned.nextTag && t !in cleaned.tagName;
    }
    forall u | u in d2.tagName && u !in db.tagName
      ensures d2.tagName[u] in names && d2.tagName[u] !in db.tagName.Values
    {
      assert u !in cleaned.tagName;
    }
  }

  /** TaskSerializer.update on a stored instance: an explicit OVERDUE is refused
      before anything changes; otherwise the given columns are applied in
      memory, the tags are relinked when a list is given, and the instance is
      saved. A failing save leaves the tag writes in place. */
  ghost function UpdateSpec(db: Db, id: TaskId, a: Attrs, today: Day): (Db, Result<Task, Error>)
    requires id in db.tasks
  {
    if a.status == Given(Overdue) then (db, Err(OverdueRequested))
    else
      var instance := Assign(db.tasks[id], a);
      var linked := if a.tags.Given? then Relink(db, id, a.tags.value) else db;
      match SaveTask(linked, id, instance, today)
      case Err(e) => (linked, Err(e))
      case Ok(d) => (d, Ok(d.tasks[id]))
  }

  /** What update promises: an explicit OVERDUE fails with nothing written;
      otherwise it succeeds exactly when the applied task passes full_clean,
      and then the stored task carries the requested columns and is never OPEN
      with a past due date; when it fails, the task's own columns are as
      before. Either way the tag writes of a given list have happened, and
      without a tags key the tag table and the task's tags are untouched. */
  lemma UpdateSpecProps(db: Db, id: TaskId, a: Attrs, today: Day)
    requires Consistent(db) && id in db.tasks
    requires a.tags.Given? ==> NamesAccepted(a.tags.value)
    ensures var (d, r) := UpdateSpec(db, id, a, today);
      && Consistent(d)
      && (a.status == Given(Overdue) ==> d == db && r == Err(OverdueRequested))
      && (a.status != Given(Overdue) ==> (
            var applied := Assign(db.tasks[id], a);
            && id in d.tasks
            && (r.Ok? <==> FullClean(applied, today) == {})
            && (r.Ok? ==>
                  (r.value == d.tasks[id] && d.tasks[id].(tags := applied.tags) == applied
                   && !(IsPastDue(d.tasks[id].dueDate, today) && d.tasks[id].status == Open)))
            && (r.Err? ==>
                  (r.error == ModelInvalid(FullClean(applied, today))
                   && d.tasks[id].(tags := db.tasks[id].tags) == db.tasks[id]))
            && (forall j :: j in db.tasks && j != id ==> j in d.tasks && d.tasks[j] == db.tasks[j])
            && (a.tags.Absent? ==> d.tagName == db.tagName && d.tasks[id].tags == db.tasks[id].tags)
            && (a.tags.Given? ==>
                  var relinked := Relink(db, id, a.tags.value);
                  d.tagName == relinked.tagName && d.tasks[id].tags == relinked.tasks[id].tags)))
  {
    if a.status != Given(Overdue) {
      var applied := Assign(db.tasks[id], a);
      var linked := if a.tags.Given? then Relink(db, id, a.tags.value) else db;
      if a.tags.Given? {
        RelinkTasks(db, id, a.tags.value);
      }
      assert Consistent(linked);
      assert linked.tasks[id].(tags := db.tasks[id].tags) == db.tasks[id];
    }
  }

  /** Composition of validate and update: a request with a past due date is
      refused with OverdueRequested, and the database left as it was, unless it
      also sets COMPLETED; with COMPLETED it is never refused for that reason. */
  lemma ValidateThenUpdate(db: Db, id: TaskId, a: Attrs, today: Day)
    requires id in db.tasks
    requires IsPastDue(DueDateOf(a), today)
    ensures a.status != Given(Completed) ==>
      UpdateSpec(db, id, Validate(a, today), today) == (db, Err(OverdueRequested))
    ensures a.status == Given(Completed) ==>
      UpdateSpec(db, id, Validate(a, today), today).1 != Err(OverdueRequested)
  {
  }

  /** A refused save does not undo the tag writes: when full_clean refuses the
      applied task, a tag that the list drops and that only this task used is
      still deleted, every listed name still has a tag, the task is still
      linked to exactly the listed tags, and only its columns are as before. */
  lemma RefusedUpdateKeepsTagWrites(db: Db, id: TaskId, a: Attrs, today: Day, t: TagId)
    requires Consistent(db) && id in db.tasks
    requires a.tags.Given? && NamesAccepted(a.tags.value) && a.status != Given(Overdue)
    requires FullClean(Assign(db.tasks[id], a), today) != {}
    requires t in db.tasks[id].tags && db.tagName[t] !in a.tags.value && Referrers(db, t) == {id}
    ensures var (d, r) := UpdateSpec(db, id, a, today);
      && r == Err(ModelInvalid(FullClean(Assign(db.tasks[id], a), today)))
      && t !in d.tagName
      && (forall n :: n in a.tags.value ==> n in d.tagName.Values)
      && d.tasks[id].tags == TagsNamed(d.tagName, a.tags.value)
      && d.tasks[id].(tags := db.tasks[id].tags) == db.tasks[id]
  {
    UpdateSpecProps(db, id, a, today);
    RelinkTasks(db, id, a.tags.value);
    RelinkTagTable(db, id, a.tags.value);
  }

  /** The refused update made concrete: a task due on day 5 with status WORKING
      and the tag "python" only it uses, updated on day 10 to status OPEN with
      tags ["django"], is refused by full_clean, yet "python" has been deleted,
      "django" created and linked, and the task is still WORKING. */
  lemma UpdateFailureKeepsTagWrites()
    ensures var db := Db(map[1 := Task("a", "d", Some(5), Working, {0})], map[0 := "python"], 2, 1);
      var a := Attrs(Absent, Absent, Absent, Given(Open), Given(["django"]));
      var (d, r) := UpdateSpec(db, 1, a, 10);
      && r == Err(ModelInvalid({DueDateInPast}))
      && 0 !in d.tagName
      && "django" in d.tagName.Values
      && d.tasks[1].status == Working
  {
    var db := Db(map[1 := Task("a", "d", Some(5), Working, {0})], map[0 := "python"], 2, 1);
    var a := Attrs(Absent, Absent, Absent, Given(Open), Given(["django"]));
    assert NamesAccepted(["django"]);
    assert Consistent(db);
    assert Referrers(db, 0) == {1};
    assert FullClean(Assign(db.tasks[1], a), 10) == {DueDateInPast};
    RefusedUpdateKeepsTagWrites(db, 1, a, 10, 0);
  }

  /** update as one transaction: a refused request writes nothing, the tag
      writes included. */
  ghost function AtomicUpdateSpec(db: Db, id: TaskId, a: Attrs, today: Day): (Db, Result<Task, Error>)
    requires id in db.tasks
  {
    var (d, r) := UpdateSpec(db, id, a, today);
    if r.Err? then (db, r) else (d, r)
  }

  /** The transactional update answers every request as update does, keeps the
      database consistent, and leaves it exactly as it was whenever it refuses;
      on success it writes what update writes. */
  lemma AtomicUpdateSpecProps(db: Db, id: TaskId, a: Attrs, today: Day)
    requires Consistent(db) && id in db.tasks
    requires a.tags.Given? ==> NamesAccepted(a.tags.value)
    ensures var (d, r) := AtomicUpdateSpec(db, id, a, today);
      && Consistent(d)
      && r == UpdateSpec(db, id, a, today).1
      && (r.Err? ==> d == db)
      && (r.Ok? ==> d == UpdateSpec(db, id, a, today).0 && r.value == d.tasks[id])
      && (r.Err? <==> a.status == Given(Overdue) || FullClean(Assign(db.tasks[id], a), today) != {})
  {
    UpdateSpecProps(db, id, a, today);
  }

  /** The clean-up loop of TaskSerializer.update: every tag of the task that
      the new list does not name and that counts one task is deleted. */
  method DeleteDropped(s: Store, id: TaskId, names: seq<string>)
    requires s.Valid() && id in s.tasks
    modifies s
    ensures s.Valid()
    ensures s.State() == DeleteTags(old(s.State()), Dropped(old(s.State()), id, names))
  {
    ghost var db0 := s.State();
    ghost var dropped := Dropped(db0, id, names);
    var pending := s.tasks[id].tags;
    ghost var found: set<TagId> := {};
    DeleteNoTags(db0);
    while pending != {}
      invariant pending <= db0.tasks[id].tags
      invariant found == dropped - pending
      invariant s.State() == DeleteTags(db0, found)
      invariant s.Valid()
      decreases pending
    {
      var t :| t in pending;
      assert t !in found && t in db0.tagName;
      DeleteTagsKeepsCount(db0, found, t);
      assert t in dropped <==> s.tagName[t] !in names && RefCount(s.State(), t) == 1;
      if s.tagName[t] !in names && RefCount(s.State(), t) == 1 {
        DeleteTagsAgain(db0, found, t);
        s.DeleteTag(t);
        assert found + {t} == dropped - (pending - {t});
        found := found + {t};
      } else {
        assert found == dropped - (pending - {t});
      }
      pending := pending - {t};
    }
    assert found == dropped;
  }

  /** The tag half of TaskSerializer.update: the loop deleting every linked tag
      that the list drops and that counts one task, then get_or_create of each
      listed name, then tags.set(...). */
  method RelinkTags(s: Store, id: TaskId, names: seq<string>)
    requires s.Valid() && id in s.tasks && NamesAccepted(names)
    modifies s
    ensures s.Valid() && id in s.tasks
    ensures s.State() == Relink(old(s.State()), id, names)
  {
    DeleteDropped(s, id, names);
    ghost var cleaned := s.State();
    var ts: set<TagId> := {};
    var i := 0;
    while i < |names|
      invariant 0 <= i <= |names|
      invariant (s.State(), ts) == ResolveNames(cleaned, names[..i])
      invariant s.Valid()
    {
      assert names[..i + 1][..i] == names[..i];
      var t := s.GetOrCreateTag(names[i]);
      ts := ts + {t};
      i := i + 1;
    }
    assert names[..|names|] == names;
    s.SetTags(id, ts);
  }

  /** TaskSerializer.update run against the database, on a stored instance. */
  method Update(s: Store, id: TaskId, a: Attrs, today: Day) returns (r: Result<Task, Error>)
    requires s.Valid() && id in s.tasks && DescriptionAccepted(a)
    requires a.tags.Given? ==> NamesAccepted(a.tags.value)
    modifies s
    ensures s.Valid()
    ensures (s.State(), r) == UpdateSpec(old(s.State()), id, a, today)
  {
    if a.status == Given(Overdue) {
      return Err(OverdueRequested);
    }
    var instance := Assign(s.tasks[id], a);
    if a.tags.Given? {
      RelinkTags(s, id, a.tags.value);
    }
    var saved := s.Save(id, instance, today);
    if saved.Fail? {
      return Err(saved.error);
    }
    return Ok(s.tasks[id]);
  }

  /** The names of a set of tags. */
  function NamesOfTags(tagName: map<TagId, string>, ts: set<TagId>): set<string> {
    set t | t in ts && t in tagName :: tagName[t]
  }

  /** Naming one more tag adds its name, which no other tag of the set has. */
  lemma NamesOfTagsAdd(tagName: map<TagId, string>, ts: set<TagId>, t: TagId)
    requires NamesUnique(tagName) && t in tagName && t !in ts
    ensures tagName[t] !in NamesOfTags(tagName, ts)
    ensures NamesOfTags(tagName, ts + {t}) == NamesOfTags(tagName, ts) + {tagName[t]}
  {
  }

  /** The API representation of a task: its columns, the status as its stored
      code, and the tags as a list of names. */
  datatype TaskView = TaskView(
    id: TaskId,
    title: string,
    description: string,
    dueDate: Option<Day>,
    status: string,
    tags: seq<string>)

  /** The list comprehension of to_representation: one name per tag of `ts`,
      no name twice, and nothing else. */
  method ListNames(tagName: map<TagId, string>, ts: set<TagId>) returns (names: seq<string>)
    requires NamesUnique(tagName) && ts <= tagName.Keys
    ensures |names| == |ts|
    ensures forall n :: n in names <==> n in NamesOfTags(tagName, ts)
    ensures forall i, k :: 0 <= i < k < |names| ==> names[i] != names[k]
  {
    names := [];
    var pending := ts;
    ghost var seen: set<TagId> := {};
    while pending != {}
      invariant pending <= ts && seen == ts - pending
      invariant |names| == |seen|
      invariant forall n :: n in names <==> n in NamesOfTags(tagName, seen)
      invariant forall i, k :: 0 <= i < k < |names| ==> names[i] != names[k]
      decreases pending
    {
      var t :| t in pending;
      NamesOfTagsAdd(tagName, seen, t);
      var n := tagName[t];
      assert n !in names;
      assert forall i :: 0 <= i < |names| ==> names[i] != n;
      names := names + [n];
      pending := pending - {t};
      seen := seen + {t};
    }
  }

  /** TaskSerializer.to_representation: the task's columns, the status as its
      stored code, and the tags list holding one name per linked tag, no name
      twice, and nothing else. */
  method ToRepresentation(s: Store, id: TaskId) returns (v: TaskView)
    requires s.Valid() && id in s.tasks
    ensures v.id == id && v.title == s.tasks[id].title && v.description == s.tasks[id].description
    ensures v.dueDate == s.tasks[id].dueDate
    ensures ParseStatus(v.status) == Some(s.tasks[id].status)
    ensures |v.tags| == |s.tasks[id].tags|
    ensures forall n :: n in v.tags <==> n in NamesOfTags(s.tagName, s.tasks[id].tags)
    ensures forall i, k :: 0 <= i < k < |v.tags| ==> v.tags[i] != v.tags[k]
  {
    var task := s.tasks[id];
    var names := ListNames(s.tagName, task.tags);
    StatusCodeRoundTrip(task.status);
    v := TaskView(id, task.title, task.description, task.dueDate, StatusCode(task.status), names);
  }

  /** Sending back the tag names a task is rendered with changes nothing: they
      resolve to exactly the task's tags without creating any, and an update
      carrying them relinks nothing. */
  lemma RepresentationRoundTrip(db: Db, id: TaskId, names: seq<string>)
    requires Consistent(db) && id in db.tasks
    requires forall n :: n in names <==> n in NamesOfTags(db.tagName, db.tasks[id].tags)
    ensures ResolveNames(db, names) == (db, db.tasks[id].tags)
    ensures Relink(db, id, names) == db
  {
    assert NamesAccepted(names) by {
      forall i | 0 <= i < |names| ensures TagNameAccepted(names[i]) {
        assert names[i] in NamesOfTags(db.tagName, db.tasks[id].tags);
      }
    }
    forall n | n in names ensures n in db.tagName.Values {
      var t :| t in db.tasks[id].tags && t in db.tagName && db.tagName[t] == n;
    }
    ResolveExisting(db, names);
    ResolveNamesSpec(db, names);
    assert TagsNamed(db.tagName, names) == db.tasks[id].tags;
    assert Dropped(db, id, names) == {};
    DeleteNoTags(db);
    assert db.tasks[id := db.tasks[id]] == db.tasks;
  }
}
