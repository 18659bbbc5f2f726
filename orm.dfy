/** The database the app reads and writes through the ORM: the task table with
    its tag links, the tag table with its unique names, and the primary-key
    counters. Every operation the views, serializer and admin perform on it is
    a function on a `Db` value here, and `Store` holds the same state as a
    mutable object whose methods are proved against those functions. The
    tag clean-up rule shared by views.py and admin.py (delete every tag of a
    task whose reference count is 1, then the task) also lives here. */
module Orm {
  import opened Wrappers
  import opened Models

  /** One snapshot of the database. */
  datatype Db = Db(
    tasks: map<TaskId, Task>,
    tagName: map<TagId, string>,
    nextTask: nat,
    nextTag: nat)

  /** What the tags list field lets through: CharField(max_length=30), not blank. */
  predicate TagNameAccepted(name: string) {
    0 < |name| <= TagNameMaxLength
  }

  predicate NamesAccepted(names: seq<string>) {
    forall i :: 0 <= i < |names| ==> TagNameAccepted(names[i])
  }

  /** Tag.name is unique. */
  ghost predicate NamesUnique(tagName: map<TagId, string>) {
    forall t, u :: t in tagName && u in tagName && tagName[t] == tagName[u] ==> t == u
  }

  /** What every write keeps true: keys below their counters, links only to
      existing tags, unique accepted tag names, and stored tasks that passed
      the field checks of full_clean. */
  ghost predicate Consistent(db: Db) {
    && (forall id :: id in db.tasks ==> id < db.nextTask)
    && (forall t :: t in db.tagName ==> t < db.nextTag)
    && (forall id :: id in db.tasks ==> db.tasks[id].tags <= db.tagName.Keys)
    && NamesUnique(db.tagName)
    && (forall t :: t in db.tagName ==> TagNameAccepted(db.tagName[t]))
    && (forall id :: id in db.tasks ==> FieldsValid(db.tasks[id]))
  }

  /** tag.task_set: the tasks linked to a tag. */
  function Referrers(db: Db, t: TagId): set<TaskId> {
    set id | id in db.tasks && t in db.tasks[id].tags
  }

  /** tag.task_set.count(). */
  function RefCount(db: Db, t: TagId): nat {
    |Referrers(db, t)|
  }

  /** For a tag of task `id`, a count of 1 means that `id` is its only task. */
  lemma SoleReferrer(db: Db, id: TaskId, t: TagId)
    requires id in db.tasks && t in db.tasks[id].tags
    ensures RefCount(db, t) == 1 <==> Referrers(db, t) == {id}
  {
    var r := Referrers(db, t);
    assert id in r;
    if |r| == 1 {
      assert |r - {id}| == |r| - |{id}|;
      assert r - {id} == {};
    }
  }

  /** Tag.__str__ on stored tags: the string is the tag's name, non-blank and
      within the 30-character column, and since names are unique two stored
      tags print alike only when they are the same tag. */
  lemma TagStrIdentifies(db: Db, t: TagId, u: TagId)
    requires Consistent(db) && t in db.tagName && u in db.tagName
    ensures TagStr(db.tagName[t]) == db.tagName[t]
    ensures 0 < |TagStr(db.tagName[t])| <= TagNameMaxLength
    ensures TagStr(db.tagName[t]) == TagStr(db.tagName[u]) <==> t == u
  {
  }

  /** The tags whose names appear in `names`. */
  function TagsNamed(tagName: map<TagId, string>, names: seq<string>): set<TagId> {
    set t | t in tagName && tagName[t] in names
  }

  /** Tag.objects.get(name=...): the tag with that name, if there is one. */
  ghost function FindTag(tagName: map<TagId, string>, name: string): (r: Option<TagId>)
    ensures r.Some? ==> r.value in tagName && tagName[r.value] == name
    ensures r.None? <==> name !in tagName.Values
  {
    if name in tagName.Values then
      var t :| t in tagName && tagName[t] == name; Some(t)
    else None
  }

  /** Under unique names, the tag found for a name is the only one carrying it. */
  lemma FindTagUnique(tagName: map<TagId, string>, name: string, t: TagId)
    requires NamesUnique(tagName) && t in tagName && tagName[t] == name
    ensures FindTag(tagName, name) == Some(t)
  {
  }

  /** Tag.objects.get_or_create(name=...): reuse the tag of that name, or insert one. */
  ghost function GetOrCreate(db: Db, name: string): (r: (Db, TagId))
    ensures r.1 in r.0.tagName && r.0.tagName[r.1] == name
    ensures r.0.tasks == db.tasks && r.0.nextTask == db.nextTask
  {
    match FindTag(db.tagName, name)
    case Some(t) => (db, t)
    case None =>
      (db.(tagName := db.tagName[db.nextTag := name], nextTag := db.nextTag + 1), db.nextTag)
  }

  /** get_or_create for each name in turn, collecting the tags obtained. */
  ghost function ResolveNames(db: Db, names: seq<string>): (r: (Db, set<TagId>))
    ensures r.0.tasks == db.tasks && r.0.nextTask == db.nextTask
    ensures r.1 <= r.0.tagName.Keys
    decreases |names|
  {
    if names == [] then (db, {})
    else
      var prev := ResolveNames(db, names[..|names| - 1]);
      var step := GetOrCreate(prev.0, names[|names| - 1]);
      (step.0, prev.1 + {step.1})
  }

  /** One get_or_create on a consistent database keeps it consistent, keeps every
      existing tag and returns the unique tag of that name; a tag is inserted
      only for a name no tag has. */
  lemma GetOrCreateSpec(db: Db, name: string)
    requires Consistent(db) && TagNameAccepted(name)
    ensures var (d, t) := GetOrCreate(db, name);
      && Consistent(d)
      && (forall u :: u in db.tagName ==> u in d.tagName && d.tagName[u] == db.tagName[u])
      && (name in db.tagName.Values ==> d == db)
      && (name !in db.tagName.Values ==> d.tagName.Keys == db.tagName.Keys + {t} && t == db.nextTag)
      && d.nextTag >= db.nextTag
      && TagsNamed(d.tagName, [name]) == {t}
  {
  }

  /** get_or_create over a list of accepted names: the database stays consistent,
      no task changes, every existing tag is kept under its name, each name ends
      up with a tag, tags are inserted only for names that had none (one each,
      since names stay unique), and the collected set is exactly the tags
      carrying the listed names. */
  lemma {:induction false} ResolveNamesSpec(db: Db, names: seq<string>)
    requires Consistent(db) && NamesAccepted(names)
    ensures var (d, ts) := ResolveNames(db, names);
      && Consistent(d)
      && (forall u :: u in db.tagName ==> u in d.tagName && d.tagName[u] == db.tagName[u])
      && (forall u :: u in d.tagName && u !in db.tagName ==>
            d.tagName[u] in names && d.tagName[u] !in db.tagName.Values && u >= db.nextTag)
      && (forall n :: n in names ==> n in d.tagName.Values)
      && ts == TagsNamed(d.tagName, names)
      && d.nextTag >= db.nextTag
    decreases |names|
  {
    if names != [] {
      var init := names[..|names| - 1];
      var last := names[|names| - 1];
      assert names == init + [last];
      ResolveNamesSpec(db, init);
      var (p, ps) := ResolveNames(db, init);
      GetOrCreateSpec(p, last);
      var (d, t) := GetOrCreate(p, last);
      assert ResolveNames(db, names) == (d, ps + {t});
      forall u | u in d.tagName && u !in db.tagName
        ensures d.tagName[u] in names && d.tagName[u] !in db.tagName.Values && u >= db.nextTag
      {
        if u in p.tagName {
          assert d.tagName[u] == p.tagName[u];
        } else {
          assert u == t && d.tagName[u] == last;
        }
      }
      forall n | n in names ensures n in d.tagName.Values {
        if n in init {
          var v :| v in p.tagName && p.tagName[v] == n;
          assert d.tagName[v] == n;
        } else {
          assert n == last;
        }
      }
      forall u | u in d.tagName
        ensures u in ps + {t} <==> d.tagName[u] in names
      {
        if u in p.tagName {
          assert d.tagName[u] == p.tagName[u];
          if d.tagName[u] == last {
            assert TagsNamed(d.tagName, [last]) == {t};
            assert u in TagsNamed(d.tagName, [last]);
          }
        } else {
          assert u == t;
        }
      }
    }
  }

  /** get_or_create over names that all exist already changes nothing. */
  lemma {:induction false} ResolveExisting(db: Db, names: seq<string>)
    requires Consistent(db) && NamesAccepted(names)
    requires forall n :: n in names ==> n in db.tagName.Values
    ensures ResolveNames(db, names).0 == db
    decreases |names|
  {
    if names != [] {
      var init := names[..|names| - 1];
      assert forall n :: n in init ==> n in names;
      ResolveExisting(db, init);
      GetOrCreateSpec(db, names[|names| - 1]);
    }
  }

  /** task.tags.add(tag). */
  function LinkTag(db: Db, id: TaskId, t: TagId): Db
    requires id in db.tasks
  {
    db.(tasks := db.tasks[id := db.tasks[id].(tags := db.tasks[id].tags + {t})])
  }

  /** task.tags.set(tags): the task's links become exactly `ts`. */
  function ReplaceTags(db: Db, id: TaskId, ts: set<TagId>): Db
    requires id in db.tasks
  {
    db.(tasks := db.tasks[id := db.tasks[id].(tags := ts)])
  }

  /** tag.delete() for every tag in `doomed`: the tag rows go, and with them
      their links from every task. */
  function DeleteTags(db: Db, doomed: set<TagId>): (d: Db)
    ensures d.tasks.Keys == db.tasks.Keys && d.nextTask == db.nextTask
  {
    db.(tagName := db.tagName - doomed,
        tasks := map id | id in db.tasks :: db.tasks[id].(tags := db.tasks[id].tags - doomed))
  }

  /** Deleting tags keeps the database consistent, leaves every task's own
      fields alone, and deletes nothing but the doomed tags. */
  lemma DeleteTagsSpec(db: Db, doomed: set<TagId>)
    requires Consistent(db)
    ensures var d := DeleteTags(db, doomed);
      && Consistent(d)
      && d.tagName.Keys == db.tagName.Keys - doomed
      && (forall u :: u in d.tagName ==> d.tagName[u] == db.tagName[u])
      && (forall j :: j in db.tasks ==>
            (d.tasks[j].tags == db.tasks[j].tags - doomed && d.tasks[j].(tags := db.tasks[j].tags) == db.tasks[j]))
  {
  }

  /** Deleting no tag changes nothing. */
  lemma DeleteNoTags(db: Db)
    ensures DeleteTags(db, {}) == db
  {
    var d := DeleteTags(db, {});
    forall j | j in db.tasks ensures d.tasks[j] == db.tasks[j] {
      assert db.tasks[j].tags - {} == db.tasks[j].tags;
    }
    assert d.tasks == db.tasks;
  }

  /** Deleting tags one at a time adds up to deleting them together. */
  lemma DeleteTagsAgain(db: Db, doomed: set<TagId>, t: TagId)
    ensures DeleteTags(DeleteTags(db, doomed), {t}) == DeleteTags(db, doomed + {t})
  {
    var d1 := DeleteTags(DeleteTags(db, doomed), {t});
    var d2 := DeleteTags(db, doomed + {t});
    assert d1.tagName == d2.tagName;
    forall j | j in d1.tasks ensures d1.tasks[j] == d2.tasks[j] {
      assert db.tasks[j].tags - doomed - {t} == db.tasks[j].tags - (doomed + {t});
    }
    assert d1.tasks == d2.tasks;
  }

  /** Deleting other tags does not change a tag's reference count. */
  lemma DeleteTagsKeepsCount(db: Db, doomed: set<TagId>, t: TagId)
    requires t !in doomed
    ensures Referrers(DeleteTags(db, doomed), t) == Referrers(db, t)
  {
  }

  /** A task linked to none of the deleted tags is left exactly as it was. */
  lemma DeleteTagsSpares(db: Db, doomed: set<TagId>, j: TaskId)
    requires j in db.tasks && db.tasks[j].tags !! doomed
    ensures DeleteTags(db, doomed).tasks[j] == db.tasks[j]
  {
  }

  /** Deleting task rows (Model.delete, QuerySet.delete); their tag links go with them. */
  function RemoveTasks(db: Db, ids: set<TaskId>): Db {
    db.(tasks := db.tasks - ids)
  }

  /** Removing task rows takes exactly those tasks out of every tag's task set. */
  lemma RemoveTasksReferrers(db: Db, ids: set<TaskId>, t: TagId)
    ensures Referrers(RemoveTasks(db, ids), t) == Referrers(db, t) - ids
  {
  }

  /** Task.objects.create: full_clean, then INSERT under the next primary key,
      with no tags yet. Nothing is written when full_clean refuses. */
  function InsertTask(db: Db, t: Task, today: Day): (r: Result<(Db, TaskId), Error>)
    ensures r.Err? <==> FullClean(t, today) != {}
    ensures r.Err? ==> r.error == ModelInvalid(FullClean(t, today))
    ensures r.Ok? ==> var (d, id) := r.value;
      && (Consistent(db) ==> id !in db.tasks) && d.tasks == db.tasks[id := t.(tags := {})] && d.tagName == db.tagName
    ensures r.Ok? && Consistent(db) ==> Consistent(r.value.0)
  {
    var ps := FullClean(t, today);
    if ps != {} then Err(ModelInvalid(ps))
    else
      var id := db.nextTask;
      assert Consistent(db) ==> id !in db.tasks;
      Ok((db.(tasks := db.tasks[id := t.(tags := {})], nextTask := id + 1), id))
  }

  /** instance.save() on an existing row: full_clean, then UPDATE of the task's
      own columns; its tag links are separate rows and stay as stored. */
  function SaveTask(db: Db, id: TaskId, t: Task, today: Day): (r: Result<Db, Error>)
    requires id in db.tasks
    ensures r.Err? <==> FullClean(t, today) != {}
    ensures r.Err? ==> r.error == ModelInvalid(FullClean(t, today))
    ensures r.Ok? ==>
      (r.value.tasks == db.tasks[id := t.(tags := db.tasks[id].tags)] && r.value.tagName == db.tagName)
    ensures r.Ok? && Consistent(db) ==> Consistent(r.value)
  {
    var ps := FullClean(t, today);
    if ps != {} then Err(ModelInvalid(ps))
    else Ok(db.(tasks := db.tasks[id := t.(tags := db.tasks[id].tags)]))
  }

  /** The tags of task `id` that count exactly one task. */
  function SoleTags(db: Db, id: TaskId): set<TagId>
    requires id in db.tasks
  {
    set t | t in db.tasks[id].tags && t in db.tagName && RefCount(db, t) == 1
  }

  /** A linked, existing tag is one of the task's sole tags exactly when its count is one. */
  lemma SoleTagsMember(db: Db, id: TaskId, t: TagId)
    requires id in db.tasks && t in db.tasks[id].tags && t in db.tagName
    ensures t in SoleTags(db, id) <==> RefCount(db, t) == 1
  {
  }

  /** The clean-up rule of TaskViewSet.destroy and TaskAdmin.delete_view: every
      tag of the task counting one task is deleted, then the task. */
  ghost function DeleteTaskWithSoleTags(db: Db, id: TaskId): (r: Result<Db, Error>)
    ensures r.Err? <==> id !in db.tasks
    ensures r.Err? ==> r.error == NotFound
  {
    if id !in db.tasks then Err(NotFound)
    else Ok(RemoveTasks(DeleteTags(db, SoleTags(db, id)), {id}))
  }

  /** After the clean-up delete of task `id`: the task is gone and every other
      task is unchanged; a tag of `id` is deleted exactly when `id` was its only
      task, so a surviving one is still linked to some task; tags that `id` did
      not carry keep their rows and names; the database stays consistent. */
  lemma DeleteTaskWithSoleTagsSpec(db: Db, id: TaskId)
    requires Consistent(db) && id in db.tasks
    ensures var d := DeleteTaskWithSoleTags(db, id).value;
      && Consistent(d)
      && d.tasks.Keys == db.tasks.Keys - {id}
      && (forall j :: j in d.tasks ==> d.tasks[j] == db.tasks[j])
      && (forall t :: t in db.tasks[id].tags ==> (t in d.tagName <==> Referrers(db, t) != {id}))
      && (forall t :: t in db.tasks[id].tags && t in d.tagName ==> Referrers(d, t) != {})
      && (forall t :: t in db.tagName && t !in db.tasks[id].tags ==>
            t in d.tagName && d.tagName[t] == db.tagName[t])
      && (forall t :: t in d.tagName ==> t in db.tagName && d.tagName[t] == db.tagName[t])
  {
    var sole := SoleTags(db, id);
    var mid := DeleteTags(db, sole);
    var d := RemoveTasks(mid, {id});
    DeleteTagsSpec(db, sole);
    assert Consistent(d);
    forall t | t in db.tasks[id].tags
      ensures t in sole <==> Referrers(db, t) == {id}
    {
      SoleReferrer(db, id, t);
    }
    forall j | j in d.tasks ensures d.tasks[j] == db.tasks[j] {
      forall t | t in sole ensures t !in db.tasks[j].tags {
        SoleReferrer(db, id, t);
      }
      DeleteTagsSpares(db, sole, j);
    }
    forall t | t in db.tasks[id].tags && t in d.tagName
      ensures Referrers(d, t) != {}
    {
      SoleReferrer(db, id, t);
      var r := Referrers(db, t);
      assert id in r && r != {id};
      var j :| j in r && j != id;
      assert d.tasks[j] == db.tasks[j];
      assert j in Referrers(d, t);
    }
  }

  /** The database as one mutable object: the rows of both tables and the
      primary-key counters. */
  class Store {
    var tasks: map<TaskId, Task>
    var tagName: map<TagId, string>
    var nextTaskId: nat
    var nextTagId: nat

    function State(): Db
      reads this
    {
      Db(tasks, tagName, nextTaskId, nextTagId)
    }

    ghost predicate Valid()
      reads this
    {
      Consistent(State())
    }

    /** An empty database. */
    constructor ()
      ensures Valid() && State() == Db(map[], map[], 0, 0)
    {
      tasks, tagName := map[], map[];
      nextTaskId, nextTagId := 0, 0;
    }

    /** Task.objects.create(...). */
    method Insert(t: Task, today: Day) returns (r: Result<TaskId, Error>)
      requires Valid()
      modifies this
      ensures Valid()
      ensures var out := InsertTask(old(State()), t, today);
        if out.Ok? then r == Ok(out.value.1) && State() == out.value.0
        else r == Err(out.error) && State() == old(State())
    {
      var ps := FullClean(t, today);
      if ps != {} {
        return Err(ModelInvalid(ps));
      }
      r := Ok(nextTaskId);
      tasks := tasks[nextTaskId := t.(tags := {})];
      nextTaskId := nextTaskId + 1;
    }

    /** instance.save() on a stored task. */
    method Save(id: TaskId, t: Task, today: Day) returns (r: Outcome<Error>)
      requires Valid() && id in tasks
      modifies this
      ensures Valid()
      ensures var out := SaveTask(old(State()), id, t, today);
        if out.Ok? then r == Pass && State() == out.value
        else r == Fail(out.error) && State() == old(State())
    {
      var ps := FullClean(t, today);
      if ps != {} {
        return Fail(ModelInvalid(ps));
      }
      tasks := tasks[id := t.(tags := tasks[id].tags)];
      r := Pass;
    }

    /** Tag.objects.get_or_create(name=name)[0]. */
    method GetOrCreateTag(name: string) returns (t: TagId)
      requires Valid() && TagNameAccepted(name)
      modifies this
      ensures Valid()
      ensures (State(), t) == GetOrCreate(old(State()), name)
    {
      GetOrCreateSpec(State(), name);
      if name in tagName.Values {
        t :| t in tagName && tagName[t] == name;
        FindTagUnique(tagName, name, t);
      } else {
        t := nextTagId;
        tagName := tagName[t := name];
        nextTagId := nextTagId + 1;
      }
    }

    /** task.tags.add(tag). */
    method AddTag(id: TaskId, t: TagId)
      requires Valid() && id in tasks && t in tagName
      modifies this
      ensures Valid()
      ensures State() == LinkTag(old(State()), id, t)
    {
      tasks := tasks[id := tasks[id].(tags := tasks[id].tags + {t})];
      assert FieldsValid(old(tasks)[id]);
    }

    /** task.tags.set(tags). */
    method SetTags(id: TaskId, ts: set<TagId>)
      requires Valid() && id in tasks && ts <= tagName.Keys
      modifies this
      ensures Valid()
      ensures State() == ReplaceTags(old(State()), id, ts)
    {
      tasks := tasks[id := tasks[id].(tags := ts)];
      assert FieldsValid(old(tasks)[id]);
    }

    /** tag.delete(): the tag row and all its links. */
    method DeleteTag(t: TagId)
      requires Valid()
      modifies this
      ensures Valid()
      ensures State() == DeleteTags(old(State()), {t})
    {
      DeleteTagsSpec(State(), {t});
      tagName := tagName - {t};
      tasks := map id | id in tasks :: tasks[id].(tags := tasks[id].tags - {t});
    }

    /** Deleting task rows, with their links. */
    method DeleteTasks(ids: set<TaskId>)
      requires Valid()
      modifies this
      ensures Valid()
      ensures State() == RemoveTasks(old(State()), ids)
    {
      tasks := tasks - ids;
    }
  }

  /** Visiting one more pending tag of the clean-up loop: the tags found so far
      grow by that tag exactly when it is one of the sole tags. */
  lemma FoundStep(sole: set<TagId>, before: set<TagId>, found: set<TagId>, pending: set<TagId>, t: TagId)
    requires t in pending && pending !! before && found == sole - before - pending
    ensures t in sole ==> found + {t} == sole - before - (pending - {t})
    ensures t !in sole ==> found == sole - before - (pending - {t})
  {
  }

  /** The clean-up loop of TaskViewSet.destroy, TaskAdmin.delete_view and
      TaskAdmin.delete_queryset over the tags of task `id`, run after the tags
      in `before` are already gone: every tag whose count is one when it is
      read is deleted, and the counts read are those of `db0`. */
  method DeleteSoleTags(s: Store, id: TaskId, ghost db0: Db, ghost before: set<TagId>)
    requires s.Valid() && Consistent(db0) && id in db0.tasks
    requires s.State() == DeleteTags(db0, before)
    modifies s
    ensures s.Valid()
    ensures s.State() == DeleteTags(db0, before + SoleTags(db0, id))
  {
    var pending := s.tasks[id].tags;
    ghost var sole := SoleTags(db0, id);
    ghost var found: set<TagId> := {};
    assert before + found == before;
    while pending != {}
      invariant pending <= db0.tasks[id].tags && pending !! before
      invariant found == sole - before - pending
      invariant s.State() == DeleteTags(db0, before + found)
      invariant s.Valid()
      decreases pending
    {
      var t :| t in pending;
      ghost var gone := before + found;
      assert t !in gone && t in db0.tagName;
      SoleTagsMember(db0, id, t);
      DeleteTagsKeepsCount(db0, gone, t);
      FoundStep(sole, before, found, pending, t);
      assert t in sole <==> RefCount(s.State(), t) == 1;
      if RefCount(s.State(), t) == 1 {
        DeleteTagsAgain(db0, gone, t);
        s.DeleteTag(t);
        found := found + {t};
        assert gone + {t} == before + found;
      }
      pending := pending - {t};
    }
    assert before + found == before + sole;
  }
}
