/** TaskAdmin of TodoList/App/admin.py: bulk delete from the change list
    (`delete_queryset`) and the single-object delete (`delete_view`), each
    deleting tags that count one task before the tasks go. */
module Admin {
  import opened Wrappers
  import opened Models
  import opened Orm

  /** The tags delete_queryset deletes: linked to some task of the batch and
      counting one task when the counts are read, before any task is deleted. */
  ghost function BulkDoomed(db: Db, batch: set<TaskId>): set<TagId> {
    set t | t in db.tagName && RefCount(db, t) == 1
      && exists j :: j in batch && j in db.tasks && t in db.tasks[j].tags
  }

  /** TaskAdmin.delete_queryset as written: the doomed tags, then every task of
      the batch. */
  ghost function BulkDelete(db: Db, batch: set<TaskId>): Db {
    RemoveTasks(DeleteTags(db, BulkDoomed(db, batch)), batch)
  }

  /** Taking one more task of the batch into account adds exactly its tags that
      count one task. */
  lemma BulkDoomedStep(db: Db, done: set<TaskId>, j: TaskId)
    requires j in db.tasks
    ensures BulkDoomed(db, done + {j}) == BulkDoomed(db, done) + SoleTags(db, j)
  {
  }

  /** What delete_queryset does: every task of the batch is gone and every
      other task is unchanged; a tag linked to a task of the batch is deleted
      exactly when it counted one task; tags linked to no task of the batch
      keep their rows and names; the database stays consistent. */
  lemma BulkDeleteSpec(db: Db, batch: set<TaskId>)
    requires Consistent(db)
    ensures var d := BulkDelete(db, batch);
      && Consistent(d)
      && d.tasks.Keys == db.tasks.Keys - batch
      && (forall j :: j in d.tasks ==> d.tasks[j] == db.tasks[j])
      && (forall j, t :: j in batch && j in db.tasks && t in db.tasks[j].tags ==>
            (t in d.tagName <==> RefCount(db, t) != 1))
      && (forall t :: t in db.tagName && Referrers(db, t) !! batch ==>
            t in d.tagName && d.tagName[t] == db.tagName[t])
      && (forall t :: t in d.tagName ==> t in db.tagName && d.tagName[t] == db.tagName[t])
  {
    var doomed := BulkDoomed(db, batch);
    DeleteTagsSpec(db, doomed);
    forall j | j in db.tasks && j !in batch
      ensures DeleteTags(db, doomed).tasks[j] == db.tasks[j]
    {
      forall t | t in doomed ensures t !in db.tasks[j].tags {
        var k :| k in batch && k in db.tasks && t in db.tasks[k].tags;
        SoleReferrer(db, k, t);
        assert j !in Referrers(db, t);
      }
      DeleteTagsSpares(db, doomed, j);
    }
    forall t | t in db.tagName && Referrers(db, t) !! batch
      ensures t !in doomed
    {
    }
  }

  /** The three copies of the clean-up rule agree: bulk delete of a batch of
      one task is the single delete of destroy and delete_view. */
  lemma BulkDeleteOfOne(db: Db, id: TaskId)
    requires id in db.tasks
    ensures BulkDelete(db, {id}) == DeleteTaskWithSoleTags(db, id).value
  {
    assert BulkDoomed(db, {id}) == SoleTags(db, id);
  }

  /** The counts are read before any task of the batch is deleted, so a tag
      shared by two tasks of the same batch and by nothing else survives with
      no task at all. */
  lemma BulkDeleteOrphansSharedTag()
    ensures var db := Db(map[1 := Task("a", "d", None, Open, {0}), 2 := Task("b", "e", None, Open, {0})],
                         map[0 := "python"], 3, 1);
      var d := BulkDelete(db, {1, 2});
      && d.tasks == map[]
      && 0 in d.tagName && d.tagName[0] == "python"
      && Referrers(d, 0) == {}
  {
    var db := Db(map[1 := Task("a", "d", None, Open, {0}), 2 := Task("b", "e", None, Open, {0})],
                 map[0 := "python"], 3, 1);
    assert Referrers(db, 0) == {1, 2};
    assert RefCount(db, 0) == 2;
    assert BulkDoomed(db, {1, 2}) == {};
    DeleteNoTags(db);
  }

  /** The tags a bulk delete leaves with no task: those whose every task is in
      the batch. */
  ghost function Collectable(db: Db, batch: set<TaskId>): set<TagId> {
    set t | t in db.tagName && Referrers(db, t) != {} && Referrers(db, t) <= batch
  }

  /** Bulk delete that keeps the clean-up rule's intent for batches: a tag is
      deleted when all of its tasks are in the batch. */
  ghost function CollectedBulkDelete(db: Db, batch: set<TaskId>): Db {
    RemoveTasks(DeleteTags(db, Collectable(db, batch)), batch)
  }

  /** The corrected bulk delete keeps the database consistent, removes the
      batch, leaves every other task as it was, and keeps the tags the batch
      does not use. */
  lemma CollectedBulkDeleteTasks(db: Db, batch: set<TaskId>)
    requires Consistent(db)
    ensures var d := CollectedBulkDelete(db, batch);
      && Consistent(d)
      && d.tasks.Keys == db.tasks.Keys - batch
      && (forall j :: j in d.tasks ==> d.tasks[j] == db.tasks[j])
      && (forall t :: t in db.tagName && Referrers(db, t) !! batch ==>
            t in d.tagName && d.tagName[t] == db.tagName[t])
  {
    var doomed := Collectable(db, batch);
    var mid := DeleteTags(db, doomed);
    DeleteTagsSpec(db, doomed);
    forall j | j in db.tasks && j !in batch
      ensures mid.tasks[j] == db.tasks[j]
    {
      forall t | t in doomed ensures t !in db.tasks[j].tags {
        assert j !in Referrers(db, t);
      }
      DeleteTagsSpares(db, doomed, j);
    }
  }

  /** Under the corrected bulk delete, a tag of a task in the batch survives
      exactly when a task outside the batch still uses it, and then it keeps
      exactly those tasks. */
  lemma CollectedBulkDeleteTag(db: Db, batch: set<TaskId>, j: TaskId, t: TagId)
    requires Consistent(db) && j in batch && j in db.tasks && t in db.tasks[j].tags
    ensures var d := CollectedBulkDelete(db, batch);
      && (t in d.tagName <==> Referrers(d, t) != {})
      && (t in d.tagName ==> Referrers(d, t) == Referrers(db, t) - batch)
  {
    var doomed := Collectable(db, batch);
    var mid := DeleteTags(db, doomed);
    var d := RemoveTasks(mid, batch);
    assert j in Referrers(db, t);
    if t in d.tagName {
      DeleteTagsKeepsCount(db, doomed, t);
      RemoveTasksReferrers(mid, batch, t);
      assert !(Referrers(db, t) <= batch);
      var k :| k in Referrers(db, t) && k !in batch;
      assert k in Referrers(d, t);
    } else {
      assert Referrers(db, t) <= batch;
      forall k | k in d.tasks ensures t !in d.tasks[k].tags {
        assert k !in batch;
      }
      assert Referrers(d, t) == {};
    }
  }

  /** The corrected bulk delete leaves no tag of the batch without a task: a
      tag linked to a task of the batch survives exactly when a task outside the
      batch still uses it, and then keeps exactly those tasks; tags the batch
      does not use keep their rows; other tasks are unchanged; it deletes at
      least the tags the code as written deletes. */
  lemma CollectedBulkDeleteSpec(db: Db, batch: set<TaskId>)
    requires Consistent(db)
    ensures var d := CollectedBulkDelete(db, batch);
      && Consistent(d)
      && d.tasks.Keys == db.tasks.Keys - batch
      && (forall j :: j in d.tasks ==> d.tasks[j] == db.tasks[j])
      && (forall j, t :: j in batch && j in db.tasks && t in db.tasks[j].tags ==>
            (t in d.tagName <==> Referrers(d, t) != {})
            && (t in d.tagName ==> Referrers(d, t) == Referrers(db, t) - batch))
      && (forall t :: t in db.tagName && Referrers(db, t) !! batch ==>
            t in d.tagName && d.tagName[t] == db.tagName[t])
      && BulkDoomed(db, batch) <= Collectable(db, batch)
  {
    CollectedBulkDeleteTasks(db, batch);
    forall j, t | j in batch && j in db.tasks && t in db.tasks[j].tags
      ensures var d := CollectedBulkDelete(db, batch);
        && (t in d.tagName <==> Referrers(d, t) != {})
        && (t in d.tagName ==> Referrers(d, t) == Referrers(db, t) - batch)
    {
      CollectedBulkDeleteTag(db, batch, j, t);
    }
    forall t | t in BulkDoomed(db, batch) ensures t in Collectable(db, batch) {
      var k :| k in batch && k in db.tasks && t in db.tasks[k].tags;
      SoleReferrer(db, k, t);
    }
  }

  /** TaskAdmin.delete_queryset: for each task of the queryset, the loop over
      its tags deleting each that counts one task; then the framework's
      bulk delete of the queryset. */
  method DeleteQueryset(s: Store, batch: set<TaskId>)
    requires s.Valid()
    modifies s
    ensures s.Valid()
    ensures s.State() == BulkDelete(old(s.State()), batch)
  {
    ghost var db0 := s.State();
    var todo := set j | j in s.tasks && j in batch;
    ghost var done: set<TaskId> := {};
    DeleteNoTags(db0);
    assert BulkDoomed(db0, {}) == {};
    while todo != {}
      invariant todo + done == batch * db0.tasks.Keys && todo !! done
      invariant s.State() == DeleteTags(db0, BulkDoomed(db0, done))
      invariant s.Valid()
      decreases todo
    {
      var j :| j in todo;
      DeleteSoleTags(s, j, db0, BulkDoomed(db0, done));
      BulkDoomedStep(db0, done, j);
      todo := todo - {j};
      done := done + {j};
    }
    assert BulkDoomed(db0, done) == BulkDoomed(db0, batch);
    s.DeleteTasks(batch);
  }

  /** TaskAdmin.delete_view as written, for either request. An unknown key
      makes Task.objects.get raise Task.DoesNotExist, which nothing catches, so
      Django answers with a server error; `NotFound` stands for that refusal.
      Otherwise the clean-up of the task's tags runs first, on the GET that only renders the
      confirmation page as well as on the confirming POST; only the POST then
      deletes the task. */
  ghost function DeleteViewSpec(db: Db, id: TaskId, confirmed: bool): (r: Result<Db, Error>)
    ensures r.Err? <==> id !in db.tasks
    ensures r.Err? ==> r.error == NotFound
    ensures confirmed ==> r == DeleteTaskWithSoleTags(db, id)
  {
    if id !in db.tasks then Err(NotFound)
    else
      var cleaned := DeleteTags(db, SoleTags(db, id));
      Ok(if confirmed then RemoveTasks(cleaned, {id}) else cleaned)
  }

  /** Opening the confirmation page and then cancelling still costs the task
      its tags: a task with the tag "python" that only it uses keeps its row
      but loses the tag, which is deleted. */
  lemma ConfirmationPageDeletesTags()
    ensures var db := Db(map[1 := Task("a", "d", None, Open, {0})], map[0 := "python"], 2, 1);
      var r := DeleteViewSpec(db, 1, false);
      && r.Ok? && 1 in r.value.tasks
      && r.value.tasks[1].tags == {} && r.value.tagName == map[]
  {
    var db := Db(map[1 := Task("a", "d", None, Open, {0})], map[0 := "python"], 2, 1);
    assert Referrers(db, 0) == {1};
    assert SoleTags(db, 1) == {0};
  }

  /** delete_view with the clean-up moved behind the confirmation: the page
      itself writes nothing, and the confirming POST is the clean-up delete. */
  ghost function ConfirmedDeleteView(db: Db, id: TaskId, confirmed: bool): Result<Db, Error> {
    if id !in db.tasks then Err(NotFound)
    else if confirmed then DeleteTaskWithSoleTags(db, id)
    else Ok(db)
  }

  /** The corrected delete_view leaves the database as it was until the
      deletion is confirmed; once confirmed, the task is gone, a tag of it is
      deleted exactly when it was the tag's only task, other tasks and tags are
      untouched, and the database stays consistent. It differs from the code
      as written only on the confirmation page. */
  lemma ConfirmedDeleteViewSpec(db: Db, id: TaskId, confirmed: bool)
    requires Consistent(db)
    ensures var r := ConfirmedDeleteView(db, id, confirmed);
      && (r.Err? <==> id !in db.tasks)
      && (r.Ok? && !confirmed ==> r.value == db)
      && (r.Ok? && confirmed ==>
            var d := r.value;
            && Consistent(d)
            && d.tasks.Keys == db.tasks.Keys - {id}
            && (forall j :: j in d.tasks ==> d.tasks[j] == db.tasks[j])
            && (forall t :: t in db.tasks[id].tags ==> (t in d.tagName <==> Referrers(db, t) != {id}))
            && (forall t :: t in db.tagName && t !in db.tasks[id].tags ==>
                  t in d.tagName && d.tagName[t] == db.tagName[t]))
      && (confirmed ==> r == DeleteViewSpec(db, id, confirmed))
  {
    if id in db.tasks && confirmed {
      DeleteTaskWithSoleTagsSpec(db, id);
    }
  }

  /** TaskAdmin.delete_view on the confirming request: Task.objects.get
      (`NotFound` when the key is unknown; the uncaught Task.DoesNotExist
      becomes a server error, not a not-found answer), the loop over the task's tags
      deleting each that counts one task, then the framework's delete of the
      object. */
  method DeleteView(s: Store, id: TaskId) returns (r: Outcome<Error>)
    requires s.Valid()
    modifies s
    ensures s.Valid()
    ensures var out := DeleteTaskWithSoleTags(old(s.State()), id);
      if out.Ok? then r == Pass && s.State() == out.value
      else r == Fail(out.error) && s.State() == old(s.State())
  {
    if id !in s.tasks {
      return Fail(NotFound);
    }
    ghost var db0 := s.State();
    DeleteNoTags(db0);
    DeleteSoleTags(s, id, db0, {});
    assert {} + SoleTags(db0, id) == SoleTags(db0, id);
    s.DeleteTasks({id});
    return Pass;
  }
}
