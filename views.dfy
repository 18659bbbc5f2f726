/** TaskViewSet of TodoList/App/views.py: `destroy` deletes the tags that only
    the task uses, reading each count while the task still exists, then hands
    over to the framework, which deletes the task. */
module Views {
  import opened Wrappers
  import opened Models
  import opened Orm

  /** TaskViewSet.destroy: get_object (NotFound when the key is unknown), the
      loop over the task's tags deleting each that counts one task, then the
      delete of the task itself. */
  method Destroy(s: Store, id: TaskId) returns (r: Outcome<Error>)
    requires s.Valid()
    modifies s
    ensures s.Valid()
    ensures var out := DeleteTaskWithSoleTags(old(s.State()), id);
      if out.Ok? then r == Pass && s.State() == out.value
      else r == Fail(out.error) && s.State() == old(s.State())
  {
    if id !in s.tasks {
      return Fail(NotFound);
    }
    ghost var db0 := s.State();
    DeleteNoTags(db0);
    DeleteSoleTags(s, id, db0, {});
    assert {} + SoleTags(db0, id) == SoleTags(db0, id);
    s.DeleteTasks({id});
    return Pass;
  }
}
