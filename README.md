# TodoList core in Dafny

A model of the Django TodoList app's task and tag handling.

- **Tasks.** A task has a title, a description, an optional due date, one of six statuses and a set of tags.
- **Tags.** A tag is a unique name. Tags are created on first use by name. When a task is deleted, or drops a tag on update, each of its tags whose count of tasks is one at that moment is deleted.

The model covers four areas:

- **`Task` and `Tag` models.** The status choices and column limits. The validation that `Task.save` runs through `full_clean`, including `clean`'s rule that an OPEN task may not be past due. The string forms.
- **`TaskSerializer`.** The status rule of `validate` (a past due date forces OVERDUE unless the request says COMPLETED). `create` forces OPEN, refuses a past due date, then uses get-or-create and links each tag name. `update` refuses an explicit OVERDUE, applies the given columns, cleans up dropped tags, relinks and saves. `to_representation` renders tags as names.
- **`TaskViewSet.destroy`.** Deletes every tag that only this task uses, then the task.
- **`TaskAdmin`.** The same clean-up for the single-object `delete_view` and for the change list's bulk `delete_queryset`.

How the model is organised:

- **The database is a value.** `Orm.Db` holds the task table with its tag links, the tag table and the primary-key counters.
- **Each ORM operation is a function on that value.** `Orm.Consistent` states what every write keeps true: links only to existing tags, unique tag names, and stored tasks that pass the field checks.
- **The request handlers are imperative.** The same state is held by the mutable `Orm.Store`. The serializer, view and admin methods run their loops over it, and each is proved equal to a specification function over `Db`. The properties the code promises are lemmas about those specification functions.
- **Inputs are modelled explicitly.**
  - Dates are day numbers.
  - The current date is a `today` parameter.
  - A request's `attrs` is an `Attrs` value whose keys may each be absent (`Field`).

Two consequences of the code that the model keeps as written:

- `update` has no transaction, so its tag writes stay when `save` refuses (see Findings).
- A tag is deleted when its count is one at the moment it is read, so a bulk delete can leave a tag with no task (see Findings).

## Model

| member | source | states |
|---|---|---|
| Models.StatusCode | TodoList/App/models.py:8-14 | each status choice is stored as one of the six codes, non-empty and within the 16-character column |
| Models.ParseStatus | TodoList/App/models.py:20-26 | a text is a valid `status` value exactly when it is one of the six codes, and then it reads back as the choice that stores it |
| Models.StatusCodeRoundTrip | TodoList/App/models.py:8-14 | storing a choice and reading it back gives the same choice |
| Models.FieldProblems | TodoList/App/models.py:16-17 | the field checks find nothing exactly when the title is non-blank and at most 100 characters and the description is non-blank; the description's 1000 is a TextField max_length, which full_clean does not check |
| Models.Clean | TodoList/App/models.py:32-43 | clean can only report a past due date |
| Models.FullClean | TodoList/App/models.py:45-47 | save's full_clean refuses exactly when the title is blank or over 100 characters, the description is blank, or the task is OPEN with a due date before today; each problem is reported exactly when its condition holds |
| Models.NonOpenPassesClean | TodoList/App/models.py:36-40 | a task that is not OPEN always passes clean |
| Models.TaskStrParts | TodoList/App/models.py:49-50 | a task's string starts with its title, then " : ", then a code that reads back as its status |
| Orm.SoleReferrer | TodoList/App/views.py:27 | for a tag of a task, a count of one means that task is its only task |
| Orm.TagStrIdentifies | TodoList/App/models.py:56-57 | a stored tag's string is its name, non-blank and within 30 characters, and two stored tags print alike only when they are the same tag |
| Orm.FindTag | TodoList/App/models.py:54 | looking a tag up by name finds a tag with that name, and finds none only when no tag has it |
| Orm.FindTagUnique | TodoList/App/models.py:54 | with unique names, the lookup finds the one tag carrying the name |
| Orm.GetOrCreate | TodoList/App/serializers.py:48 | get_or_create returns a tag with the requested name and touches no task |
| Orm.GetOrCreateSpec | TodoList/App/serializers.py:48 | get_or_create keeps the database consistent and existing tags as they are; it changes nothing for a known name and inserts exactly one fresh tag for an unknown one |
| Orm.ResolveNames | TodoList/App/serializers.py:70-72 | resolving a list of names touches no task and returns tags that exist |
| Orm.ResolveNamesSpec | TodoList/App/serializers.py:70-72 | resolving accepted names keeps consistency and every existing tag; every name ends with a tag; new tags only carry listed names that had none; the result is exactly the tags with the listed names |
| Orm.ResolveExisting | TodoList/App/serializers.py:70-72 | resolving names that all exist changes nothing |
| Orm.DeleteTags | TodoList/App/serializers.py:67 | deleting tags keeps every task and the task counter |
| Orm.DeleteTagsSpec | TodoList/App/admin.py:38 | deleting tags keeps consistency, removes exactly those tag rows and their links, and changes nothing else |
| Orm.DeleteNoTags | TodoList/App/views.py:26-28 | a clean-up loop that deletes nothing leaves the database as it was |
| Orm.DeleteTagsAgain | TodoList/App/views.py:26-28 | deleting tags one by one in the loop adds up to deleting them together |
| Orm.DeleteTagsKeepsCount | TodoList/App/views.py:27 | a count read after other tags were deleted equals the count before the loop |
| Orm.DeleteTagsSpares | TodoList/App/admin.py:38 | a task linked to none of the deleted tags is unchanged |
| Orm.RemoveTasksReferrers | TodoList/App/admin.py:40 | deleting task rows removes exactly those tasks from every tag's task set |
| Orm.InsertTask | TodoList/App/serializers.py:45 | create fails exactly when full_clean reports problems, with those problems; otherwise it adds one new task without tags under a fresh key, keeps the tag table and keeps consistency |
| Orm.SaveTask | TodoList/App/serializers.py:75 | save fails exactly when full_clean reports problems; otherwise it overwrites the task's columns, keeps its stored tag links, and keeps consistency |
| Orm.DeleteTaskWithSoleTags | TodoList/App/views.py:23-29 | the clean-up delete fails with NotFound exactly when the task does not exist |
| Orm.DeleteTaskWithSoleTagsSpec | TodoList/App/views.py:23-29 | after the clean-up delete the task is gone and other tasks are unchanged; a tag of the task is deleted exactly when the task was its only task; survivors still have a task; other tags keep their rows; every surviving tag keeps its name; the database stays consistent |
| Orm.SoleTagsMember | TodoList/App/views.py:26-28 | a linked tag is among those the clean-up deletes exactly when its count is one |
| Orm.DeleteSoleTags | TodoList/App/views.py:25-28 | the clean-up loop, shared with TodoList/App/admin.py:33-38 and 43-46, deletes exactly the task's tags whose count was one before the loop, on top of tags already deleted, and keeps the store consistent |
| Orm.Store.Insert | TodoList/App/serializers.py:45 | the insert method performs InsertTask on the store and keeps it consistent |
| Orm.Store.Save | TodoList/App/serializers.py:75 | the save method performs SaveTask on the store and keeps it consistent |
| Orm.Store.GetOrCreateTag | TodoList/App/serializers.py:48 | the method performs GetOrCreate on the store and keeps it consistent |
| Orm.Store.AddTag | TodoList/App/serializers.py:49 | links one existing tag to the task and keeps the store consistent |
| Orm.Store.SetTags | TodoList/App/serializers.py:73 | the task's links become exactly the given existing tags; the store stays consistent |
| Orm.Store.DeleteTag | TodoList/App/serializers.py:67 | removes the tag row and all its links; the store stays consistent |
| Orm.Store.DeleteTasks | TodoList/App/admin.py:40 | removes the task rows and their links; the store stays consistent |
| Serializers.Validate | TodoList/App/serializers.py:22-34 | validate changes only the status; a past due date forces OVERDUE unless the request says COMPLETED, and a COMPLETED request comes back unchanged; any change it makes is to OVERDUE because of a past due date |
| Serializers.ValidateIdempotent | TodoList/App/serializers.py:22-34 | validating twice gives the same attrs as validating once |
| Serializers.ValidatedPastDueNeverOpen | TodoList/App/serializers.py:26-32 | after validate, a request with a past due date has a status that is set and is not OPEN, so it passes clean |
| Serializers.Instantiate | TodoList/App/serializers.py:45 | building a task from validated data defaults the status to OPEN and starts without tags |
| Serializers.Assign | TodoList/App/serializers.py:61-62 | the setattr loop keeps the tag links and changes nothing when no column is given |
| Serializers.CreateSpecProps | TodoList/App/serializers.py:36-51 | create fails exactly for a past due date (PastDueOnCreate, nothing written) or invalid fields; on success the new task is OPEN, carries the requested columns and exactly the named tags, all names resolve, existing tags are reused unchanged, other tasks are untouched and consistency holds |
| Serializers.GetOrCreateThenLink | TodoList/App/serializers.py:48-49 | one step of create's loop returns the tag that get_or_create finds from the tag table alone, and adds it to the task's links |
| Serializers.CreateSucceeds | TodoList/App/serializers.py:36-51 | when the date and fields pass, create succeeds with a fresh key, the OPEN task with the named tags, every name resolved, existing tags unchanged, new tags only for names that had none, other tasks untouched and consistency kept |
| Serializers.LinkNames | TodoList/App/serializers.py:47-49 | create's loop leaves the store as resolving all names and adding the resulting tags to the task's links |
| Serializers.Create | TodoList/App/serializers.py:36-51 | the create method (past-due check, insert, tag loop) performs CreateSpec on the store |
| Serializers.Relink | TodoList/App/serializers.py:64-73 | the tag half of update keeps the set of tasks |
| Serializers.DroppedSpec | TodoList/App/serializers.py:65-66 | a tag is dropped exactly when this task carries it, the new list does not name it and this task is its only task; no other task carries a dropped tag |
| Serializers.CleanedSpec | TodoList/App/serializers.py:64-67 | the clean-up loop of update keeps consistency, changes only this task's links and removes exactly the dropped tags |
| Serializers.RelinkTasks | TodoList/App/serializers.py:64-73 | after the tag half of update the task's tags are exactly the tags named in the list; no other task and none of its columns change; consistency holds |
| Serializers.RelinkTagTable | TodoList/App/serializers.py:64-73 | after the tag half of update every listed name has a tag; an unlisted tag of the task is deleted exactly when the task was its only task; other tags keep rows and names; new tags only carry listed names |
| Serializers.UpdateSpecProps | TodoList/App/serializers.py:53-76 | an explicit OVERDUE is refused with nothing written; otherwise update succeeds exactly when the applied task passes full_clean, storing the requested columns (never OPEN and past due); on failure the task's columns are unchanged but tag writes remain; without a tags key the tags are untouched |
| Serializers.ValidateThenUpdate | TodoList/App/serializers.py:22-56 | an update with a past due date is refused as OVERDUE with nothing written unless it says COMPLETED, and with COMPLETED it is never refused for that reason |
| Serializers.RefusedUpdateKeepsTagWrites | TodoList/App/serializers.py:64-75 | when save refuses, a dropped tag that only this task used is still deleted, every listed name has a tag, the task is linked to exactly the listed tags, and only its columns are unchanged |
| Serializers.UpdateFailureKeepsTagWrites | TodoList/App/serializers.py:64-75 | a concrete update whose save is refused has still deleted the dropped tag and created and linked the new one |
| Serializers.AtomicUpdateSpecProps | TodoList/App/serializers.py:53-76 | a transactional update answers every request as update does, writes nothing when it refuses, and otherwise writes what update writes |
| Serializers.DeleteDropped | TodoList/App/serializers.py:64-67 | update's clean-up loop deletes exactly the tags that Dropped selects (dropped by the request and used by this task alone), and changes nothing else |
| Serializers.RelinkTags | TodoList/App/serializers.py:64-73 | the deletion loop, the get_or_create loop and tags.set perform Relink on the store |
| Serializers.Update | TodoList/App/serializers.py:53-76 | the update method performs UpdateSpec on the store, including its result |
| Serializers.NamesOfTagsAdd | TodoList/App/serializers.py:82 | with unique names, naming one more tag adds exactly its name, which is new |
| Serializers.ListNames | TodoList/App/serializers.py:82 | the comprehension gives one name per tag, no name twice, and nothing else |
| Serializers.ToRepresentation | TodoList/App/serializers.py:78-84 | the rendering carries the task's columns, a status code that reads back as its status, and one distinct name per linked tag and nothing else |
| Serializers.RepresentationRoundTrip | TodoList/App/serializers.py:78-84 | sending back the rendered tag names resolves to exactly the task's tags without creating any, and an update with them relinks nothing |
| Views.Destroy | TodoList/App/views.py:23-29 | destroy fails with NotFound for an unknown task and otherwise performs the clean-up delete on the store |
| Admin.BulkDoomedStep | TodoList/App/admin.py:31-38 | each task of the queryset adds exactly its tags of count one to the deleted tags |
| Admin.BulkDeleteSpec | TodoList/App/admin.py:30-40 | bulk delete removes the batch and leaves other tasks unchanged; a tag of a batch task is deleted exactly when its count was one; tags used by no batch task keep their rows; every surviving tag keeps its name; consistency holds |
| Admin.BulkDeleteOfOne | TodoList/App/admin.py:30-47 | bulk delete of a single task is the same as destroy's and delete_view's clean-up delete |
| Admin.BulkDeleteOrphansSharedTag | TodoList/App/admin.py:31-40 | a tag shared only by two tasks that are bulk-deleted together survives with no task |
| Admin.CollectedBulkDeleteTasks | TodoList/App/admin.py:30-40 | the corrected bulk delete keeps consistency, removes exactly the batch's tasks, leaves the other tasks unchanged and keeps every tag no task of the batch used |
| Admin.CollectedBulkDeleteTag | TodoList/App/admin.py:30-40 | after the corrected bulk delete, a tag of a deleted task survives exactly when some task still uses it, and a survivor's tasks are its former tasks outside the batch |
| Admin.CollectedBulkDeleteSpec | TodoList/App/admin.py:30-40 | the corrected bulk delete leaves no tag of the batch without a task: such a tag survives exactly when a task outside the batch uses it; it deletes at least the tags the code deletes |
| Admin.DeleteQueryset | TodoList/App/admin.py:30-40 | the nested loops and the queryset delete perform BulkDelete on the store |
| Admin.DeleteViewSpec | TodoList/App/admin.py:42-47 | delete_view fails with NotFound exactly for an unknown task; on the confirming request it is the clean-up delete |
| Admin.ConfirmationPageDeletesTags | TodoList/App/admin.py:42-47 | merely opening the confirmation page of a task deletes its tags that only it uses |
| Admin.ConfirmedDeleteViewSpec | TodoList/App/admin.py:42-47 | the corrected delete_view writes nothing until confirmed, and once confirmed performs the clean-up delete with all its guarantees |
| Admin.DeleteView | TodoList/App/admin.py:42-47 | delete_view on the confirming request fails with NotFound for an unknown task and otherwise performs the clean-up delete on the store |

## Left out

- HTTP routing, authentication, status codes, JSON parsing, pagination and search: plumbing of the framework, with no task or tag logic.
- DRF's defaults and partial updates: a key the request does not carry is `Absent`, and one it carries is `Given`. Whether a full update without `tags` arrives as an empty list is decided by the framework. The same goes for trimming whitespace in tag names and text fields.
- Orm.Store.GetOrCreateTag, Serializers.Create, Serializers.Update, Serializers.RelinkTags: tag names are required to be non-blank and at most 30 characters, not checked. The serializer's tags field refuses other names before `create` or `update` runs.
- Serializers.Create, Serializers.Update: a given description is required to be at most 1000 characters, not checked. The serializer's description field takes that limit from the TextField and refuses longer text before `create` or `update` runs. `Task.objects.create` and `save` themselves accept it, and `Models.FullClean` does not report it.
- Serializers.Update: requires a stored instance. The view looks the task up first and answers NotFound itself, as `Views.Destroy` shows.
- The `timestamp` column: it is set once by the database and read by nothing in the core.
- `now()`: it is a parameter `today`, a day number; time zones are not modelled.
- Database mechanics: unique-name enforcement by the database, concurrent writers and cascade internals. The tables are in-memory maps, and the uniqueness of names is an invariant.
- The order of tag names in the rendering: the database returns them in an unspecified order. The model states which names appear and that each appears once.
- The change-list configuration of the admin and the Tag admin: display settings only.
- Admin.DeleteView, Admin.DeleteViewSpec: an unknown key makes `Task.objects.get` raise `Task.DoesNotExist`, which Django answers as a server error. The model answers `NotFound` and does not model the error page.
- Admin.DeleteView: models the confirming request. The behaviour on the confirmation page is specified separately by `Admin.DeleteViewSpec`.

## Findings

| source | as written | input that shows it | evidently intended | confidence | as-written member | corrected member |
|---|---|---|---|---|---|---|
| TodoList/App/admin.py:31-40 | tag counts are read while every task of the batch still exists, so a tag is deleted only if exactly one task uses it | two tasks, both tagged "python" and no other task with it, deleted together from the change list: "python" survives with no task | delete every tag that no task uses once the batch is gone | not executed | Admin.BulkDeleteOrphansSharedTag | Admin.CollectedBulkDeleteSpec |
| TodoList/App/admin.py:42-47 | the tag clean-up runs before the framework's delete_view, which also serves the GET that only shows the confirmation page | opening the delete page of a task tagged "python" (only it uses "python") and cancelling: "python" is gone and the task kept | clean up tags only when the deletion is confirmed | not executed | Admin.ConfirmationPageDeletesTags | Admin.ConfirmedDeleteViewSpec |
| TodoList/App/serializers.py:64-75 | dropped tags are deleted, and new ones created and linked, before `instance.save()`; with no transaction these writes stay when save refuses | a WORKING task due on day 5 with tag "python", updated on day 10 to OPEN with tags ["django"]: refused, yet "python" is deleted and "django" linked | a refused update writes nothing | not executed | Serializers.UpdateFailureKeepsTagWrites | Serializers.AtomicUpdateSpecProps |
