/** The Task and Tag entities of TodoList/App/models.py: the status choices,
    the column limits, the validation that Task.save runs before every write,
    and the string forms. Dates are day numbers and "today" is always a
    parameter. */
module Models {
  import opened Wrappers

  /** A calendar date as a day number. */
  type Day = int
  type TaskId = nat
  type TagId = nat

  const TitleMaxLength: nat := 100
  const DescriptionMaxLength: nat := 1000
  const StatusMaxLength: nat := 16
  const TagNameMaxLength: nat := 30

  /** Task.StatusChoices. */
  datatype Status = Open | Working | PendingReview | Completed | Overdue | Cancelled

  /** The value stored in the `status` column for each choice. */
  function StatusCode(s: Status): (code: string)
    ensures 0 < |code| <= StatusMaxLength
    ensures code in StatusCodes
  {
    match s
    case Open => "OPEN"
    case Working => "WORKING"
    case PendingReview => "PENDING_REVIEW"
    case Completed => "COMPLETED"
    case Overdue => "OVERDUE"
    case Cancelled => "CANCELLED"
  }

  /** The six values the `status` column accepts. */
  const StatusCodes: set<string> :=
    {"OPEN", "WORKING", "PENDING_REVIEW", "COMPLETED", "OVERDUE", "CANCELLED"}

  /** Reading a `status` column back into a choice; any other text is not a choice. */
  function ParseStatus(code: string): (r: Option<Status>)
    ensures r.Some? <==> code in StatusCodes
    ensures r.Some? ==> StatusCode(r.value) == code
  {
    if code == "OPEN" then Some(Open)
    else if code == "WORKING" then Some(Working)
    else if code == "PENDING_REVIEW" then Some(PendingReview)
    else if code == "COMPLETED" then Some(Completed)
    else if code == "OVERDUE" then Some(Overdue)
    else if code == "CANCELLED" then Some(Cancelled)
    else None
  }

  /** Every choice is stored as a distinct code that reads back as itself. */
  lemma StatusCodeRoundTrip(s: Status)
    ensures ParseStatus(StatusCode(s)) == Some(s)
  {
  }

  /** A task row together with its many-to-many tag links. */
  datatype Task = Task(
    title: string,
    description: string,
    dueDate: Option<Day>,
    status: Status,
    tags: set<TagId>)

  /** The reasons full_clean can give for refusing a task. */
  datatype Problem = BlankTitle | TitleTooLong | BlankDescription | DueDateInPast

  /** The errors the core raises. */
  datatype Error =
    | ModelInvalid(problems: set<Problem>)  // ValidationError from full_clean in Task.save
    | PastDueOnCreate                        // the serializer's create refuses a past due date
    | OverdueRequested                       // the serializer's update refuses an explicit OVERDUE
    | NotFound                               // no task with that primary key (a 404 from get_object; a server error from Task.objects.get)

  /** `due_date and due_date < now().date()`: a date strictly before today; an absent date never is. */
  predicate IsPastDue(due: Option<Day>, today: Day) {
    due.Some? && due.value < today
  }

  /** The title is neither blank nor longer than its column, and the
      description is not blank. The description's max_length belongs to a
      TextField, which full_clean does not check. */
  predicate FieldsValid(t: Task) {
    0 < |t.title| <= TitleMaxLength && 0 < |t.description|
  }

  /** The per-field checks full_clean runs: blank=False on both text columns,
      max_length on the title, which is a CharField. */
  function FieldProblems(t: Task): (ps: set<Problem>)
    ensures ps == {} <==> FieldsValid(t)
    ensures DueDateInPast !in ps
  {
    (if |t.title| == 0 then {BlankTitle} else {})
    + (if |t.title| > TitleMaxLength then {TitleTooLong} else {})
    + (if |t.description| == 0 then {BlankDescription} else {})
  }

  /** Task.clean: an OPEN task may not have a due date before today. */
  function Clean(t: Task, today: Day): (ps: set<Problem>)
    ensures ps <= {DueDateInPast}
  {
    if IsPastDue(t.dueDate, today) && t.status == Open then {DueDateInPast} else {}
  }

  /** Task.full_clean, run by Task.save: field checks, then clean. */
  function FullClean(t: Task, today: Day): (ps: set<Problem>)
    ensures ps == {} <==> FieldsValid(t) && !(IsPastDue(t.dueDate, today) && t.status == Open)
    ensures DueDateInPast in ps <==> IsPastDue(t.dueDate, today) && t.status == Open
    ensures (BlankTitle in ps <==> |t.title| == 0) && (TitleTooLong in ps <==> |t.title| > TitleMaxLength)
    ensures BlankDescription in ps <==> |t.description| == 0
  {
    FieldProblems(t) + Clean(t, today)
  }

  /** A status other than OPEN never fails clean, whatever the due date. */
  lemma NonOpenPassesClean(t: Task, today: Day)
    requires t.status != Open
    ensures Clean(t, today) == {}
  {
  }

  /** Task.__str__: "<title> : <status>". */
  function TaskStr(t: Task): string {
    t.title + " : " + StatusCode(t.status)
  }

  /** Tag.__str__: the name itself. */
  function TagStr(name: string): string {
    name
  }

  /** The string form of a task starts with its title and ends with its status
      code, which reads back as the task's status. */
  lemma TaskStrParts(t: Task)
    ensures TaskStr(t)[..|t.title|] == t.title
    ensures TaskStr(t)[|t.title|..|t.title| + 3] == " : "
    ensures ParseStatus(TaskStr(t)[|t.title| + 3..]) == Some(t.status)
  {
  }
}
