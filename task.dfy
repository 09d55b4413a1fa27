/** The task entity's runtime behaviour: the `TaskTitle` value object and the
    type guards for the status and priority enumerations
    (src/domain/entities/task.ts). */
module Task {
  import opened Common
  import opened Text

  /** `enum TaskStatus`, a string enumeration. */
  datatype TaskStatus = Pending | InProgress | Completed | Cancelled {
    /** The string each member stands for at run time. */
    function Value(): string {
      match this
      case Pending => "pending"
      case InProgress => "in_progress"
      case Completed => "completed"
      case Cancelled => "cancelled"
    }
  }

  /** `Object.values(TaskStatus)`, in declaration order. */
  const TaskStatusValues: seq<string> :=
    [Pending.Value(), InProgress.Value(), Completed.Value(), Cancelled.Value()]

  /** `enum TaskPriority`, a numeric enumeration. */
  datatype TaskPriority = Low | Medium | High | Critical {
    function Value(): int {
      match this
      case Low => 1
      case Medium => 2
      case High => 3
      case Critical => 4
    }
  }

  /** The numeric values among `Object.values(TaskPriority)`, in declaration order.
      The reverse-mapping names the compiler adds ("LOW", ...) are strings and
      never strictly equal a number, so they are left out. */
  const TaskPriorityValues: seq<int> := [Low.Value(), Medium.Value(), High.Value(), Critical.Value()]

  /** `isValidTaskStatus`: `Object.values(TaskStatus).includes(status)`. The
      result holds exactly for the four declared strings. */
  function IsValidTaskStatus(status: string): (r: bool)
    ensures r <==> status in {"pending", "in_progress", "completed", "cancelled"}
    ensures r <==> exists st: TaskStatus :: st.Value() == status
  {
    status in TaskStatusValues
  }

  /** The narrowing the guard performs (`status is TaskStatus`): the member a
      string stands for, if any. */
  function AsTaskStatus(status: string): (r: Option<TaskStatus>)
    ensures r.Some? <==> IsValidTaskStatus(status)
    ensures r.Some? ==> r.value.Value() == status
  {
    if status == "pending" then Some(Pending)
    else if status == "in_progress" then Some(InProgress)
    else if status == "completed" then Some(Completed)
    else if status == "cancelled" then Some(Cancelled)
    else None
  }

  /** Every status round-trips through its string, and distinct statuses
      have distinct strings. */
  lemma TaskStatusRoundTrip(st: TaskStatus)
    ensures IsValidTaskStatus(st.Value())
    ensures AsTaskStatus(st.Value()) == Some(st)
  {
  }

  /** `isValidTaskPriority`: `Object.values(TaskPriority).includes(priority)`.
      The result holds exactly for 1, 2, 3 and 4. */
  function IsValidTaskPriority(priority: int): (r: bool)
    ensures r <==> 1 <= priority <= 4
    ensures r <==> exists p: TaskPriority :: p.Value() == priority
  {
    priority in TaskPriorityValues
  }

  /** The narrowing the guard performs (`priority is TaskPriority`). */
  function AsTaskPriority(priority: int): (r: Option<TaskPriority>)
    ensures r.Some? <==> IsValidTaskPriority(priority)
    ensures r.Some? ==> r.value.Value() == priority
  {
    match priority
    case 1 => Some(Low)
    case 2 => Some(Medium)
    case 3 => Some(High)
    case 4 => Some(Critical)
    case _ => None
  }

  /** The declared numbering orders the priorities LOW < MEDIUM < HIGH <
      CRITICAL, and a priority is determined by its number. */
  lemma TaskPriorityOrder(p: TaskPriority, q: TaskPriority)
    ensures Low.Value() < Medium.Value() < High.Value() < Critical.Value()
    ensures p.Value() == q.Value() ==> p == q
    ensures AsTaskPriority(p.Value()) == Some(p)
  {
  }

  const MinTitleLength: nat := 3
  const MaxTitleLength: nat := 100

  /** The messages the constructor throws, as written in the source. */
  const TitleTooShortMessage: string := "Task titel must have at least 3 characters!"
  const TitleTooLongMessage: string := "Task title cannot exceed 100 characters\""

  /** The invariant a constructed title keeps: at least 3 characters once
      trimmed, at most 100 as given. */
  predicate IsTitleText(raw: string) {
    MinTitleLength <= |Trim(raw)| && |raw| <= MaxTitleLength
  }

  /** The state of a `TaskTitle`: the raw string, kept as given. `value` is the
      getter and `ToString` is `toString()`. */
  datatype Title = Title(value: string) {
    function ToString(): string {
      value
    }
  }

  /** A `TaskTitle` is a title that passed the constructor's checks. */
  type TaskTitle = t: Title | IsTitleText(t.value)
    witness (TrimOfPadded("", "abc", ""); Title("abc"))

  /** `new TaskTitle(raw)`. The emptiness and short checks run first, so a
      string that is both too short once trimmed and too long fails with the
      "at least 3 characters" message. On success the raw string is stored
      untrimmed. */
  function NewTaskTitle(raw: string): (r: Result<TaskTitle, ValidationError>)
    ensures r.Success? <==> IsTitleText(raw)
    ensures r.Success? ==> r.value.value == raw
    ensures r.Failure? && |Trim(raw)| < MinTitleLength ==> r.error.message == TitleTooShortMessage
    ensures r.Failure? && |Trim(raw)| >= MinTitleLength ==> r.error.message == TitleTooLongMessage && |raw| > MaxTitleLength
  {
    if raw == [] || |Trim(raw)| < MinTitleLength then
      Failure(ValidationError(TitleTooShortMessage))
    else if |raw| > MaxTitleLength then
      Failure(ValidationError(TitleTooLongMessage))
    else
      Success(Title(raw))
  }

  /** The getter and `toString()` both give back exactly the string the title
      was constructed from. */
  lemma TitleRoundTrip(raw: string)
    requires IsTitleText(raw)
    ensures NewTaskTitle(raw).Success?
    ensures NewTaskTitle(raw).value.value == raw
    ensures NewTaskTitle(raw).value.ToString() == raw
  {
  }

  /** A string of white space only, however long, is rejected as too short:
      the length check is never reached. */
  lemma {:induction false} BlankTitleIsTooShort(raw: string)
    requires AllWhitespace(raw)
    ensures NewTaskTitle(raw) == Failure(ValidationError(TitleTooShortMessage))
  {
    assert Trim(raw) == [];
  }

  /** White space around fewer than 3 non-blank characters does not make a
      title long enough: " hi ", for one, is rejected as too short. */
  lemma PaddedShortTitleRejected(before: string, core: string, after: string)
    requires AllWhitespace(before) && AllWhitespace(after)
    requires core != [] && !IsWhitespace(core[0]) && !IsWhitespace(core[|core| - 1])
    requires |core| < MinTitleLength
    ensures NewTaskTitle(before + core + after) == Failure(ValidationError(TitleTooShortMessage))
  {
    TrimOfPadded(before, core, after);
  }

  /** "Plan launch" is accepted and converts back to the same string. */
  lemma PlanLaunchTitleAccepted(raw: string)
    requires raw == "Plan launch"
    ensures NewTaskTitle(raw).Success?
    ensures NewTaskTitle(raw).value.ToString() == "Plan launch"
  {
    var none: string := [];
    TrimOfPadded(none, raw, none);
    assert raw == none + raw + none;
  }
}
