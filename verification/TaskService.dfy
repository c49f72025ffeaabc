/**
 * Task admission: the ordered validation chain, the shift of later tasks
 * one position up, and the insertion of the new task at the requested order.
 */
module TaskService {
  import opened Domain
  import opened TaskRepository

  datatype TaskRequest = TaskRequest(courseId: CourseId, statement: string, order: int)

  datatype SingleChoiceTaskRequest = SingleChoiceTaskRequest(
    courseId: CourseId, statement: string, order: int, options: Option<seq<OptionReq>>)

  datatype MultipleChoiceTaskRequest = MultipleChoiceTaskRequest(
    courseId: CourseId, statement: string, order: int, options: Option<seq<OptionReq>>)

  /** The bean-validation bounds every request carries: order >= 1, statement of 4..255 UTF-16 units. */
  predicate WellFormed(statement: string, order: int) {
    order >= 1 && 4 <= Utf16Length(statement) <= 255
  }

  // ---------------------------------------------------------------------
  // Common requirements: course, status, statement, order

  /** Some task of course `c` already has exactly this statement. */
  ghost predicate StatementTaken(tasks: seq<Task>, c: CourseId, statement: string) {
    exists i :: 0 <= i < |tasks| && tasks[i].course == c && tasks[i].statement == statement
  }

  /** `order` opens no gap: it is at most one past some order of the course (or 1 for an empty course). */
  ghost predicate OrderWithinBound(tasks: seq<Task>, c: CourseId, order: int) {
    if forall i :: 0 <= i < |tasks| ==> tasks[i].course != c then order <= 1
    else exists i :: 0 <= i < |tasks| && tasks[i].course == c && order <= tasks[i].order + 1
  }

  /** `next` is one past the greatest order of course `c`, or 1 if it has no tasks. */
  ghost predicate IsNextOrder(tasks: seq<Task>, c: CourseId, next: int) {
    && (forall i :: 0 <= i < |tasks| && tasks[i].course == c ==> tasks[i].order < next)
    && ((next == 1 && forall i :: 0 <= i < |tasks| ==> tasks[i].course != c) ||
        exists i :: 0 <= i < |tasks| && tasks[i].course == c && tasks[i].order == next - 1)
  }

  /**
   * validateCommonRequirements: the course must exist, be BUILDING, not
   * hold the statement yet, and the order may be at most max order + 1.
   * The first failing check decides the error; every one is BAD_REQUEST.
   */
  function ValidateCommonRequirements(
    courses: map<CourseId, Course>, tasks: seq<Task>, courseId: CourseId, statement: string, order: int
  ): (r: Result<Course>)
    ensures courseId !in courses ==> r == Err(Error(BadRequest, CourseNotFound))
    ensures courseId in courses && courses[courseId].status != Building ==>
      r == Err(Error(BadRequest, CourseNotBuilding))
    ensures (courseId in courses && courses[courseId].status == Building &&
             StatementTaken(tasks, courseId, statement)) ==>
      r == Err(Error(BadRequest, DuplicateStatement))
    ensures (courseId in courses && courses[courseId].status == Building &&
             !StatementTaken(tasks, courseId, statement) && !OrderWithinBound(tasks, courseId, order)) ==>
      && r.Err? && r.error.status == BadRequest && r.error.reason.InvalidOrder?
      && IsNextOrder(tasks, courseId, r.error.reason.nextAllowed)
      && order > r.error.reason.nextAllowed
    ensures r.Ok? <==>
      && courseId in courses && courses[courseId].status == Building
      && !StatementTaken(tasks, courseId, statement) && OrderWithinBound(tasks, courseId, order)
    ensures r.Ok? ==> r.value == courses[courseId]
  {
    if courseId !in courses then Err(Error(BadRequest, CourseNotFound))
    else
      var course := courses[courseId];
      if course.status != Building then Err(Error(BadRequest, CourseNotBuilding))
      else if ExistsByCourseAndStatement(tasks, courseId, statement) then Err(Error(BadRequest, DuplicateStatement))
      else
        var maxOrder := MaxOrderOrZero(tasks, courseId);
        if order > maxOrder + 1 then Err(Error(BadRequest, InvalidOrder(maxOrder + 1)))
        else Ok(course)
  }

  // ---------------------------------------------------------------------
  // Single-choice options

  /** The option's text is missing or its length() is outside 4..80 UTF-16 units. */
  ghost predicate TextLengthBad(o: OptionReq) {
    o.text.None? || Utf16Length(o.text.value) < 4 || Utf16Length(o.text.value) > 80
  }

  /** The option passes both per-option checks. */
  ghost predicate TextOk(o: OptionReq, statement: string) {
    !TextLengthBad(o) && o.text.value != statement
  }

  ghost predicate TextsPairwiseDistinct(opts: seq<OptionReq>) {
    forall i, j :: 0 <= i < j < |opts| ==> opts[i].text != opts[j].text
  }

  ghost predicate ExactlyOneCorrect(opts: seq<OptionReq>) {
    exists i :: 0 <= i < |opts| && opts[i].isCorrect &&
      forall j :: 0 <= j < |opts| && j != i ==> !opts[j].isCorrect
  }

  /** Option `i` is the first to fail a per-option check. */
  ghost predicate FirstBadOption(opts: seq<OptionReq>, statement: string, i: int) {
    0 <= i < |opts| && !TextOk(opts[i], statement) &&
    forall j :: 0 <= j < i ==> TextOk(opts[j], statement)
  }

  /** The single-choice option rules, all of them. */
  ghost predicate SingleChoiceOptionsValid(options: Option<seq<OptionReq>>, statement: string) {
    && options.Some?
    && 2 <= |options.value| <= 5
    && (forall i :: 0 <= i < |options.value| ==> TextOk(options.value[i], statement))
    && TextsPairwiseDistinct(options.value)
    && ExactlyOneCorrect(options.value)
  }

  /**
   * validateSingleChoiceOptions: present; 2..5 options; each text present,
   * of 4..80 characters and unlike the statement (checked option by option,
   * length first); texts pairwise distinct; exactly one correct.
   */
  function ValidateSingleChoiceOptions(options: Option<seq<OptionReq>>, statement: string): (r: Outcome)
    ensures r.Done? <==> SingleChoiceOptionsValid(options, statement)
    ensures r.Rejected? ==> r.error.status == BadRequest
    ensures options.None? ==> r == Rejected(Error(BadRequest, OptionsMissing))
    ensures options.Some? && !(2 <= |options.value| <= 5) ==>
      r == Rejected(Error(BadRequest, OptionCountOutOfRange))
    ensures r == Rejected(Error(BadRequest, OptionTextLength)) <==>
      && options.Some? && 2 <= |options.value| <= 5
      && exists i :: FirstBadOption(options.value, statement, i) && TextLengthBad(options.value[i])
    ensures r == Rejected(Error(BadRequest, OptionEqualsStatement)) <==>
      && options.Some? && 2 <= |options.value| <= 5
      && exists i :: FirstBadOption(options.value, statement, i) && !TextLengthBad(options.value[i])
    ensures r == Rejected(Error(BadRequest, OptionsNotDistinct)) <==>
      && options.Some? && 2 <= |options.value| <= 5
      && (forall i :: 0 <= i < |options.value| ==> TextOk(options.value[i], statement))
      && !TextsPairwiseDistinct(options.value)
    ensures r == Rejected(Error(BadRequest, NotExactlyOneCorrect)) <==>
      && options.Some? && 2 <= |options.value| <= 5
      && (forall i :: 0 <= i < |options.value| ==> TextOk(options.value[i], statement))
      && TextsPairwiseDistinct(options.value)
      && !ExactlyOneCorrect(options.value)
  {
    if options.None? then Rejected(Error(BadRequest, OptionsMissing))
    else
      var opts := options.value;
      if |opts| < 2 || |opts| > 5 then Rejected(Error(BadRequest, OptionCountOutOfRange))
      else
        var textError := FirstTextError(opts, statement);
        if textError.Some? then Rejected(Error(BadRequest, textError.value))
        else if DistinctTextCount(opts) != |opts| then
          DistinctTextCountIsLength(opts);
          Rejected(Error(BadRequest, OptionsNotDistinct))
        else if CorrectCount(opts) != 1 then
          DistinctTextCountIsLength(opts);
          CorrectCountIsOne(opts);
          Rejected(Error(BadRequest, NotExactlyOneCorrect))
        else
          DistinctTextCountIsLength(opts);
          CorrectCountIsOne(opts);
          Done
  }

  /**
   * Lengths are Java's: two options of 4 UTF-16 units each, one of them two
   * characters outside the Basic Multilingual Plane, pass every option rule.
   */
  lemma SupplementaryCharactersCountTwice()
    ensures ValidateSingleChoiceOptions(
      Some([OptionReq(Some("\U{1F600}\U{1F600}"), true), OptionReq(Some("Python"), false)]), "Qual linguagem?") == Done
  {
    var opts := [OptionReq(Some("\U{1F600}\U{1F600}"), true), OptionReq(Some("Python"), false)];
    assert Utf16Length("\U{1F600}\U{1F600}") == 4;
    assert TextOk(opts[0], "Qual linguagem?") && TextOk(opts[1], "Qual linguagem?");
    assert ExactlyOneCorrect(opts);
  }

  /** The per-option loop: the error of the first option that fails a check, if any. */
  function FirstTextError(opts: seq<OptionReq>, statement: string): (e: Option<Reason>)
    ensures e.None? <==> forall i :: 0 <= i < |opts| ==> TextOk(opts[i], statement)
    ensures e == Some(OptionTextLength) <==>
      exists i :: FirstBadOption(opts, statement, i) && TextLengthBad(opts[i])
    ensures e == Some(OptionEqualsStatement) <==>
      exists i :: FirstBadOption(opts, statement, i) && !TextLengthBad(opts[i])
    ensures e.None? || e == Some(OptionTextLength) || e == Some(OptionEqualsStatement)
  {
    if opts == [] then None
    else
      var o := opts[0];
      if o.text.None? || Utf16Length(o.text.value) < 4 || Utf16Length(o.text.value) > 80 then
        assert FirstBadOption(opts, statement, 0);
        FirstBadOptionUnique(opts, statement, 0);
        Some(OptionTextLength)
      else if o.text.value == statement then
        assert FirstBadOption(opts, statement, 0);
        FirstBadOptionUnique(opts, statement, 0);
        Some(OptionEqualsStatement)
      else
        FirstBadOptionShift(opts, statement);
        FirstTextError(opts[1..], statement)
  }

  lemma FirstBadOptionUnique(opts: seq<OptionReq>, statement: string, i: int)
    requires FirstBadOption(opts, statement, i)
    ensures forall j :: FirstBadOption(opts, statement, j) ==> j == i
  {
  }

  /** When the first option passes, the first failing option is found in the rest. */
  lemma FirstBadOptionShift(opts: seq<OptionReq>, statement: string)
    requires opts != [] && TextOk(opts[0], statement)
    ensures forall i :: FirstBadOption(opts, statement, i) <==> i >= 1 && FirstBadOption(opts[1..], statement, i - 1)
    ensures (forall i :: 0 <= i < |opts| ==> TextOk(opts[i], statement)) <==>
      (forall i :: 0 <= i < |opts[1..]| ==> TextOk(opts[1..][i], statement))
  {
    forall i | FirstBadOption(opts, statement, i) ensures i >= 1 && FirstBadOption(opts[1..], statement, i - 1) {
      forall j | 0 <= j < i - 1 ensures TextOk(opts[1..][j], statement) {
        assert opts[1..][j] == opts[j + 1];
      }
    }
    forall i | i >= 1 && FirstBadOption(opts[1..], statement, i - 1) ensures FirstBadOption(opts, statement, i) {
      forall j | 0 <= j < i ensures TextOk(opts[j], statement) {
        if j > 0 {
          assert opts[j] == opts[1..][j - 1];
        }
      }
    }
    if forall i :: 0 <= i < |opts[1..]| ==> TextOk(opts[1..][i], statement) {
      forall i | 0 <= i < |opts| ensures TextOk(opts[i], statement) {
        if i > 0 {
          assert opts[i] == opts[1..][i - 1];
        }
      }
    }
  }

  /** `options.stream().map(getOption).distinct().count()` */
  function DistinctTextCount(opts: seq<OptionReq>): (n: nat)
    ensures n == 0 <==> opts == []
    ensures forall i :: 0 <= i < |opts| ==> opts[i].text in TextSet(opts)
  {
    assert opts != [] ==> opts[0].text in TextSet(opts);
    |TextSet(opts)|
  }

  function TextSet(opts: seq<OptionReq>): set<Option<string>> {
    set o | o in opts :: o.text
  }

  /** Counting the distinct texts detects a repeated text. */
  lemma {:induction false} DistinctTextCountIsLength(opts: seq<OptionReq>)
    ensures DistinctTextCount(opts) <= |opts|
    ensures DistinctTextCount(opts) == |opts| <==> TextsPairwiseDistinct(opts)
  {
    if opts != [] {
      var front, last := opts[..|opts| - 1], opts[|opts| - 1];
      DistinctTextCountIsLength(front);
      assert opts == front + [last];
      assert TextSet(opts) == TextSet(front) + {last.text};
      DistinctSnoc(front, last);
    }
  }

  /** Appending an option keeps the texts distinct iff its text is new. */
  lemma DistinctSnoc(front: seq<OptionReq>, last: OptionReq)
    ensures TextsPairwiseDistinct(front + [last]) <==> TextsPairwiseDistinct(front) && last.text !in TextSet(front)
  {
    var opts := front + [last];
    if last.text in TextSet(front) {
      var o :| o in front && o.text == last.text;
      var k :| 0 <= k < |front| && front[k] == o;
      assert opts[k].text == opts[|front|].text;
    } else if TextsPairwiseDistinct(front) {
      forall i, j | 0 <= i < j < |opts| ensures opts[i].text != opts[j].text {
        if j == |front| {
          assert opts[i] in front;
        } else {
          assert opts[i] == front[i] && opts[j] == front[j];
        }
      }
    } else {
      var i, j :| 0 <= i < j < |front| && front[i].text == front[j].text;
      assert opts[i] == front[i] && opts[j] == front[j];
    }
  }

  /** `options.stream().filter(getIsCorrect).count()` */
  function CorrectCount(opts: seq<OptionReq>): (n: nat)
    ensures n <= |opts|
    ensures n == 0 <==> forall j :: 0 <= j < |opts| ==> !opts[j].isCorrect
  {
    if opts == [] then 0
    else
      var rest := opts[1..];
      assert forall j :: 1 <= j < |opts| ==> opts[j] == rest[j - 1];
      (if opts[0].isCorrect then 1 else 0) + CorrectCount(rest)
  }

  /** A correct-count of one means exactly one option is correct. */
  lemma {:induction false} CorrectCountIsOne(opts: seq<OptionReq>)
    ensures CorrectCount(opts) == 1 <==> ExactlyOneCorrect(opts)
  {
    if opts != [] {
      var rest := opts[1..];
      CorrectCountIsOne(rest);
      if opts[0].isCorrect {
        if ExactlyOneCorrect(opts) {
          var i :| 0 <= i < |opts| && opts[i].isCorrect && forall j :: 0 <= j < |opts| && j != i ==> !opts[j].isCorrect;
          assert i == 0;
          forall j | 0 <= j < |rest| ensures !rest[j].isCorrect {
            assert rest[j] == opts[j + 1];
          }
        }
        if CorrectCount(rest) == 0 {
          forall j | 0 < j < |opts| ensures !opts[j].isCorrect {
            assert opts[j] == rest[j - 1];
          }
        }
      } else {
        if ExactlyOneCorrect(rest) {
          var i :| 0 <= i < |rest| && rest[i].isCorrect && forall j :: 0 <= j < |rest| && j != i ==> !rest[j].isCorrect;
          assert opts[i + 1] == rest[i];
          forall j | 0 <= j < |opts| && j != i + 1 ensures !opts[j].isCorrect {
            if j > 0 {
              assert opts[j] == rest[j - 1];
            }
          }
        }
        if ExactlyOneCorrect(opts) {
          var i :| 0 <= i < |opts| && opts[i].isCorrect && forall j :: 0 <= j < |opts| && j != i ==> !opts[j].isCorrect;
          assert i > 0 && rest[i - 1] == opts[i];
          forall j | 0 <= j < |rest| && j != i - 1 ensures !rest[j].isCorrect {
            assert rest[j] == opts[j + 1];
          }
        }
      }
    }
  }

  // ---------------------------------------------------------------------
  // The shift and the admitted table

  /** The table after every task of `c` at order >= `n` moved one position up. */
  function Shifted(tasks: seq<Task>, c: CourseId, n: int): (r: seq<Task>)
    ensures |r| == |tasks|
  {
    seq(|tasks|, i requires 0 <= i < |tasks| =>
      if tasks[i].course == c && tasks[i].order >= n then tasks[i].(order := tasks[i].order + 1) else tasks[i])
  }

  /** The table after a successful admission: shifted, then the new task appended. */
  function Admitted(tasks: seq<Task>, c: CourseId, statement: string, order: int,
                    taskType: TaskType, options: Option<seq<OptionReq>>): seq<Task>
  {
    Shifted(tasks, c, order) + [Task(c, statement, order, taskType, options)]
  }

  function OutcomeOf(v: Result<Course>): Outcome {
    if v.Ok? then Done else Rejected(v.error)
  }

  /** The service, with its two repositories injected. */
  class TaskService {
    const courseStore: CourseStore
    const taskStore: TaskStore

    constructor(courseStore: CourseStore, taskStore: TaskStore)
      ensures this.courseStore == courseStore && this.taskStore == taskStore
    {
      this.courseStore := courseStore;
      this.taskStore := taskStore;
    }

    /** createOpenTextTask: validate, shift, store the new task without options. */
    method CreateOpenTextTask(request: TaskRequest) returns (r: Outcome)
      requires WellFormed(request.statement, request.order)
      modifies taskStore
      ensures r == OutcomeOf(ValidateCommonRequirements(
        courseStore.courses, old(taskStore.tasks), request.courseId, request.statement, request.order))
      ensures r.Rejected? ==> taskStore.tasks == old(taskStore.tasks)
      ensures r.Done? ==>
        taskStore.tasks == Admitted(old(taskStore.tasks), request.courseId, request.statement, request.order, OpenText, None)
      ensures (forall d :: CourseInvariant(old(taskStore.tasks), d)) ==> forall d :: CourseInvariant(taskStore.tasks, d)
    {
      var v := ValidateCommonRequirements(
        courseStore.courses, taskStore.tasks, request.courseId, request.statement, request.order);
      if v.Err? {
        return Rejected(v.error);
      }
      if forall d :: CourseInvariant(taskStore.tasks, d) {
        AdmissionPreservesAllInvariants(courseStore.courses, taskStore.tasks, request.courseId, request.statement,
                                         request.order, OpenText, None);
      }
      ShiftTasksForNewOrder(request.courseId, request.order);
      PersistTask(request.courseId, request.statement, request.order, OpenText, None);
      r := Done;
    }

    /** createSingleChoiceTask: validate, check the options, shift, store the new task with its options. */
    method CreateSingleChoiceTask(request: SingleChoiceTaskRequest) returns (r: Outcome)
      requires WellFormed(request.statement, request.order)
      modifies taskStore
      ensures var v := ValidateCommonRequirements(
          courseStore.courses, old(taskStore.tasks), request.courseId, request.statement, request.order);
        r == if v.Err? then Rejected(v.error) else ValidateSingleChoiceOptions(request.options, request.statement)
      ensures r.Rejected? ==> taskStore.tasks == old(taskStore.tasks)
      ensures r.Done? ==>
        taskStore.tasks ==
        Admitted(old(taskStore.tasks), request.courseId, request.statement, request.order, SingleChoice, request.options)
      ensures (forall d :: CourseInvariant(old(taskStore.tasks), d)) ==> forall d :: CourseInvariant(taskStore.tasks, d)
    {
      var v := ValidateCommonRequirements(
        courseStore.courses, taskStore.tasks, request.courseId, request.statement, request.order);
      if v.Err? {
        return Rejected(v.error);
      }
      r := ValidateSingleChoiceOptions(request.options, request.statement);
      if r.Rejected? {
        return;
      }
      if forall d :: CourseInvariant(taskStore.tasks, d) {
        AdmissionPreservesAllInvariants(courseStore.courses, taskStore.tasks, request.courseId, request.statement,
                                         request.order, SingleChoice, request.options);
      }
      ShiftTasksForNewOrder(request.courseId, request.order);
      PersistTask(request.courseId, request.statement, request.order, SingleChoice, request.options);
    }

    /** createMultipleChoiceTask: an empty method in the service; it stores nothing. */
    method CreateMultipleChoiceTask(request: MultipleChoiceTaskRequest)
      ensures taskStore.tasks == old(taskStore.tasks)
    {
    }

    /**
     * shiftTasksForNewOrder: fetch the course's tasks at order >= newOrder,
     * highest order first, and move each one position up. Going downwards,
     * the course's orders stay pairwise distinct after every single move.
     */
    method ShiftTasksForNewOrder(courseId: CourseId, newOrder: int)
      modifies taskStore
      ensures taskStore.tasks == Shifted(old(taskStore.tasks), courseId, newOrder)
    {
      var tasksToShift := FindByCourseAndOrderGreaterThanEqualOrderByOrderDesc(taskStore.tasks, courseId, newOrder);
      ghost var before := taskStore.tasks;
      assert ShiftPlan(before, courseId, newOrder, tasksToShift);
      var k := 0;
      while k < |tasksToShift|
        invariant 0 <= k <= |tasksToShift|
        invariant MovedFirst(before, tasksToShift, k, taskStore.tasks)
        invariant DistinctOrders(before, courseId) ==> DistinctOrders(taskStore.tasks, courseId)
      {
        ghost var current := taskStore.tasks;
        var task := taskStore.tasks[tasksToShift[k]];
        taskStore.tasks := taskStore.tasks[tasksToShift[k] := task.(order := task.order + 1)];
        ShiftStep(before, courseId, newOrder, tasksToShift, k, current, taskStore.tasks);
        k := k + 1;
      }
      MovedAll(before, courseId, newOrder, tasksToShift, taskStore.tasks);
      // saveAll: the table already holds the moved tasks.
    }

    /** persistTask: store a new task with the given fields. */
    method PersistTask(courseId: CourseId, statement: string, order: int,
                       taskType: TaskType, options: Option<seq<OptionReq>>)
      modifies taskStore
      ensures taskStore.tasks == old(taskStore.tasks) + [Task(courseId, statement, order, taskType, options)]
    {
      taskStore.tasks := taskStore.tasks + [Task(courseId, statement, order, taskType, options)];
    }
  }

  /** `current` is `before` with exactly the tasks at `toShift[..k]` moved one position up. */
  ghost predicate MovedFirst(before: seq<Task>, toShift: seq<nat>, k: nat, current: seq<Task>) {
    && k <= |toShift|
    && |current| == |before|
    && forall i :: 0 <= i < |before| ==>
         current[i] == if i in toShift[..k] then before[i].(order := before[i].order + 1) else before[i]
  }

  lemma MoveOneMore(before: seq<Task>, toShift: seq<nat>, k: nat, current: seq<Task>, next: seq<Task>)
    requires Indices(before, toShift) && Distinct(toShift)
    requires k < |toShift| && MovedFirst(before, toShift, k, current)
    requires next == current[toShift[k] := current[toShift[k]].(order := current[toShift[k]].order + 1)]
    ensures MovedFirst(before, toShift, k + 1, next)
  {
    var idx := toShift[k];
    assert toShift[..k + 1] == toShift[..k] + [idx];
    assert idx !in toShift[..k];
  }

  /** One move of the loop: one more task moved, and distinct orders kept. */
  lemma ShiftStep(before: seq<Task>, c: CourseId, n: int, toShift: seq<nat>, k: nat,
                  current: seq<Task>, next: seq<Task>)
    requires ShiftPlan(before, c, n, toShift)
    requires k < |toShift| && MovedFirst(before, toShift, k, current)
    requires DistinctOrders(before, c) ==> DistinctOrders(current, c)
    requires next == current[toShift[k] := current[toShift[k]].(order := current[toShift[k]].order + 1)]
    ensures MovedFirst(before, toShift, k + 1, next)
    ensures DistinctOrders(before, c) ==> DistinctOrders(next, c)
  {
    MoveOneMore(before, toShift, k, current, next);
    if DistinctOrders(before, c) {
      ShiftStepKeepsDistinct(before, c, n, toShift, k, current, next);
    }
  }

  lemma MovedAll(before: seq<Task>, c: CourseId, n: int, toShift: seq<nat>, current: seq<Task>)
    requires ShiftPlan(before, c, n, toShift)
    requires MovedFirst(before, toShift, |toShift|, current)
    ensures current == Shifted(before, c, n)
  {
    assert toShift[..|toShift|] == toShift;
  }

  /** `toShift` is what the descending query returns for course `c` and threshold `n`. */
  ghost predicate ShiftPlan(before: seq<Task>, c: CourseId, n: int, toShift: seq<nat>) {
    && (forall x :: 0 <= x < |toShift| ==> toShift[x] < |before| && before[toShift[x]].course == c && before[toShift[x]].order >= n)
    && (forall i :: 0 <= i < |before| && before[i].course == c && before[i].order >= n ==> i in toShift)
    && Distinct(toShift) && Indices(before, toShift) && SortedDesc(before, toShift)
  }

  /**
   * One step of the downward shift keeps the course's orders distinct: the
   * moved task goes from o to o + 1, every task already moved came from an
   * order above o, and every task not yet moved sits below o.
   */
  lemma ShiftStepKeepsDistinct(before: seq<Task>, c: CourseId, n: int, toShift: seq<nat>, k: nat,
                               current: seq<Task>, next: seq<Task>)
    requires DistinctOrders(before, c)
    requires ShiftPlan(before, c, n, toShift)
    requires k < |toShift| && MovedFirst(before, toShift, k, current)
    requires next == current[toShift[k] := current[toShift[k]].(order := current[toShift[k]].order + 1)]
    requires DistinctOrders(current, c)
    ensures DistinctOrders(next, c)
  {
    var idx := toShift[k];
    var o := before[idx].order;
    assert idx !in toShift[..k];
    assert forall y :: 0 <= y < k ==> toShift[y] in toShift[..k];
    assert current[idx] == before[idx];
    forall j | 0 <= j < |next| && j != idx && next[j].course == c ensures next[j].order != o + 1 {
      assert next[j] == current[j];
      if j in toShift[..k] {
        var x :| 0 <= x < k && toShift[x] == j;
        assert before[j].order >= o;
        assert before[j].order != o;
      } else if before[j].order >= n {
        var x :| 0 <= x < |toShift| && toShift[x] == j;
        assert x > k;
        assert before[j].order <= o;
      }
    }
  }

  // ---------------------------------------------------------------------
  // What a successful admission does to the table

  /** The shift changes no task's course, so no course's task count. */
  lemma {:induction false} ShiftedKeepsCounts(tasks: seq<Task>, c: CourseId, n: int, d: CourseId)
    ensures CountByCourse(Shifted(tasks, c, n), d) == CountByCourse(tasks, d)
  {
    if tasks != [] {
      var shifted := Shifted(tasks, c, n);
      assert Front(shifted) == Shifted(Front(tasks), c, n);
      ShiftedKeepsCounts(Front(tasks), c, n, d);
    }
  }

  /** Where each task of the admitted table comes from. */
  lemma AdmittedAt(tasks: seq<Task>, c: CourseId, statement: string, n: int,
                   taskType: TaskType, options: Option<seq<OptionReq>>, i: int)
    requires 0 <= i <= |tasks|
    ensures |Admitted(tasks, c, statement, n, taskType, options)| == |tasks| + 1
    ensures i == |tasks| ==> Admitted(tasks, c, statement, n, taskType, options)[i] == Task(c, statement, n, taskType, options)
    ensures i < |tasks| && (tasks[i].course != c || tasks[i].order < n) ==>
      Admitted(tasks, c, statement, n, taskType, options)[i] == tasks[i]
    ensures i < |tasks| && tasks[i].course == c && tasks[i].order >= n ==>
      Admitted(tasks, c, statement, n, taskType, options)[i] == tasks[i].(order := tasks[i].order + 1)
  {
    if i < |tasks| {
      assert Admitted(tasks, c, statement, n, taskType, options)[i] == Shifted(tasks, c, n)[i];
    }
  }

  lemma CountAppend(tasks: seq<Task>, t: Task, d: CourseId)
    ensures CountByCourse(tasks + [t], d) == CountByCourse(tasks, d) + (if t.course == d then 1 else 0)
  {
    assert Front(tasks + [t]) == tasks;
  }

  /**
   * An admission adds exactly the new task, at the end of the table: the
   * course gains one task, other courses keep theirs untouched, and of the
   * course's tasks those below the requested order keep their order while
   * the others move up by one.
   */
  lemma AdmittedAddsOneTask(tasks: seq<Task>, c: CourseId, statement: string, n: int,
                            taskType: TaskType, options: Option<seq<OptionReq>>)
    ensures |Admitted(tasks, c, statement, n, taskType, options)| == |tasks| + 1
    ensures Admitted(tasks, c, statement, n, taskType, options)[|tasks|] == Task(c, statement, n, taskType, options)
    ensures CountByCourse(Admitted(tasks, c, statement, n, taskType, options), c) == CountByCourse(tasks, c) + 1
    ensures forall d :: d != c ==>
      CountByCourse(Admitted(tasks, c, statement, n, taskType, options), d) == CountByCourse(tasks, d)
    ensures forall i :: 0 <= i < |tasks| && (tasks[i].course != c || tasks[i].order < n) ==>
      Admitted(tasks, c, statement, n, taskType, options)[i] == tasks[i]
    ensures forall i :: 0 <= i < |tasks| && tasks[i].course == c && tasks[i].order >= n ==>
      Admitted(tasks, c, statement, n, taskType, options)[i] == tasks[i].(order := tasks[i].order + 1)
  {
    var t := Task(c, statement, n, taskType, options);
    AdmittedAt(tasks, c, statement, n, taskType, options, |tasks|);
    forall i | 0 <= i < |tasks| && (tasks[i].course != c || tasks[i].order < n)
      ensures Admitted(tasks, c, statement, n, taskType, options)[i] == tasks[i]
    {
      AdmittedAt(tasks, c, statement, n, taskType, options, i);
    }
    forall i | 0 <= i < |tasks| && tasks[i].course == c && tasks[i].order >= n
      ensures Admitted(tasks, c, statement, n, taskType, options)[i] == tasks[i].(order := tasks[i].order + 1)
    {
      AdmittedAt(tasks, c, statement, n, taskType, options, i);
    }
    AdmittedCount(tasks, c, statement, n, taskType, options, c);
    forall d | d != c
      ensures CountByCourse(Admitted(tasks, c, statement, n, taskType, options), d) == CountByCourse(tasks, d)
    {
      AdmittedCount(tasks, c, statement, n, taskType, options, d);
    }
  }

  lemma AdmittedCount(tasks: seq<Task>, c: CourseId, statement: string, n: int,
                      taskType: TaskType, options: Option<seq<OptionReq>>, d: CourseId)
    ensures CountByCourse(Admitted(tasks, c, statement, n, taskType, options), d)
      == CountByCourse(tasks, d) + (if d == c then 1 else 0)
  {
    ShiftedKeepsCounts(tasks, c, n, d);
    CountAppend(Shifted(tasks, c, n), Task(c, statement, n, taskType, options), d);
  }

  /** Shift-then-insert never gives two tasks of the course the same order. */
  lemma AdmittedKeepsOrdersDistinct(tasks: seq<Task>, c: CourseId, statement: string, n: int,
                                    taskType: TaskType, options: Option<seq<OptionReq>>)
    requires DistinctOrders(tasks, c)
    ensures DistinctOrders(Admitted(tasks, c, statement, n, taskType, options), c)
  {
    var a := Admitted(tasks, c, statement, n, taskType, options);
    forall i, j | 0 <= i < |a| && 0 <= j < |a| && i != j && a[i].course == c && a[j].course == c
      ensures a[i].order != a[j].order
    {
      if i < |tasks| && j < |tasks| {
        assert tasks[i].order != tasks[j].order;
      }
    }
  }

  /** A statement that was not taken keeps the course's statements unique. */
  lemma AdmittedKeepsStatementsUnique(tasks: seq<Task>, c: CourseId, statement: string, n: int,
                                      taskType: TaskType, options: Option<seq<OptionReq>>)
    requires UniqueStatements(tasks, c) && !StatementTaken(tasks, c, statement)
    ensures UniqueStatements(Admitted(tasks, c, statement, n, taskType, options), c)
  {
    var a := Admitted(tasks, c, statement, n, taskType, options);
    forall i, j | 0 <= i < |a| && 0 <= j < |a| && i != j && a[i].course == c && a[j].course == c
      ensures a[i].statement != a[j].statement
    {
      if i < |tasks| && j < |tasks| {
        assert tasks[i].statement != tasks[j].statement;
      } else if i < |tasks| {
        assert tasks[i].course == c && tasks[i].statement != statement;
      } else {
        assert tasks[j].course == c && tasks[j].statement != statement;
      }
    }
  }

  /** Inserting at any order in 1..m+1 turns orders 1..m into orders 1..m+1. */
  lemma AdmittedKeepsContiguity(tasks: seq<Task>, c: CourseId, statement: string, n: int,
                                taskType: TaskType, options: Option<seq<OptionReq>>)
    requires ContiguousOrders(tasks, c)
    requires 1 <= n <= CountByCourse(tasks, c) + 1
    ensures ContiguousOrders(Admitted(tasks, c, statement, n, taskType, options), c)
    ensures CountByCourse(Admitted(tasks, c, statement, n, taskType, options), c) == CountByCourse(tasks, c) + 1
  {
    AdmittedAddsOneTask(tasks, c, statement, n, taskType, options);
    AdmittedKeepsOrdersDistinct(tasks, c, statement, n, taskType, options);
    AdmittedOrders(tasks, c, statement, n, taskType, options, CountByCourse(tasks, c));
  }

  /** The admitted table's orders of course `c` are exactly 1..m+1. */
  lemma AdmittedOrders(tasks: seq<Task>, c: CourseId, statement: string, n: int,
                       taskType: TaskType, options: Option<seq<OptionReq>>, m: int)
    requires OrdersOneTo(tasks, c, m)
    requires 1 <= n <= m + 1
    ensures OrdersOneTo(Admitted(tasks, c, statement, n, taskType, options), c, m + 1)
  {
    var a := Admitted(tasks, c, statement, n, taskType, options);
    forall x | x in OrderSet(a, c) ensures 1 <= x <= m + 1 {
      var i :| 0 <= i < |a| && a[i].course == c && a[i].order == x;
      AdmittedAt(tasks, c, statement, n, taskType, options, i);
      if i < |tasks| {
        OrderInSet(tasks, c, i);
      }
    }
    forall k | 1 <= k <= m + 1 ensures k in OrderSet(a, c) {
      if k == n {
        AdmittedAt(tasks, c, statement, n, taskType, options, |tasks|);
        OrderInSet(a, c, |tasks|);
      } else {
        var want := if k < n then k else k - 1;
        var i := OrderWitness(tasks, c, want);
        AdmittedAt(tasks, c, statement, n, taskType, options, i);
        OrderInSet(a, c, i);
      }
    }
  }

  /** The course invariant admission maintains: orders exactly 1..count and statements unique. */
  ghost predicate CourseInvariant(tasks: seq<Task>, c: CourseId) {
    ContiguousOrders(tasks, c) && UniqueStatements(tasks, c)
  }

  /** An admission to course `c` leaves the invariant of every other course as it was. */
  lemma AdmittedKeepsOtherCourses(tasks: seq<Task>, c: CourseId, statement: string, n: int,
                                  taskType: TaskType, options: Option<seq<OptionReq>>, d: CourseId)
    requires d != c && CourseInvariant(tasks, d)
    ensures CourseInvariant(Admitted(tasks, c, statement, n, taskType, options), d)
  {
    var a := Admitted(tasks, c, statement, n, taskType, options);
    AdmittedCount(tasks, c, statement, n, taskType, options, d);
    forall i | 0 <= i < |a| && a[i].course == d ensures i < |tasks| && a[i] == tasks[i] {
      AdmittedAt(tasks, c, statement, n, taskType, options, i);
    }
    forall x | x in OrderSet(a, d) ensures x in OrderSet(tasks, d) {
      var i :| 0 <= i < |a| && a[i].course == d && a[i].order == x;
      OrderInSet(tasks, d, i);
    }
    forall x | x in OrderSet(tasks, d) ensures x in OrderSet(a, d) {
      var i := OrderWitness(tasks, d, x);
      AdmittedAt(tasks, c, statement, n, taskType, options, i);
      OrderInSet(a, d, i);
    }
    assert OrdersOneTo(a, d, CountByCourse(a, d));
  }

  /**
   * Every admission that passes the common checks keeps the course
   * invariant: the order bound max + 1 is count + 1, so the new task
   * lands inside 1..count+1 and opens no gap.
   */
  lemma AdmissionPreservesCourseInvariant(courses: map<CourseId, Course>, tasks: seq<Task>,
                                          c: CourseId, statement: string, n: int,
                                          taskType: TaskType, options: Option<seq<OptionReq>>)
    requires WellFormed(statement, n)
    requires CourseInvariant(tasks, c)
    requires ValidateCommonRequirements(courses, tasks, c, statement, n).Ok?
    ensures CourseInvariant(Admitted(tasks, c, statement, n, taskType, options), c)
  {
    ContiguousMaxIsCount(tasks, c);
    AdmittedKeepsContiguity(tasks, c, statement, n, taskType, options);
    AdmittedKeepsStatementsUnique(tasks, c, statement, n, taskType, options);
  }

  /** Admissions that pass the common checks keep every course's invariant. */
  lemma AdmissionPreservesAllInvariants(courses: map<CourseId, Course>, tasks: seq<Task>,
                                        c: CourseId, statement: string, n: int,
                                        taskType: TaskType, options: Option<seq<OptionReq>>)
    requires WellFormed(statement, n)
    requires forall d :: CourseInvariant(tasks, d)
    requires ValidateCommonRequirements(courses, tasks, c, statement, n).Ok?
    ensures forall d :: CourseInvariant(Admitted(tasks, c, statement, n, taskType, options), d)
  {
    forall d ensures CourseInvariant(Admitted(tasks, c, statement, n, taskType, options), d) {
      if d == c {
        AdmissionPreservesCourseInvariant(courses, tasks, c, statement, n, taskType, options);
      } else {
        AdmittedKeepsOtherCourses(tasks, c, statement, n, taskType, options, d);
      }
    }
  }
}
