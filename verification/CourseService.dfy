/**
 * Course publication: the ordered gate a BUILDING course must pass before
 * it becomes PUBLISHED, the order-continuity check it relies on, and the
 * instructor lookup used when a course is created.
 */
module CourseService {
  import opened Domain
  import opened TaskRepository
  import TaskService

  // ---------------------------------------------------------------------
  // Order continuity

  /**
   * The "1, 2, 3..." check: a course with no tasks is not continuous;
   * otherwise the number of tasks must equal the largest order (0 if absent).
   */
  function IsOrderSequenceContinuous(tasks: seq<Task>, c: CourseId): (b: bool)
    ensures CountByCourse(tasks, c) == 0 ==> !b
    ensures b ==> exists i :: 0 <= i < |tasks| && tasks[i].course == c && tasks[i].order == CountByCourse(tasks, c)
    ensures b ==> forall i :: 0 <= i < |tasks| && tasks[i].course == c ==> tasks[i].order <= CountByCourse(tasks, c)
    ensures (CountByCourse(tasks, c) > 0 &&
             (exists i :: 0 <= i < |tasks| && tasks[i].course == c && tasks[i].order == CountByCourse(tasks, c)) &&
             (forall i :: 0 <= i < |tasks| && tasks[i].course == c ==> tasks[i].order <= CountByCourse(tasks, c))) ==> b
  {
    var totalTasks := CountByCourse(tasks, c);
    if totalTasks == 0 then false
    else totalTasks == MaxOrderOrZero(tasks, c)
  }

  /** Every task of course `c` has an order of at least 1 (the request bound). */
  ghost predicate PositiveOrders(tasks: seq<Task>, c: CourseId) {
    forall i :: 0 <= i < |tasks| && tasks[i].course == c ==> tasks[i].order >= 1
  }

  /**
   * What the continuity check means: when the course's orders are pairwise
   * distinct and at least 1, "count equals the largest order" holds exactly
   * when the course is non-empty and its orders are 1..count.
   */
  lemma ContinuousIffOneToCount(tasks: seq<Task>, c: CourseId)
    requires DistinctOrders(tasks, c) && PositiveOrders(tasks, c)
    ensures IsOrderSequenceContinuous(tasks, c) <==> CountByCourse(tasks, c) > 0 && ContiguousOrders(tasks, c)
  {
    var m := CountByCourse(tasks, c);
    if IsOrderSequenceContinuous(tasks, c) {
      forall x | x in OrderSet(tasks, c) ensures x in OneTo(m) {
        var i := OrderWitness(tasks, c, x);
      }
      OrderSetSize(tasks, c);
      SubsetSize(OrderSet(tasks, c), OneTo(m));
      assert OrdersOneTo(tasks, c, m);
    }
    if m > 0 && ContiguousOrders(tasks, c) {
      ContiguousMaxIsCount(tasks, c);
    }
  }

  /**
   * Without distinct orders the check says less: orders 1, 3, 3 count three
   * tasks with largest order 3 and pass, although order 2 is missing.
   */
  lemma DuplicateOrdersPassContinuity()
    ensures var tasks := [Task(1, "Primeira", 1, OpenText, None), Task(1, "Segunda", 3, OpenText, None),
                          Task(1, "Terceira", 3, OpenText, None)];
      IsOrderSequenceContinuous(tasks, 1) && !ContiguousOrders(tasks, 1)
  {
    var tasks := [Task(1, "Primeira", 1, OpenText, None), Task(1, "Segunda", 3, OpenText, None),
                  Task(1, "Terceira", 3, OpenText, None)];
    ThreeTasksCount(tasks, 1);
    assert IsOrderSequenceContinuous(tasks, 1) by {
      assert tasks[1].course == 1 && tasks[1].order == 3;
    }
    assert !OrdersOneTo(tasks, 1, 3) by {
      assert 2 !in OrderSet(tasks, 1);
    }
  }

  /** Three tasks, all of course `c`, count three. */
  lemma ThreeTasksCount(tasks: seq<Task>, c: CourseId)
    requires |tasks| == 3 && tasks[0].course == c && tasks[1].course == c && tasks[2].course == c
    ensures CountByCourse(tasks, c) == 3
  {
    assert Front(tasks) == tasks[..2] && Front(tasks[..2]) == tasks[..1] && Front(tasks[..1]) == [];
  }

  /** A course whose orders are 1, 2, 4 is refused for its gap, all types being present. */
  lemma GapIsRejected(courses: map<CourseId, Course>, courseId: CourseId)
    requires courseId in courses && courses[courseId].status == Building
    ensures var tasks := [Task(courseId, "Primeira", 1, OpenText, None),
                          Task(courseId, "Segunda", 2, SingleChoice, None),
                          Task(courseId, "Terceira", 4, MultipleChoice, None)];
      ValidatePublishCourseRequest(courses, tasks, courseId) == Err(Error(BadRequest, NonContinuousOrder))
  {
    var tasks := [Task(courseId, "Primeira", 1, OpenText, None),
                  Task(courseId, "Segunda", 2, SingleChoice, None),
                  Task(courseId, "Terceira", 4, MultipleChoice, None)];
    ThreeTasksCount(tasks, courseId);
    assert tasks[2].order == 4;
    assert tasks[0].taskType == OpenText && tasks[1].taskType == SingleChoice && tasks[2].taskType == MultipleChoice;
  }

  // ---------------------------------------------------------------------
  // The publication gate

  /**
   * The checks of a publish request, first failure wins: the course exists
   * (NOT_FOUND otherwise), is BUILDING, has a task of each of the three
   * types, and passes the continuity check.
   */
  function ValidatePublishCourseRequest(courses: map<CourseId, Course>, tasks: seq<Task>, courseId: CourseId): (r: Result<Course>)
    ensures courseId !in courses ==> r == Err(Error(NotFound, CourseNotFound))
    ensures courseId in courses && courses[courseId].status != Building ==>
      r == Err(Error(BadRequest, CourseNotBuilding))
    ensures (courseId in courses && courses[courseId].status == Building && !AllTypesPresent(tasks, courseId)) ==>
      r == Err(Error(BadRequest, MissingActivityTypes))
    ensures (courseId in courses && courses[courseId].status == Building && AllTypesPresent(tasks, courseId) &&
             !IsOrderSequenceContinuous(tasks, courseId)) ==>
      r == Err(Error(BadRequest, NonContinuousOrder))
    ensures r.Ok? <==>
      && courseId in courses && courses[courseId].status == Building
      && AllTypesPresent(tasks, courseId) && IsOrderSequenceContinuous(tasks, courseId)
    ensures r.Ok? ==> r.value == courses[courseId]
  {
    if courseId !in courses then Err(Error(NotFound, CourseNotFound))
    else
      var course := courses[courseId];
      if course.status != Building then Err(Error(BadRequest, CourseNotBuilding))
      else if CountDistinctTypeByCourse(tasks, courseId) < 3 then Err(Error(BadRequest, MissingActivityTypes))
      else if !IsOrderSequenceContinuous(tasks, courseId) then Err(Error(BadRequest, NonContinuousOrder))
      else Ok(course)
  }

  /** The course after setStatus(PUBLISHED) and setPublishedAt(now). */
  function MarkPublished(course: Course, now: Time): (r: Course)
    ensures r.status == Published && r.publishedAt == Some(now)
    ensures r.id == course.id && r.title == course.title && r.description == course.description
    ensures r.instructor == course.instructor && r.createdAt == course.createdAt
  {
    course.(status := Published, publishedAt := Some(now))
  }

  /** A course with no tasks at all is refused for its missing types, before continuity is looked at. */
  lemma EmptyCourseMissesTypes(courses: map<CourseId, Course>, tasks: seq<Task>, courseId: CourseId)
    requires courseId in courses && courses[courseId].status == Building
    requires forall i :: 0 <= i < |tasks| ==> tasks[i].course != courseId
    ensures ValidatePublishCourseRequest(courses, tasks, courseId) == Err(Error(BadRequest, MissingActivityTypes))
  {
    assert CountDistinctTypeByCourse(tasks, courseId) == 0;
  }

  /**
   * A course that passes the gate has orders exactly 1..count, provided its
   * orders are distinct and at least 1 (which every admission keeps).
   */
  lemma PublishableIsContiguous(courses: map<CourseId, Course>, tasks: seq<Task>, courseId: CourseId)
    requires DistinctOrders(tasks, courseId) && PositiveOrders(tasks, courseId)
    requires ValidatePublishCourseRequest(courses, tasks, courseId).Ok?
    ensures ContiguousOrders(tasks, courseId) && CountByCourse(tasks, courseId) > 0
  {
    ContinuousIffOneToCount(tasks, courseId);
  }

  /**
   * Conversely, a BUILDING course holding all three task types whose orders
   * are 1..count is published.
   */
  lemma ContiguousIsPublishable(courses: map<CourseId, Course>, tasks: seq<Task>, courseId: CourseId)
    requires courseId in courses && courses[courseId].status == Building
    requires AllTypesPresent(tasks, courseId) && ContiguousOrders(tasks, courseId)
    ensures ValidatePublishCourseRequest(courses, tasks, courseId) == Ok(courses[courseId])
  {
    assert CountDistinctTypeByCourse(tasks, courseId) == 3;
    ContiguousMaxIsCount(tasks, courseId);
  }

  /**
   * After a successful publish the course is no longer BUILDING: a second
   * publish is refused, and so is every new task for it.
   */
  lemma PublishIsFinal(courses: map<CourseId, Course>, tasks: seq<Task>, courseId: CourseId, now: Time,
                       statement: string, order: int)
    requires ValidatePublishCourseRequest(courses, tasks, courseId).Ok?
    ensures var after := courses[courseId := MarkPublished(courses[courseId], now)];
      && ValidatePublishCourseRequest(after, tasks, courseId) == Err(Error(BadRequest, CourseNotBuilding))
      && TaskService.ValidateCommonRequirements(after, tasks, courseId, statement, order)
         == Err(Error(BadRequest, CourseNotBuilding))
  {
  }

  // ---------------------------------------------------------------------
  // The instructor lookup

  /**
   * The user registered under `email`, refused when there is none or when
   * that user is not an instructor; both refusals are BAD_REQUEST.
   */
  function ValidateInstructor(users: seq<User>, email: string): (r: Result<User>)
    ensures r == Err(Error(BadRequest, UserNotFound)) <==> forall i :: 0 <= i < |users| ==> users[i].email != email
    ensures r == Err(Error(BadRequest, NotInstructor)) <==>
      exists i :: FirstMatchAt(users, (u: User) => u.email == email, i) && !users[i].IsInstructor()
    ensures r.Ok? <==> exists i :: FirstMatchAt(users, (u: User) => u.email == email, i) && users[i].IsInstructor()
    ensures r.Ok? ==> r.value in users && r.value.email == email && r.value.IsInstructor()
  {
    match FindUser(users, (u: User) => u.email == email)
    case None => Err(Error(BadRequest, UserNotFound))
    case Some(user) =>
      if !user.IsInstructor() then Err(Error(BadRequest, NotInstructor))
      else Ok(user)
  }

  // ---------------------------------------------------------------------
  // The service

  class CourseService {
    const courseStore: CourseStore
    const taskStore: TaskStore

    constructor(courseStore: CourseStore, taskStore: TaskStore)
      ensures this.courseStore == courseStore && this.taskStore == taskStore
    {
      this.courseStore := courseStore;
      this.taskStore := taskStore;
    }

    /**
     * publishCourse: validate, then mark the course published at `now` and
     * save it. A refusal leaves the course table as it was.
     */
    method PublishCourse(courseId: CourseId, now: Time) returns (r: Result<Course>)
      modifies courseStore
      ensures var v := ValidatePublishCourseRequest(old(courseStore.courses), taskStore.tasks, courseId);
        if v.Err? then r == v && courseStore.courses == old(courseStore.courses)
        else r == Ok(MarkPublished(v.value, now)) && courseStore.courses == old(courseStore.courses)[courseId := r.value]
      ensures r.Ok? ==> r.value.status == Published && r.value.publishedAt == Some(now)
    {
      var v := ValidatePublishCourseRequest(courseStore.courses, taskStore.tasks, courseId);
      if v.Err? {
        return v;
      }
      var course := MarkPublished(v.value, now);
      courseStore.courses := courseStore.courses[courseId := course];
      r := Ok(course);
    }
  }
}
