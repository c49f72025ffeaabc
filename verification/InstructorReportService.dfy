/**
 * The instructor report: one row per course of the instructor with its task
 * count, and the number of those courses that are published, guarded by the
 * user-exists and is-instructor checks.
 */
module InstructorReportService {
  import opened Domain
  import opened TaskRepository

  /** One row of the report. */
  datatype InstructorCourseEntry = InstructorCourseEntry(
    id: CourseId, title: string, status: Status, publishedAt: Option<Time>, taskCount: nat)

  datatype InstructorCoursesReport = InstructorCoursesReport(
    courses: seq<InstructorCourseEntry>, totalPublishedCourses: nat)

  /** Positions of the published courses in the list. */
  ghost function PublishedIndices(courses: seq<Course>): set<int> {
    set i | 0 <= i < |courses| && courses[i].status == Published
  }

  /**
   * The user with id `instructorId`: NOT_FOUND when there is none,
   * BAD_REQUEST when that user is not an instructor.
   */
  function ValidateReportRequest(users: seq<User>, instructorId: UserId): (r: Result<User>)
    ensures r == Err(Error(NotFound, UserNotFound)) <==> forall i :: 0 <= i < |users| ==> users[i].id != instructorId
    ensures r == Err(Error(BadRequest, NotInstructor)) <==>
      exists i :: FirstMatchAt(users, (u: User) => u.id == instructorId, i) && !users[i].IsInstructor()
    ensures r.Ok? <==> exists i :: FirstMatchAt(users, (u: User) => u.id == instructorId, i) && users[i].IsInstructor()
    ensures r.Ok? ==> r.value in users && r.value.id == instructorId && r.value.IsInstructor()
  {
    match FindUser(users, (u: User) => u.id == instructorId)
    case None => Err(Error(NotFound, UserNotFound))
    case Some(user) =>
      if !user.IsInstructor() then Err(Error(BadRequest, NotInstructor))
      else Ok(user)
  }

  /** The number of published courses in the list (the filter-and-count stream). */
  function CountPublished(courses: seq<Course>): (n: nat)
    ensures n == |PublishedIndices(courses)|
    ensures n <= |courses|
  {
    if courses == [] then 0
    else
      var front := Front(courses);
      assert PublishedIndices(courses) ==
        PublishedIndices(front) + (if Last(courses).status == Published then {|front|} else {}) by {
        forall i | i in PublishedIndices(courses) && i != |front|
          ensures i in PublishedIndices(front)
        {
          assert courses[i] == front[i];
        }
        forall i | i in PublishedIndices(front) ensures i in PublishedIndices(courses) {
          assert courses[i] == front[i];
        }
      }
      assert |front| !in PublishedIndices(front);
      CountPublished(front) + (if Last(courses).status == Published then 1 else 0)
  }

  /** The report row of one course. */
  function Entry(course: Course, tasks: seq<Task>): (e: InstructorCourseEntry)
    ensures e.id == course.id && e.title == course.title
    ensures e.status == course.status && e.publishedAt == course.publishedAt
    ensures e.taskCount == |TasksOf(tasks, course.id)|
  {
    InstructorCourseEntry(course.id, course.title, course.status, course.publishedAt, CountByCourse(tasks, course.id))
  }

  /**
   * The rows for the instructor's courses, in list order, and the number of
   * published ones.
   */
  function GetCountInstructorCourses(courses: seq<Course>, tasks: seq<Task>): (r: InstructorCoursesReport)
    ensures |r.courses| == |courses|
    ensures forall i :: 0 <= i < |courses| ==>
      && r.courses[i].id == courses[i].id && r.courses[i].title == courses[i].title
      && r.courses[i].status == courses[i].status && r.courses[i].publishedAt == courses[i].publishedAt
      && r.courses[i].taskCount == CountByCourse(tasks, courses[i].id)
    ensures r.totalPublishedCourses == |PublishedIndices(courses)|
    ensures r.totalPublishedCourses <= |r.courses|
    ensures courses == [] ==> r == InstructorCoursesReport([], 0)
  {
    var entries := seq(|courses|, i requires 0 <= i < |courses| => Entry(courses[i], tasks));
    InstructorCoursesReport(entries, CountPublished(courses))
  }

  /** The published total is also the number of rows that say PUBLISHED. */
  lemma TotalMatchesRows(courses: seq<Course>, tasks: seq<Task>)
    ensures var r := GetCountInstructorCourses(courses, tasks);
      r.totalPublishedCourses == |set i | 0 <= i < |r.courses| && r.courses[i].status == Published|
  {
    var r := GetCountInstructorCourses(courses, tasks);
    assert (set i | 0 <= i < |r.courses| && r.courses[i].status == Published) == PublishedIndices(courses);
  }

  /**
   * getInstructorCoursesReport: validate the user, then build the report
   * over `instructorCourses`, the courses findByInstructor returns for them.
   */
  function GetInstructorCoursesReport(users: seq<User>, instructorCourses: seq<Course>, tasks: seq<Task>,
                                      instructorId: UserId): (r: Result<InstructorCoursesReport>)
    ensures (forall i :: 0 <= i < |users| ==> users[i].id != instructorId) ==>
      r == Err(Error(NotFound, UserNotFound))
    ensures r.Err? <==> ValidateReportRequest(users, instructorId).Err?
    ensures r.Err? ==> r.error == ValidateReportRequest(users, instructorId).error
    ensures r.Ok? ==> exists i :: 0 <= i < |users| && users[i].id == instructorId && users[i].IsInstructor()
    ensures r.Ok? ==> r.value == GetCountInstructorCourses(instructorCourses, tasks)
    ensures r.Ok? ==> |r.value.courses| == |instructorCourses|
    ensures r.Ok? ==> r.value.totalPublishedCourses == |PublishedIndices(instructorCourses)|
  {
    match ValidateReportRequest(users, instructorId)
    case Err(e) => Err(e)
    case Ok(_) => Ok(GetCountInstructorCourses(instructorCourses, tasks))
  }
}
