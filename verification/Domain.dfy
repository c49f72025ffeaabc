/**
 * Entities shared by the task, course and report services of the course
 * authoring backend: courses, tasks with their options, users, and the
 * typed rejections that the services raise as HTTP status exceptions.
 */
module Domain {

  datatype Option<+T> = None | Some(value: T) {
    /** Optional.orElse */
    function GetOr(default: T): T {
      if Some? then value else default
    }
  }

  type CourseId = int
  type UserId = int
  /** A LocalDateTime, supplied by the caller instead of read from a clock. */
  type Time = int

  datatype Status = Building | Published
  datatype TaskType = OpenText | SingleChoice | MultipleChoice
  datatype Role = Student | Instructor

  /** One alternative of a choice task; a null text is `None`. */
  datatype OptionReq = OptionReq(text: Option<string>, isCorrect: bool)

  /**
   * A stored task. `course` is the owning course's id; `options` is the
   * typed option list (absent for open-text tasks) in place of its JSON text.
   */
  datatype Task = Task(
    course: CourseId,
    statement: string,
    order: int,
    taskType: TaskType,
    options: Option<seq<OptionReq>>)

  datatype Course = Course(
    id: CourseId,
    title: string,
    description: string,
    instructor: UserId,
    status: Status,
    createdAt: Time,
    publishedAt: Option<Time>)

  datatype User = User(id: UserId, name: string, email: string, role: Role) {
    predicate IsInstructor() { role == Instructor }
  }

  datatype HttpStatus = BadRequest | NotFound

  /** Which rule rejected the request; one kind per distinct message. */
  datatype Reason =
    | CourseNotFound
    | CourseNotBuilding
    | DuplicateStatement
    | InvalidOrder(nextAllowed: int)
    | OptionsMissing
    | OptionCountOutOfRange
    | OptionTextLength
    | OptionEqualsStatement
    | OptionsNotDistinct
    | NotExactlyOneCorrect
    | MissingActivityTypes
    | NonContinuousOrder
    | UserNotFound
    | NotInstructor

  /** A ResponseStatusException: its HTTP status and the rule it reports. */
  datatype Error = Error(status: HttpStatus, reason: Reason)

  datatype Result<+T> = Ok(value: T) | Err(error: Error)

  /** The outcome of a service method that returns nothing or throws. */
  datatype Outcome = Done | Rejected(error: Error)

  /** The course table, keyed by course id. */
  class CourseStore {
    var courses: map<CourseId, Course>

    constructor(courses: map<CourseId, Course>)
      ensures this.courses == courses
    {
      this.courses := courses;
    }
  }

  /** `users[i]` is the first user that `matches` selects. */
  ghost predicate FirstMatchAt(users: seq<User>, matches: User -> bool, i: int) {
    0 <= i < |users| && matches(users[i]) && forall j :: 0 <= j < i ==> !matches(users[j])
  }

  /**
   * The first user that `matches` selects: UserRepository.findById and
   * findByEmail, with `matches` comparing the id or the email.
   */
  function FindUser(users: seq<User>, matches: User -> bool): (r: Option<User>)
    ensures r.None? <==> forall i :: 0 <= i < |users| ==> !matches(users[i])
    ensures r.Some? ==> exists i :: FirstMatchAt(users, matches, i) && users[i] == r.value
  {
    if users == [] then None
    else if matches(users[0]) then
      assert FirstMatchAt(users, matches, 0);
      Some(users[0])
    else
      var r := FindUser(users[1..], matches);
      assert r.Some? ==> exists i :: FirstMatchAt(users, matches, i) && users[i] == r.value by {
        if r.Some? {
          var i :| FirstMatchAt(users[1..], matches, i) && users[1..][i] == r.value;
          forall j | 0 <= j < i + 1 ensures !matches(users[j]) {
            if j > 0 {
              assert users[j] == users[1..][j - 1];
            }
          }
          assert FirstMatchAt(users, matches, i + 1);
        }
      }
      r
  }

  /**
   * Java's String.length(): the number of UTF-16 code units, so a character
   * outside the Basic Multilingual Plane counts twice.
   */
  function Utf16Length(s: string): (n: nat)
    ensures |s| <= n <= 2 * |s|
    ensures n == |s| <==> forall i :: 0 <= i < |s| ==> (s[i] as int) < 0x1_0000
  {
    if s == [] then 0
    else
      var front := s[..|s| - 1];
      assert forall i :: 0 <= i < |front| ==> front[i] == s[i];
      Utf16Length(front) + (if (s[|s| - 1] as int) < 0x1_0000 then 1 else 2)
  }
}
