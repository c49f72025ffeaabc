# AluraFake course authoring — a Dafny model

AluraFake is a course-authoring backend. Instructors create courses and add
graded activities ("tasks") of three kinds: open text, single choice and
multiple choice. Each task sits at an integer order within its course. A
course is published only once it meets structural requirements.

This project models the part of the backend with real rules:

- **Task admission** (`TaskService`). A new task passes an ordered chain of
  checks: the course exists, it is BUILDING, the statement is new in the
  course, and the order is at most the largest order + 1. Single-choice
  tasks also have their options checked. Every task of the course at or
  above the requested order then moves one position up, and the new task
  is stored at that order.
- **The task table's queries** (`TaskRepository`). Exists-by-statement, max
  order, the tasks at or above an order in descending order, the task count
  and the distinct-type count. Each is a pure function over the table.
- **Course publication** (`CourseService`). BUILDING becomes PUBLISHED once
  the course holds all three task types and its orders pass the "1, 2,
  3..." check. The instructor lookup used when a course is created is also
  modelled.
- **The instructor report** (`InstructorReportService`). One row per course
  of the instructor, with its task count, and the number of published
  courses.

## How the model is built

- Modules follow the services: `Domain`, `TaskRepository`, `TaskService`,
  `CourseService` and `InstructorReportService`.
- **Stores.** The course table is a class, `CourseStore`, whose field is a
  `map<CourseId, Course>`. The task table is a class, `TaskStore`, whose
  field is a `seq<Task>`.
- **Task identity.** A task is identified by its index in the task table.
  The descending query therefore returns indices, and the shift loop
  updates the table at those indices, one task at a time.
- **Rejections.** Every `ResponseStatusException` becomes a value
  `Error(status, reason)`: `status` is the HTTP class, and `reason` is one
  kind per distinct message. Validations return `Result`, and
  service methods that return nothing return `Outcome`.
- **Imperative parts.** The source's step-by-step code is written as
  methods with `modifies`: `shiftTasksForNewOrder`, `persistTask`, the two
  `create…Task` methods and `publishCourse`. Each is proved against a
  function of the old state.
  - `Shifted` specifies the shift, and the loop is proved to produce it.
  - `Admitted` is shift then append. The admission methods end in that
    table, or leave the table untouched when a check fails.
- **Course invariant.** A course's orders are exactly 1..count and its
  statements are unique. Every admission keeps this invariant, for the
  course it touches and for every other course.
- **Publication check.** Continuity is proved to mean what its message
  says: with distinct orders of at least 1, "count equals max order" holds
  exactly when the orders are 1..count. Without distinct orders the check
  is weaker: orders 1, 3, 3 pass. The model follows the code here, although
  the rejection message "Activity orders are not continuous (e.g., 1, 2,
  3...)" (CourseService.java:73) reads as if the two were equivalent.
  - The invariant above, which every admission keeps, supplies the
    distinctness, so in every table built by admissions the check means
    1..count.

## Model

| member | source | states |
|---|---|---|
| `Domain.FindUser` | src/main/java/br/com/alura/AluraFake/course/CourseService.java:89 | the lookup by email (and, in the report, by id) gives nothing iff no user matches, and otherwise the first matching user in the table |
| `TaskRepository.ExistsByCourseAndStatement` | src/main/java/br/com/alura/AluraFake/task/TaskRepository.java:13 | true iff some task of the course has exactly that statement (exact string equality) |
| `TaskRepository.FindMaxOrderByCourse` | src/main/java/br/com/alura/AluraFake/task/TaskRepository.java:15-16 | empty iff the course has no tasks; when present it bounds every order of the course and is the order of one of its tasks |
| `TaskRepository.FindByCourseAndOrderGreaterThanEqualOrderByOrderDesc` | src/main/java/br/com/alura/AluraFake/task/TaskRepository.java:18-22 | exactly the course's tasks with order >= the threshold, each once, in non-increasing order |
| `TaskRepository.CountByCourse` | src/main/java/br/com/alura/AluraFake/course/CourseService.java:79 | the number of the course's tasks: 0 iff it has none, and the length of the course's task list |
| `TaskRepository.CountDistinctTypeByCourse` | src/main/java/br/com/alura/AluraFake/course/CourseService.java:62 | at most 3; 3 iff the course has a task of every type; 0 iff it has no tasks |
| `TaskRepository.OtherCoursesDoNotMatter` | src/main/java/br/com/alura/AluraFake/task/TaskRepository.java:13-22 | two tables with the same tasks for a course give the same exists, max, count and distinct-type answers for it, whatever other courses hold |
| `TaskRepository.MaxOrderOrZero` | src/main/java/br/com/alura/AluraFake/task/TaskService.java:69 | `findMaxOrderByCourse(course).orElse(0)`: 0 for a course without tasks; otherwise an upper bound of the course's orders that one of its tasks attains |
| `TaskRepository.ContiguousMaxIsCount` | src/main/java/br/com/alura/AluraFake/task/TaskService.java:69-70 | when a course's orders are exactly 1..count, the max order (0 if absent) equals the count |
| `TaskService.ValidateCommonRequirements` | src/main/java/br/com/alura/AluraFake/task/TaskService.java:50-77 | first failure wins: unknown course, not BUILDING, duplicate statement, then an order above max + 1, which reports max + 1 (1 for an empty course); all BAD_REQUEST; passes iff all four hold, returning the course |
| `TaskService.ValidateSingleChoiceOptions` | src/main/java/br/com/alura/AluraFake/task/TaskService.java:87-135 | accepts iff options present, 2..5 of them, every text present with a length() of 4..80 UTF-16 units and unlike the statement, texts pairwise distinct, exactly one correct; each rejection is given iff the checks before it pass and its own fails |
| `Domain.Utf16Length` | src/main/java/br/com/alura/AluraFake/task/TaskService.java:103 | String.length(): between the number of characters and twice it, equal to it iff every character lies in the Basic Multilingual Plane |
| `TaskService.SupplementaryCharactersCountTwice` | src/main/java/br/com/alura/AluraFake/task/TaskService.java:101-114 | an option of two emoji measures 4 UTF-16 units and passes the length check, as in Java |
| `TaskService.FirstTextError` | src/main/java/br/com/alura/AluraFake/task/TaskService.java:101-114 | the per-option loop reports the length error or the equals-statement error of the first failing option, and nothing iff every option passes |
| `TaskService.DistinctTextCount` | src/main/java/br/com/alura/AluraFake/task/TaskService.java:116-119 | the number of distinct option texts, a missing text counting as one value: 0 iff there are no options, and every option's text is among those counted |
| `TaskService.CorrectCount` | src/main/java/br/com/alura/AluraFake/task/TaskService.java:127-129 | the number of options marked correct: at most the number of options, and 0 iff none is marked correct |
| `TaskService.DistinctTextCountIsLength` | src/main/java/br/com/alura/AluraFake/task/TaskService.java:116-125 | the distinct-text count equals the number of options iff the texts are pairwise distinct |
| `TaskService.CorrectCountIsOne` | src/main/java/br/com/alura/AluraFake/task/TaskService.java:127-135 | the correct-count is 1 iff exactly one option is correct |
| `TaskService.TaskService.CreateOpenTextTask` | src/main/java/br/com/alura/AluraFake/task/TaskService.java:36-40 | the outcome is that of the common checks; a rejection leaves the table unchanged; a success leaves the shifted table plus the new open-text task without options; every course invariant is kept |
| `TaskService.TaskService.CreateSingleChoiceTask` | src/main/java/br/com/alura/AluraFake/task/TaskService.java:42-48 | the common checks, then the option checks, decide the outcome; a rejection leaves the table unchanged; a success leaves the shifted table plus the new single-choice task with its options; every course invariant is kept |
| `TaskService.TaskService.CreateMultipleChoiceTask` | src/main/java/br/com/alura/AluraFake/task/TaskService.java:161-162 | the method body is empty: the table is unchanged |
| `TaskService.TaskService.ShiftTasksForNewOrder` | src/main/java/br/com/alura/AluraFake/task/TaskService.java:79-85 | the table afterwards is the old one with exactly the course's tasks at order >= newOrder moved up by one |
| `TaskService.TaskService.PersistTask` | src/main/java/br/com/alura/AluraFake/task/TaskService.java:148-158 | the table gains exactly one task with the given course, statement, order, type and options, at its end |
| `TaskService.ShiftStepKeepsDistinct` | src/main/java/br/com/alura/AluraFake/task/TaskService.java:80-83 | moving the fetched tasks up one at a time, highest order first, keeps the course's orders pairwise distinct after every single move |
| `TaskService.ShiftedKeepsCounts` | src/main/java/br/com/alura/AluraFake/task/TaskService.java:79-85 | the shift changes no course's task count |
| `TaskService.AdmittedAddsOneTask` | src/main/java/br/com/alura/AluraFake/task/TaskService.java:37-39 | an admission adds one task with the requested fields; the course's count grows by one and other courses' counts stay; tasks of other courses and tasks below the order are untouched; the course's tasks at or above it move up by one |
| `TaskService.AdmittedKeepsOrdersDistinct` | src/main/java/br/com/alura/AluraFake/task/TaskService.java:79-85 | distinct orders in the course stay distinct after shift and insert |
| `TaskService.AdmittedKeepsStatementsUnique` | src/main/java/br/com/alura/AluraFake/task/TaskService.java:62-67 | a statement not yet taken keeps the course's statements unique |
| `TaskService.AdmittedKeepsContiguity` | src/main/java/br/com/alura/AluraFake/task/TaskService.java:69-75 | orders exactly 1..m and an order in 1..m+1 give orders exactly 1..m+1 after the admission |
| `TaskService.AdmittedKeepsOtherCourses` | src/main/java/br/com/alura/AluraFake/task/TaskService.java:79-85 | an admission to one course leaves another course's invariant as it was |
| `TaskService.AdmissionPreservesCourseInvariant` | src/main/java/br/com/alura/AluraFake/task/TaskService.java:50-85 | an admission that passes the common checks keeps the course's orders exactly 1..count and its statements unique |
| `TaskService.AdmissionPreservesAllInvariants` | src/main/java/br/com/alura/AluraFake/task/TaskService.java:36-48 | when every course satisfies the invariant, every course still does after an admission that passes the common checks |
| `CourseService.IsOrderSequenceContinuous` | src/main/java/br/com/alura/AluraFake/course/CourseService.java:78-86 | true iff the course has tasks and its count is the order of some task and bounds every order of the course (count equals the max order) |
| `CourseService.ContinuousIffOneToCount` | src/main/java/br/com/alura/AluraFake/course/CourseService.java:69-86 | with distinct orders of at least 1, the check passes iff the course is non-empty and its orders are exactly 1..count |
| `CourseService.DuplicateOrdersPassContinuity` | src/main/java/br/com/alura/AluraFake/course/CourseService.java:78-86 | orders 1, 3, 3 pass the check although they are not 1..3 |
| `CourseService.ValidatePublishCourseRequest` | src/main/java/br/com/alura/AluraFake/course/CourseService.java:50-76 | first failure wins: unknown course is NOT_FOUND; not BUILDING, missing a task type, then non-continuous orders are BAD_REQUEST; passes iff all hold, returning the course |
| `CourseService.MarkPublished` | src/main/java/br/com/alura/AluraFake/course/CourseService.java:44-45 | status becomes PUBLISHED and publishedAt the given time; id, title, description, instructor and createdAt are unchanged |
| `CourseService.EmptyCourseMissesTypes` | src/main/java/br/com/alura/AluraFake/course/CourseService.java:62-67 | a BUILDING course with no tasks is refused for missing types, before continuity is looked at |
| `CourseService.GapIsRejected` | src/main/java/br/com/alura/AluraFake/course/CourseService.java:69-74 | a BUILDING course with one task of each type at orders 1, 2, 4 is refused as non-continuous |
| `CourseService.PublishableIsContiguous` | src/main/java/br/com/alura/AluraFake/course/CourseService.java:50-76 | a course that passes the gate, with distinct orders of at least 1, is non-empty with orders exactly 1..count |
| `CourseService.ContiguousIsPublishable` | src/main/java/br/com/alura/AluraFake/course/CourseService.java:50-76 | a BUILDING course with every task type and orders exactly 1..count passes the gate |
| `CourseService.PublishIsFinal` | src/main/java/br/com/alura/AluraFake/course/CourseService.java:56-60 | after a successful publish, publishing again and adding a task are both refused as not BUILDING |
| `CourseService.ValidateInstructor` | src/main/java/br/com/alura/AluraFake/course/CourseService.java:88-102 | BAD_REQUEST user-not-found iff no user has the email; BAD_REQUEST not-instructor iff the first user with it is not an instructor; otherwise it returns that user, an instructor |
| `CourseService.CourseService.PublishCourse` | src/main/java/br/com/alura/AluraFake/course/CourseService.java:41-48 | a refusal returns the gate's error and leaves the course table unchanged; a success stores and returns the course marked published at the given time, changing only that entry |
| `InstructorReportService.ValidateReportRequest` | src/main/java/br/com/alura/AluraFake/user/InstructorReportService.java:64-76 | NOT_FOUND iff no user has the id; BAD_REQUEST iff the user with that id is not an instructor; otherwise it returns that user, an instructor |
| `InstructorReportService.CountPublished` | src/main/java/br/com/alura/AluraFake/user/InstructorReportService.java:55-57 | the number of positions in the course list holding a published course, at most the list's length |
| `InstructorReportService.Entry` | src/main/java/br/com/alura/AluraFake/user/InstructorReportService.java:43-51 | the row copies id, title, status and publishedAt, and counts the course's tasks |
| `InstructorReportService.GetCountInstructorCourses` | src/main/java/br/com/alura/AluraFake/user/InstructorReportService.java:39-59 | one row per course in list order, with copied fields and the course's task count; the total is the number of published courses and at most the number of rows; no courses give no rows and 0 |
| `InstructorReportService.TotalMatchesRows` | src/main/java/br/com/alura/AluraFake/user/InstructorReportService.java:55-57 | the published total equals the number of rows whose status is PUBLISHED |
| `InstructorReportService.GetInstructorCoursesReport` | src/main/java/br/com/alura/AluraFake/user/InstructorReportService.java:33-37 | an unknown id is NOT_FOUND; the report is refused exactly when the user check refuses, with its error; when given, the user is an instructor and the report has one row per course and the published total |

## Left out

- **JSON encoding of the options.** `convertOptionsToJson` and its
  INTERNAL_SERVER_ERROR path are not modelled. Tasks store the typed
  option list, so that failure cannot occur. The code calls it after the
  shift, and the service is not transactional; the model treats each
  admission as atomic.
- **Messages.** The rejection messages are not modelled, including the
  Portuguese texts and the current status in the not-BUILDING message.
  The reason kind stands for each message. The next allowed order in the
  invalid-order message is kept.
- **Multiple-choice rules.** `createMultipleChoiceTask` has an empty body
  in the code, so it is modelled as doing nothing. The rules described
  for it are not implemented in the code and are not modelled:
  - 3..5 options;
  - at least two correct;
  - at least one incorrect.
- **Clock and generated fields.** `LocalDateTime.now()` is a parameter
  `now`. Task ids, task creation times and course creation times are not
  generated. Course creation is not modelled.
- **Repositories outside the task table.** These are modelled as plain
  lookups, and their code is not part of this model:
  - `courseRepository.findById` is a map lookup;
  - `userRepository.findById` and `findByEmail` are one first-match
    search over a user list, `FindUser`;
  - `findByInstructor` is left out: the report takes the instructor's
    course list as a parameter, in repository order.
- **Persistence mechanics.** `save`, `saveAll` and transactions are left
  out; each service method is one sequential step on the in-memory tables.
  The shift updates the table in place, so `saveAll` has nothing left to
  do.
- **Task-table queries not in the repository file.** `countByCourse` and
  `countDistinctTypeByCourse` are not declared in the repository file.
  They are defined the natural way: the course's number of tasks, and the
  number of distinct types among them.
- **Bean validation.** The request bounds are taken as a precondition of
  the admission methods (`WellFormed`): order >= 1 and a statement of
  4..255 UTF-16 units.
- **Null option fields.** Every element of the option list and every
  `isCorrect` flag is taken as non-null: `OptionReq.isCorrect` is a `bool`
  and the list holds no missing element. `@NotNull` on `isCorrect` is not
  applied to list elements, since the options field carries no `@Valid`.
  The NullPointerExceptions that a null element raises at
  TaskService.java:102 and a null `isCorrect` raises at
  TaskService.java:128 are therefore not modelled. A missing option text
  is modelled.
- **Statement equality.** `existsByCourseAndStatement` is modelled as exact
  string equality. The database collation, which may compare case- or
  accent-insensitively, is not part of this model.
- **Integer widths.** The orders (`Integer`) and counts (`Long`) are
  unbounded integers. The overflow of max order + 1 at 2^31 - 1 is not
  modelled.
- **Everything outside the services.** Controllers, DTO and response
  classes are left out, as are `createCourse`, `toCourseResponse` and
  `getAllCourses`; they are routing and field copies.
  `publishCourse` returns the published course itself in place of its
  response copy.
- TaskRepository.OtherCoursesDoNotMatter: covers the exists, max, count
  and distinct-type queries. It does not cover the descending query,
  whose result here is a list of table positions, which differ between
  two tables.
