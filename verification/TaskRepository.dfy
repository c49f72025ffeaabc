/**
 * The task table and the queries the services run against it. Each query
 * is a pure function over the table, a `seq<Task>`; a task's index in the
 * table is its identity, so a query that returns entities returns indices.
 */
module TaskRepository {
  import opened Domain

  /** The task table, mutated only through the task service. */
  class TaskStore {
    var tasks: seq<Task>

    constructor(tasks: seq<Task>)
      ensures this.tasks == tasks
    {
      this.tasks := tasks;
    }
  }

  // ---------------------------------------------------------------------
  // Reference definitions the queries are proved against

  /** The set of orders held by the tasks of course `c`. */
  ghost function OrderSet(tasks: seq<Task>, c: CourseId): set<int> {
    set i | 0 <= i < |tasks| && tasks[i].course == c :: tasks[i].order
  }

  /** No two tasks of course `c` share an order. */
  ghost predicate DistinctOrders(tasks: seq<Task>, c: CourseId) {
    forall i, j ::
      (0 <= i < |tasks| && 0 <= j < |tasks| && i != j && tasks[i].course == c && tasks[j].course == c)
      ==> tasks[i].order != tasks[j].order
  }

  /** The integers 1..m. */
  ghost function OneTo(m: int): (r: set<int>)
    ensures forall k :: k in r <==> 1 <= k <= m
    ensures |r| == if m < 0 then 0 else m
  {
    if m <= 0 then {} else OneTo(m - 1) + {m}
  }

  /** The orders of course `c` are exactly 1..count, each held by one task. */
  ghost predicate ContiguousOrders(tasks: seq<Task>, c: CourseId) {
    DistinctOrders(tasks, c) && OrdersOneTo(tasks, c, CountByCourse(tasks, c))
  }

  /** The orders of course `c` are exactly 1..m. */
  ghost predicate OrdersOneTo(tasks: seq<Task>, c: CourseId, m: int) {
    forall x :: x in OrderSet(tasks, c) <==> 1 <= x <= m
  }

  /** No two tasks of course `c` share a statement. */
  ghost predicate UniqueStatements(tasks: seq<Task>, c: CourseId) {
    forall i, j ::
      (0 <= i < |tasks| && 0 <= j < |tasks| && i != j && tasks[i].course == c && tasks[j].course == c)
      ==> tasks[i].statement != tasks[j].statement
  }

  /** Every one of the three task types occurs among the tasks of `c`. */
  ghost predicate AllTypesPresent(tasks: seq<Task>, c: CourseId) {
    && (exists i :: 0 <= i < |tasks| && tasks[i].course == c && tasks[i].taskType == OpenText)
    && (exists i :: 0 <= i < |tasks| && tasks[i].course == c && tasks[i].taskType == SingleChoice)
    && (exists i :: 0 <= i < |tasks| && tasks[i].course == c && tasks[i].taskType == MultipleChoice)
  }

  /** The tasks of course `c`, in table order. */
  function TasksOf(tasks: seq<Task>, c: CourseId): (r: seq<Task>)
    ensures forall t :: t in r <==> t in tasks && t.course == c
  {
    if tasks == [] then []
    else TasksOf(Front(tasks), c) + (if Last(tasks).course == c then [Last(tasks)] else [])
  }

  function Front<T>(s: seq<T>): seq<T>
    requires s != []
  {
    s[..|s| - 1]
  }

  function Last<T>(s: seq<T>): T
    requires s != []
  {
    s[|s| - 1]
  }

  // ---------------------------------------------------------------------
  // The queries

  /** existsByCourseAndStatement (exact, case-sensitive match). */
  function ExistsByCourseAndStatement(tasks: seq<Task>, c: CourseId, statement: string): (b: bool)
    ensures b <==> exists i :: 0 <= i < |tasks| && tasks[i].course == c && tasks[i].statement == statement
  {
    if tasks == [] then false
    else
      ExistsByCourseAndStatement(Front(tasks), c, statement) ||
      (Last(tasks).course == c && Last(tasks).statement == statement)
  }

  /** SELECT MAX(t.order) FROM Task t WHERE t.course = :course */
  function FindMaxOrderByCourse(tasks: seq<Task>, c: CourseId): (m: Option<int>)
    ensures m.None? <==> forall i :: 0 <= i < |tasks| ==> tasks[i].course != c
    ensures m.Some? ==> forall i :: 0 <= i < |tasks| && tasks[i].course == c ==> tasks[i].order <= m.value
    ensures m.Some? ==> exists i :: 0 <= i < |tasks| && tasks[i].course == c && tasks[i].order == m.value
  {
    if tasks == [] then None
    else
      var rest := FindMaxOrderByCourse(Front(tasks), c);
      var t := Last(tasks);
      if t.course != c then rest
      else if rest.Some? && t.order <= rest.value then rest
      else Some(t.order)
  }

  /** `findMaxOrderByCourse(course).orElse(0)`, as both services read it. */
  function MaxOrderOrZero(tasks: seq<Task>, c: CourseId): (r: int)
    ensures (forall i :: 0 <= i < |tasks| ==> tasks[i].course != c) ==> r == 0
    ensures forall i :: 0 <= i < |tasks| && tasks[i].course == c ==> tasks[i].order <= r
    ensures (exists i :: 0 <= i < |tasks| && tasks[i].course == c) ==>
              exists i :: 0 <= i < |tasks| && tasks[i].course == c && tasks[i].order == r
  {
    FindMaxOrderByCourse(tasks, c).GetOr(0)
  }

  /** countByCourse: the number of tasks of course `c`. */
  function CountByCourse(tasks: seq<Task>, c: CourseId): (n: nat)
    ensures n <= |tasks|
    ensures n == 0 <==> forall i :: 0 <= i < |tasks| ==> tasks[i].course != c
    ensures n == |TasksOf(tasks, c)|
  {
    if tasks == [] then 0
    else CountByCourse(Front(tasks), c) + (if Last(tasks).course == c then 1 else 0)
  }

  /** countDistinctTypeByCourse: how many distinct task types course `c` has. */
  function CountDistinctTypeByCourse(tasks: seq<Task>, c: CourseId): (n: nat)
    ensures n <= 3
    ensures n == 3 <==> AllTypesPresent(tasks, c)
    ensures n == 0 <==> forall i :: 0 <= i < |tasks| ==> tasks[i].course != c
  {
    var types := set i | 0 <= i < |tasks| && tasks[i].course == c :: tasks[i].taskType;
    TypeSetSize(types);
    assert (exists i :: 0 <= i < |tasks| && tasks[i].course == c) ==> types != {} by {
      if i :| 0 <= i < |tasks| && tasks[i].course == c {
        assert tasks[i].taskType in types;
      }
    }
    |types|
  }

  lemma TypeSetSize(types: set<TaskType>)
    ensures |types| <= 3
    ensures |types| == 3 <==> OpenText in types && SingleChoice in types && MultipleChoice in types
  {
    var all := {OpenText, SingleChoice, MultipleChoice};
    assert types <= all by {
      forall ty | ty in types ensures ty in all {
        match ty
        case OpenText =>
        case SingleChoice =>
        case MultipleChoice =>
      }
    }
    SubsetSize(types, all);
    if OpenText !in types {
      SubsetSize(types, {SingleChoice, MultipleChoice});
    } else if SingleChoice !in types {
      SubsetSize(types, {OpenText, MultipleChoice});
    } else if MultipleChoice !in types {
      SubsetSize(types, {OpenText, SingleChoice});
    } else {
      assert types == all;
    }
  }

  /** A subset is no larger than its superset, and equal size means equal. */
  lemma SubsetSize<T>(a: set<T>, b: set<T>)
    requires a <= b
    ensures |a| <= |b|
    ensures |a| == |b| ==> a == b
  {
    assert b == a + (b - a);
    if a != b {
      var x :| x in b && x !in a;
      assert x in b - a;
    }
  }

  /**
   * SELECT t FROM Task t WHERE t.course = :course AND t.order >= :order
   * ORDER BY t.order DESC -- as the indices of those tasks in the table.
   */
  function FindByCourseAndOrderGreaterThanEqualOrderByOrderDesc(tasks: seq<Task>, c: CourseId, n: int): (r: seq<nat>)
    ensures forall k :: 0 <= k < |r| ==> r[k] < |tasks| && tasks[r[k]].course == c && tasks[r[k]].order >= n
    ensures forall i :: 0 <= i < |tasks| && tasks[i].course == c && tasks[i].order >= n ==> i in r
    ensures Distinct(r)
    ensures SortedDesc(tasks, r)
  {
    SortDesc(tasks, Matching(tasks, c, n))
  }

  predicate Distinct(s: seq<nat>) {
    forall k, l :: 0 <= k < l < |s| ==> s[k] != s[l]
  }

  predicate Indices(tasks: seq<Task>, s: seq<nat>) {
    forall k :: 0 <= k < |s| ==> s[k] < |tasks|
  }

  /** The tasks at the indices `s` have non-increasing orders. */
  predicate SortedDesc(tasks: seq<Task>, s: seq<nat>)
    requires Indices(tasks, s)
  {
    forall k, l :: 0 <= k < l < |s| ==> tasks[s[k]].order >= tasks[s[l]].order
  }

  /** The indices of the matching tasks, ascending. */
  function Matching(tasks: seq<Task>, c: CourseId, n: int): (r: seq<nat>)
    ensures Indices(tasks, r) && Distinct(r)
    ensures forall i :: i in r <==> 0 <= i < |tasks| && tasks[i].course == c && tasks[i].order >= n
  {
    if tasks == [] then []
    else
      var rest := Matching(Front(tasks), c, n);
      var t := Last(tasks);
      if t.course == c && t.order >= n then rest + [|tasks| - 1] else rest
  }

  /** Insertion sort of the indices `s` by descending order. */
  function SortDesc(tasks: seq<Task>, s: seq<nat>): (r: seq<nat>)
    requires Indices(tasks, s) && Distinct(s)
    ensures Indices(tasks, r) && Distinct(r) && SortedDesc(tasks, r)
    ensures forall i :: i in r <==> i in s
  {
    if s == [] then []
    else InsertDesc(tasks, Last(s), SortDesc(tasks, Front(s)))
  }

  function InsertDesc(tasks: seq<Task>, i: nat, s: seq<nat>): (r: seq<nat>)
    requires i < |tasks| && Indices(tasks, s) && Distinct(s) && SortedDesc(tasks, s)
    requires i !in s
    ensures Indices(tasks, r) && Distinct(r) && SortedDesc(tasks, r)
    ensures forall x :: x in r <==> x in s || x == i
  {
    if s == [] then [i]
    else if tasks[i].order >= tasks[s[0]].order then [i] + s
    else
      var rest := InsertDesc(tasks, i, s[1..]);
      assert forall x :: x in s[1..] ==> x != s[0] && tasks[s[0]].order >= tasks[x].order by {
        forall x | x in s[1..] ensures x != s[0] && tasks[s[0]].order >= tasks[x].order {
          var k :| 0 <= k < |s[1..]| && s[1..][k] == x;
          assert s[k + 1] == x;
        }
      }
      assert forall k :: 0 <= k < |rest| ==> rest[k] != s[0] && tasks[s[0]].order >= tasks[rest[k]].order by {
        forall k | 0 <= k < |rest| ensures rest[k] != s[0] && tasks[s[0]].order >= tasks[rest[k]].order {
          assert rest[k] in rest;
        }
      }
      ConsDesc(tasks, s[0], rest);
      [s[0]] + rest
  }

  /** A new head index, distinct from the rest and of the highest order, keeps the list sorted. */
  lemma ConsDesc(tasks: seq<Task>, h: nat, rest: seq<nat>)
    requires h < |tasks| && Indices(tasks, rest) && Distinct(rest) && SortedDesc(tasks, rest)
    requires forall k :: 0 <= k < |rest| ==> rest[k] != h && tasks[h].order >= tasks[rest[k]].order
    ensures Indices(tasks, [h] + rest) && Distinct([h] + rest) && SortedDesc(tasks, [h] + rest)
  {
    var r := [h] + rest;
    assert forall k :: 1 <= k < |r| ==> r[k] == rest[k - 1];
  }

  // ---------------------------------------------------------------------
  // Properties of the queries

  /** A task of course `c` contributes its order to the course's order set. */
  lemma OrderInSet(tasks: seq<Task>, c: CourseId, i: int)
    requires 0 <= i < |tasks| && tasks[i].course == c
    ensures tasks[i].order in OrderSet(tasks, c)
  {
  }

  /** A task of course `c` holding a given order of its order set. */
  lemma OrderWitness(tasks: seq<Task>, c: CourseId, k: int) returns (i: int)
    requires k in OrderSet(tasks, c)
    ensures 0 <= i < |tasks| && tasks[i].course == c && tasks[i].order == k
  {
    i :| 0 <= i < |tasks| && tasks[i].course == c && tasks[i].order == k;
  }

  /** Orders 1..m are all the course's orders, so their maximum is m (or absent when m = 0). */
  lemma ContiguousMaxIsCount(tasks: seq<Task>, c: CourseId)
    requires ContiguousOrders(tasks, c)
    ensures MaxOrderOrZero(tasks, c) == CountByCourse(tasks, c)
  {
    var m := CountByCourse(tasks, c);
    var mx := FindMaxOrderByCourse(tasks, c);
    if m > 0 {
      assert m in OrderSet(tasks, c);
      var i :| 0 <= i < |tasks| && tasks[i].course == c && tasks[i].order == m;
      var j :| 0 <= j < |tasks| && tasks[j].course == c && tasks[j].order == mx.value;
      assert tasks[j].order in OrderSet(tasks, c);
    }
  }

  /** With distinct orders, a course has as many orders as it has tasks. */
  lemma {:induction false} OrderSetSize(tasks: seq<Task>, c: CourseId)
    requires DistinctOrders(tasks, c)
    ensures |OrderSet(tasks, c)| == CountByCourse(tasks, c)
  {
    if tasks != [] {
      var front, t := Front(tasks), Last(tasks);
      assert DistinctOrders(front, c) by {
        forall i, j | 0 <= i < |front| && 0 <= j < |front| && i != j && front[i].course == c && front[j].course == c
          ensures front[i].order != front[j].order
        {
          assert tasks[i] == front[i] && tasks[j] == front[j];
        }
      }
      OrderSetSize(front, c);
      OrderSetSplit(tasks, c);
      if t.course == c {
        forall i | 0 <= i < |front| && front[i].course == c ensures front[i].order != t.order {
          assert tasks[i] == front[i] && tasks[|tasks| - 1] == t;
        }
      }
    }
  }

  /** The orders of a table are those of its front plus that of its last task. */
  lemma OrderSetSplit(tasks: seq<Task>, c: CourseId)
    requires tasks != []
    ensures OrderSet(tasks, c) ==
      OrderSet(Front(tasks), c) + (if Last(tasks).course == c then {Last(tasks).order} else {})
  {
    var front := Front(tasks);
    forall x | x in OrderSet(tasks, c)
      ensures x in OrderSet(front, c) || (Last(tasks).course == c && x == Last(tasks).order)
    {
      var i :| 0 <= i < |tasks| && tasks[i].course == c && tasks[i].order == x;
      if i < |front| {
        assert front[i] == tasks[i];
      }
    }
    forall x | x in OrderSet(front, c) ensures x in OrderSet(tasks, c) {
      var i :| 0 <= i < |front| && front[i].course == c && front[i].order == x;
      assert tasks[i] == front[i];
    }
  }

  /**
   * Tasks of other courses never affect the queries: two tables that hold
   * the same tasks for course `c` answer every query about `c` alike.
   */
  lemma OtherCoursesDoNotMatter(tasks: seq<Task>, tasks': seq<Task>, c: CourseId, statement: string)
    requires TasksOf(tasks, c) == TasksOf(tasks', c)
    ensures ExistsByCourseAndStatement(tasks, c, statement) == ExistsByCourseAndStatement(tasks', c, statement)
    ensures FindMaxOrderByCourse(tasks, c) == FindMaxOrderByCourse(tasks', c)
    ensures CountByCourse(tasks, c) == CountByCourse(tasks', c)
    ensures CountDistinctTypeByCourse(tasks, c) == CountDistinctTypeByCourse(tasks', c)
  {
    ExistsSeesOnlyTheCourse(tasks, tasks', c, statement);
    ExistsSeesOnlyTheCourse(tasks', tasks, c, statement);
    MaxSeesOnlyTheCourse(tasks, tasks', c);
    MaxSeesOnlyTheCourse(tasks', tasks, c);
    TypesSeeOnlyTheCourse(tasks, tasks', c);
  }

  lemma ExistsSeesOnlyTheCourse(tasks: seq<Task>, tasks': seq<Task>, c: CourseId, statement: string)
    requires TasksOf(tasks, c) == TasksOf(tasks', c)
    ensures ExistsByCourseAndStatement(tasks, c, statement) ==> ExistsByCourseAndStatement(tasks', c, statement)
  {
    if ExistsByCourseAndStatement(tasks, c, statement) {
      var i :| 0 <= i < |tasks| && tasks[i].course == c && tasks[i].statement == statement;
      var j := IndexIn(tasks, tasks', c, i);
      assert tasks'[j].course == c && tasks'[j].statement == statement;
    }
  }

  lemma MaxSeesOnlyTheCourse(tasks: seq<Task>, tasks': seq<Task>, c: CourseId)
    requires TasksOf(tasks, c) == TasksOf(tasks', c)
    ensures FindMaxOrderByCourse(tasks, c).Some? ==>
      && FindMaxOrderByCourse(tasks', c).Some?
      && FindMaxOrderByCourse(tasks, c).value <= FindMaxOrderByCourse(tasks', c).value
  {
    var m := FindMaxOrderByCourse(tasks, c);
    if m.Some? {
      var i :| 0 <= i < |tasks| && tasks[i].course == c && tasks[i].order == m.value;
      var j := IndexIn(tasks, tasks', c, i);
      assert tasks'[j].course == c && tasks'[j].order == m.value;
    }
  }

  lemma TypesSeeOnlyTheCourse(tasks: seq<Task>, tasks': seq<Task>, c: CourseId)
    requires TasksOf(tasks, c) == TasksOf(tasks', c)
    ensures CountDistinctTypeByCourse(tasks, c) == CountDistinctTypeByCourse(tasks', c)
  {
    var types := set i | 0 <= i < |tasks| && tasks[i].course == c :: tasks[i].taskType;
    var types' := set i | 0 <= i < |tasks'| && tasks'[i].course == c :: tasks'[i].taskType;
    forall ty | ty in types ensures ty in types' {
      var i :| 0 <= i < |tasks| && tasks[i].course == c && tasks[i].taskType == ty;
      var j := IndexIn(tasks, tasks', c, i);
    }
    forall ty | ty in types' ensures ty in types {
      var i :| 0 <= i < |tasks'| && tasks'[i].course == c && tasks'[i].taskType == ty;
      var j := IndexIn(tasks', tasks, c, i);
    }
    assert types == types';
  }

  /** Where a task of `c` in one table sits in another with the same tasks of `c`. */
  lemma IndexIn(tasks: seq<Task>, tasks': seq<Task>, c: CourseId, i: int) returns (j: nat)
    requires TasksOf(tasks, c) == TasksOf(tasks', c)
    requires 0 <= i < |tasks| && tasks[i].course == c
    ensures j < |tasks'| && tasks'[j] == tasks[i]
  {
    assert tasks[i] in tasks;
    assert tasks[i] in TasksOf(tasks', c);
    j :| 0 <= j < |tasks'| && tasks'[j] == tasks[i];
  }
}
