/**
 * scheduler/sign_worker.go: the due-task query `GetPendingTasks` and one tick
 * of `StartWorker`, which runs every due task in turn and logs only when the
 * number of due tasks changes.
 */
module SignWorker {
  import opened Wrappers
  import opened Models
  import opened Clock
  import opened Tasks
  import opened Operations
  import opened Submit

  /** The minimum time between two attempts of one task. */
  const Cooldown: int := 5 * SecondsPerMinute

  /** `executed_at IS NULL OR executed_at <= now - 5 minutes`. */
  predicate CooledDown(t: Task, now: Instant) {
    t.executedAt.None? || t.executedAt.value <= now - Cooldown
  }

  /** The `WHERE` clause of `GetPendingTasks`. */
  predicate Due(t: Task, now: Instant) {
    && TriggerPassed(t.signTime, now)
    && t.execStatus != Success
    && t.retryCount < t.maxRetry
    && t.enabled
    && CooledDown(t, now)
  }

  /** `GetPendingTasks`: the due rows, in table order. */
  function PendingTasks(rows: seq<Task>, now: Instant): (r: seq<Task>)
    ensures |r| <= |rows|
    ensures forall t :: t in r <==> t in rows && Due(t, now)
    decreases |rows|
  {
    if rows == [] then []
    else (if Due(rows[0], now) then [rows[0]] else []) + PendingTasks(rows[1..], now)
  }

  /** Distinct rows give distinct due tasks: no task runs twice in one tick. */
  lemma {:induction false} PendingTasksDistinct(rows: seq<Task>, now: Instant)
    requires UniqueTaskIds(rows)
    ensures UniqueTaskIds(PendingTasks(rows, now))
    decreases |rows|
  {
    if rows != [] {
      var rest := rows[1..];
      assert UniqueTaskIds(rest) by {
        forall i, j | 0 <= i < j < |rest| ensures rest[i].id != rest[j].id {
          assert rest[i] == rows[i + 1] && rest[j] == rows[j + 1];
        }
      }
      PendingTasksDistinct(rest, now);
      var p := PendingTasks(rows, now);
      var q := PendingTasks(rest, now);
      if Due(rows[0], now) {
        assert p == [rows[0]] + q;
        forall a, b | 0 <= a < b < |p| ensures p[a].id != p[b].id {
          assert p[b] == q[b - 1] && q[b - 1] in rest;
          if a == 0 {
            var j :| 0 <= j < |rest| && rest[j] == q[b - 1];
            assert p[0] == rows[0] && rows[j + 1] == q[b - 1];
            assert rows[0].id != rows[j + 1].id;
          } else {
            assert p[a] == q[a - 1] && 0 <= a - 1 < b - 1 < |q|;
          }
        }
      } else {
        assert p == q;
      }
    }
  }

  /** With no retries left a task is never due, whatever else holds (`MaxRetry <= 0` included). */
  lemma RetriesExhaustedNeverDue(t: Task, now: Instant)
    requires t.maxRetry <= t.retryCount
    ensures !Due(t, now)
  {
  }

  /** An attempt at `at` keeps the task out of the query until `at + 5 minutes`. */
  lemma {:induction false} AttemptedTaskCoolsDown(t: Task, v: Verdict, at: Instant, now: Instant)
    requires now < at + Cooldown
    ensures !Due(Attempted(t, v, at), now)
  {
    assert Attempted(t, v, at).executedAt == Some(at);
  }

  /** A successful attempt keeps the task out of the query (until the daily reset). */
  lemma {:induction false} SucceededNeverDue(t: Task, at: Instant, now: Instant)
    ensures !Due(Attempted(t, Verdict(Success, ""), at), now)
  {
    assert Attempted(t, Verdict(Success, ""), at).execStatus == Success;
  }

  /** A task saved by `SaveTask` (zero `ExecutedAt`) passes the cooldown at any time after 1970. */
  lemma {:induction false} SavedTaskPassesCooldown(id: nat, existing: Task, t: TaskInput, now: Instant)
    requires now >= 0
    ensures CooledDown(Created(id, t), now)
    ensures KeyOf(existing) == InputKey(t) ==> CooledDown(Updated(existing, t), now)
  {
    assert Created(id, t).executedAt == Some(ZeroTime);
  }

  /** A freshly created "08:00" task with retries is due from 08:00 on. */
  lemma {:induction false} CreatedTaskDueAtSignTime(id: nat, t: TaskInput, now: Instant)
    requires t.signTime == "08:00" && t.maxRetry > 0 && now >= 0
    ensures Due(Created(id, t), now) <==> now - DayStart(now) >= 8 * 3600
  {
    TriggerPassedAt(now);
    SavedTaskPassesCooldown(id, Created(id, t), t, now);
  }

  /** The verdict the executor reaches for a due task during a tick. */
  function VerdictFor(students: seq<Student>, stuRead: string -> DbRead, submit: SubmitRequest -> SubmitReply, t: Task): Verdict {
    Outcome(t, StudentFor(students, t.stuId, stuRead(t.stuId)), submit)
  }

  /** The table after `Save` of task `t`: the row with `t`'s id becomes `t`. */
  function Replaced(rows: seq<Task>, t: Task): (r: seq<Task>)
    ensures |r| == |rows|
    ensures forall i :: 0 <= i < |rows| ==> r[i] == if rows[i].id == t.id then t else rows[i]
  {
    seq(|rows|, i requires 0 <= i < |rows| => if rows[i].id == t.id then t else rows[i])
  }

  /** The table after running the tasks `ts` one after another, starting from `rows`. */
  function RanAll(rows: seq<Task>, ts: seq<Task>, students: seq<Student>, stuRead: string -> DbRead,
                  submit: SubmitRequest -> SubmitReply, now: Instant): (r: seq<Task>)
    ensures |r| == |rows|
    decreases |ts|
  {
    if ts == [] then rows
    else Replaced(RanAll(rows, ts[..|ts| - 1], students, stuRead, submit, now), Executed(students, stuRead, submit, now, ts[|ts| - 1]))
  }

  lemma RanAllStep(rows: seq<Task>, ts: seq<Task>, k: nat, students: seq<Student>, stuRead: string -> DbRead,
                   submit: SubmitRequest -> SubmitReply, now: Instant)
    requires k < |ts|
    ensures RanAll(rows, ts[..k + 1], students, stuRead, submit, now)
         == Replaced(RanAll(rows, ts[..k], students, stuRead, submit, now), Executed(students, stuRead, submit, now, ts[k]))
  {
    assert ts[..k + 1][..k] == ts[..k];
  }

  /** A prefix of a list of distinct tasks is a list of distinct tasks. */
  lemma {:induction false} UniquePrefix(ts: seq<Task>, k: nat)
    requires k <= |ts| && UniqueTaskIds(ts)
    ensures UniqueTaskIds(ts[..k])
    ensures forall t :: t in ts[..k] ==> t in ts
  {
    forall a, b | 0 <= a < b < k ensures ts[..k][a].id != ts[..k][b].id {
      assert ts[..k][a] == ts[a] && ts[..k][b] == ts[b];
    }
  }

  /**
   * Running distinct tasks of a table with unique ids, one after another,
   * rewrites exactly their own rows, each once: a row of the table is run
   * exactly when it is one of the tasks.
   */
  lemma {:induction false} RanAllRunsEachOnce(rows0: seq<Task>, ts: seq<Task>, students: seq<Student>,
                                              stuRead: string -> DbRead, submit: SubmitRequest -> SubmitReply, now: Instant)
    requires UniqueTaskIds(rows0) && UniqueTaskIds(ts)
    requires forall t :: t in ts ==> t in rows0
    ensures forall i :: 0 <= i < |rows0| ==>
      RanAll(rows0, ts, students, stuRead, submit, now)[i]
        == if rows0[i] in ts then Executed(students, stuRead, submit, now, rows0[i]) else rows0[i]
    decreases |ts|
  {
    if ts != [] {
      var k := |ts| - 1;
      var init := ts[..k];
      var task := ts[k];
      UniquePrefix(ts, k);
      RanAllRunsEachOnce(rows0, init, students, stuRead, submit, now);
      var before := RanAll(rows0, init, students, stuRead, submit, now);
      var after := RanAll(rows0, ts, students, stuRead, submit, now);
      var done := Executed(students, stuRead, submit, now, task);
      assert after == Replaced(before, done);
      assert task in ts;
      var at :| 0 <= at < |rows0| && rows0[at] == task;
      forall j | 0 <= j < k ensures init[j] != task {
        assert ts[j].id != ts[k].id;
      }
      assert ts == init + [task];
      forall i | 0 <= i < |rows0|
        ensures after[i] == if rows0[i] in ts then Executed(students, stuRead, submit, now, rows0[i]) else rows0[i]
      {
        if rows0[i].id == task.id {
          SameIdSameRow(rows0, i, at);
          assert before[i] == task;
          assert after[i] == done;
        } else {
          assert before[i].id == rows0[i].id;
          assert after[i] == before[i];
          assert rows0[i] in ts <==> rows0[i] in init;
        }
      }
    }
  }

  lemma SameIdSameRow(rows: seq<Task>, i: nat, j: nat)
    requires UniqueTaskIds(rows) && i < |rows| && j < |rows| && rows[i].id == rows[j].id
    ensures i == j
  {
  }

  /** Replacing a row by a task with the same id and key keeps every row's id and key. */
  lemma ReplacedKeepsKeys(rows: seq<Task>, t: Task)
    requires UniqueTaskIds(rows)
    requires exists j :: 0 <= j < |rows| && rows[j].id == t.id && KeyOf(rows[j]) == KeyOf(t)
    ensures forall i :: 0 <= i < |rows| ==>
      Replaced(rows, t)[i].id == rows[i].id && KeyOf(Replaced(rows, t)[i]) == KeyOf(rows[i])
  {
    var j :| 0 <= j < |rows| && rows[j].id == t.id && KeyOf(rows[j]) == KeyOf(t);
    forall i | 0 <= i < |rows| && rows[i].id == t.id ensures KeyOf(rows[i]) == KeyOf(t) {
      SameIdSameRow(rows, i, j);
    }
  }

  /** A due task after the executor has run it during a tick. */
  function Executed(students: seq<Student>, stuRead: string -> DbRead, submit: SubmitRequest -> SubmitReply,
                    now: Instant, t: Task): (r: Task)
    ensures r.id == t.id && KeyOf(r) == KeyOf(t) && r.retryCount == t.retryCount + 1 && r.executedAt == Some(now)
  {
    Attempted(t, VerdictFor(students, stuRead, submit, t), now)
  }

  /** What the executor returns for each task of `ts`, in order. */
  function ResultsFor(students: seq<Student>, stuRead: string -> DbRead, submit: SubmitRequest -> SubmitReply,
                      ts: seq<Task>): (r: seq<Result<(), string>>)
    ensures |r| == |ts|
    ensures forall j :: 0 <= j < |ts| ==> r[j] == ReturnOf(VerdictFor(students, stuRead, submit, ts[j]))
    decreases |ts|
  {
    if ts == [] then []
    else ResultsFor(students, stuRead, submit, ts[..|ts| - 1]) + [ReturnOf(VerdictFor(students, stuRead, submit, ts[|ts| - 1]))]
  }

  lemma ResultsForStep(students: seq<Student>, stuRead: string -> DbRead, submit: SubmitRequest -> SubmitReply,
                       ts: seq<Task>, k: nat)
    requires k < |ts|
    ensures ResultsFor(students, stuRead, submit, ts[..k + 1])
         == ResultsFor(students, stuRead, submit, ts[..k]) + [ReturnOf(VerdictFor(students, stuRead, submit, ts[k]))]
  {
    assert ts[..k + 1][..k] == ts[..k];
  }

  /** One iteration of the tick loop: the executor's run of `task`, seen through `Executed` and `VerdictFor`. */
  method RunDueTask(tasks: TaskTable, students: StudentTable, task: Task, now: Instant,
                    stuRead: string -> DbRead, submit: SubmitRequest -> SubmitReply)
    returns (r: Result<(), string>)
    requires tasks.Valid()
    requires exists i :: 0 <= i < |tasks.rows| && tasks.rows[i].id == task.id && KeyOf(tasks.rows[i]) == KeyOf(task)
    modifies tasks
    ensures tasks.Valid() && tasks.nextId == old(tasks.nextId) && |tasks.rows| == |old(tasks.rows)|
    ensures r == ReturnOf(VerdictFor(students.rows, stuRead, submit, task))
    ensures tasks.rows == Replaced(old(tasks.rows), Executed(students.rows, stuRead, submit, now, task))
  {
    ghost var verdict := VerdictFor(students.rows, stuRead, submit, task);
    assert verdict == Outcome(task, StudentFor(students.rows, task.stuId, stuRead(task.stuId)), submit);
    ghost var done := Executed(students.rows, stuRead, submit, now, task);
    assert done == Attempted(task, verdict, now);
    var sent, notice;
    sent, notice, r := ExecuteSignTask(tasks, students, task, now, stuRead(task.stuId), submit);
  }

  /**
   * The `for` loop of a tick: every task of `pending` (rows read from
   * `tasks`) is run in order; each run rewrites only its own row.
   */
  method RunPending(tasks: TaskTable, students: StudentTable, pending: seq<Task>, now: Instant,
                    stuRead: string -> DbRead, submit: SubmitRequest -> SubmitReply)
    returns (results: seq<Result<(), string>>)
    requires tasks.Valid() && UniqueTaskIds(pending)
    requires forall t :: t in pending ==> t in tasks.rows
    modifies tasks
    ensures tasks.Valid() && tasks.nextId == old(tasks.nextId)
    ensures results == ResultsFor(students.rows, stuRead, submit, pending)
    ensures tasks.rows == RanAll(old(tasks.rows), pending, students.rows, stuRead, submit, now)
  {
    ghost var rows0 := tasks.rows;
    ghost var srows := students.rows;
    results := [];
    var k := 0;
    while k < |pending|
      invariant 0 <= k <= |pending|
      invariant tasks.Valid() && tasks.nextId == old(tasks.nextId) && |tasks.rows| == |rows0|
      invariant results == ResultsFor(srows, stuRead, submit, pending[..k])
      invariant tasks.rows == RanAll(rows0, pending[..k], srows, stuRead, submit, now)
      invariant forall i :: 0 <= i < |rows0| ==> tasks.rows[i].id == rows0[i].id && KeyOf(tasks.rows[i]) == KeyOf(rows0[i])
    {
      var task := pending[k];
      assert task in rows0;
      ghost var at :| 0 <= at < |rows0| && rows0[at] == task;
      ghost var before := tasks.rows;
      assert before[at].id == task.id && KeyOf(before[at]) == KeyOf(task);
      var r := RunDueTask(tasks, students, task, now, stuRead, submit);
      assert students.rows == srows;
      ReplacedKeepsKeys(before, Executed(srows, stuRead, submit, now, task));
      ResultsForStep(srows, stuRead, submit, pending, k);
      RanAllStep(rows0, pending, k, srows, stuRead, submit, now);
      results := results + [r];
      k := k + 1;
    }
    assert pending[..k] == pending;
  }

  /** The loop state that `StartWorker` carries from one tick to the next. */
  class Worker {
    var lastTaskCount: int

    /** `-1` makes the first tick log whatever it finds. */
    constructor ()
      ensures lastTaskCount == -1
    {
      lastTaskCount := -1;
    }

    /**
     * One tick at `now`. `query` is the outcome of `GetPendingTasks`;
     * `stuRead` gives the outcome of each student query. A failed query
     * skips the tick. Otherwise every due task is attempted once, in table
     * order, and no attempt stops the others. `logged` tells whether the
     * status line was written.
     */
    method Tick(now: Instant, tasks: TaskTable, students: StudentTable, query: DbRead,
                stuRead: string -> DbRead, submit: SubmitRequest -> SubmitReply)
      returns (logged: bool, results: seq<Result<(), string>>)
      requires tasks.Valid()
      modifies this, tasks
      ensures tasks.Valid() && tasks.nextId == old(tasks.nextId)
      ensures query.ReadFailed? ==>
        !logged && results == [] && lastTaskCount == old(lastTaskCount) && tasks.rows == old(tasks.rows)
      ensures query.ReadOk? ==>
        var pending := PendingTasks(old(tasks.rows), now);
        && logged == (|pending| != old(lastTaskCount))
        && lastTaskCount == |pending|
        && |results| == |pending|
        && (forall k :: 0 <= k < |pending| ==> results[k] == ReturnOf(VerdictFor(students.rows, stuRead, submit, pending[k])))
        && |tasks.rows| == |old(tasks.rows)|
        && forall i :: 0 <= i < |tasks.rows| ==>
             tasks.rows[i] ==
               if Due(old(tasks.rows)[i], now)
               then Executed(students.rows, stuRead, submit, now, old(tasks.rows)[i])
               else old(tasks.rows)[i]
    {
      if query.ReadFailed? {
        return false, [];
      }
      ghost var rows0 := tasks.rows;
      var pending := PendingTasks(tasks.rows, now);
      PendingTasksDistinct(tasks.rows, now);
      var currentCount := |pending|;
      logged := currentCount != lastTaskCount;
      if logged {
        lastTaskCount := currentCount;
      }
      results := RunPending(tasks, students, pending, now, stuRead, submit);
      RanAllRunsEachOnce(rows0, pending, students.rows, stuRead, submit, now);
    }
  }
}
