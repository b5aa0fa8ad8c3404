/**
 * The task table and logic/student/task.go: `SaveTask`, an upsert keyed by
 * (UserID, StuID, ActivityID) that resets execution state, plus the two other
 * writes the core makes to the table: the executor's save of one row and the
 * daily bulk reset (scheduler/reset_worker.go).
 */
module Tasks {
  import opened Wrappers
  import opened Models

  /** The fields of a task that its owner submits (routes/student.go fills exactly these). */
  datatype TaskInput = TaskInput(
    userId: int,
    stuId: string,
    activityId: string,
    name: string,
    activityName: string,
    address: string,
    longitude: real,
    latitude: real,
    signTime: string,
    maxRetry: int,
    notifyEmail: string)

  function InputKey(t: TaskInput): TaskKey {
    TaskKey(t.userId, t.stuId, t.activityId)
  }

  /** The row `SaveTask` inserts when the key is new: enabled, pending, no retries, zero `ExecutedAt`. */
  function Created(id: nat, t: TaskInput): (r: Task)
    ensures r.id == id && KeyOf(r) == InputKey(t)
    ensures r.enabled && r.execStatus == Pending && r.retryCount == 0 && r.lastError == ""
    ensures r.executedAt == Some(ZeroTime)
  {
    Task(id, t.userId, t.stuId, t.activityId, t.name, t.activityName, t.address,
         t.longitude, t.latitude, t.signTime, t.notifyEmail,
         true, Pending, 0, t.maxRetry, "", Some(ZeroTime))
  }

  /**
   * The row `SaveTask` writes over an existing one: the owner's fields are
   * replaced, the row is enabled again and its execution state is reset; the
   * primary key and the key triple stay.
   */
  function Updated(existing: Task, t: TaskInput): (r: Task)
    requires KeyOf(existing) == InputKey(t)
    ensures r.id == existing.id && KeyOf(r) == KeyOf(existing)
    ensures r.address == t.address && r.longitude == t.longitude && r.latitude == t.latitude
    ensures r.signTime == t.signTime && r.maxRetry == t.maxRetry && r.name == t.name
    ensures r.activityName == t.activityName && r.notifyEmail == t.notifyEmail
    ensures r.enabled && r.execStatus == Pending && r.retryCount == 0 && r.lastError == ""
    ensures r.executedAt == Some(ZeroTime)
  {
    existing.(address := t.address, longitude := t.longitude, latitude := t.latitude,
              signTime := t.signTime, maxRetry := t.maxRetry, enabled := true,
              name := t.name, activityName := t.activityName, notifyEmail := t.notifyEmail,
              execStatus := Pending, retryCount := 0, lastError := "", executedAt := Some(ZeroTime))
  }

  /** The daily reset of one row: `retry_count = 0, exec_status = 'pending', last_error = ''`. */
  function Reset(t: Task): (r: Task)
    ensures r.retryCount == 0 && r.execStatus == Pending && r.lastError == ""
    ensures r.(retryCount := t.retryCount, execStatus := t.execStatus, lastError := t.lastError) == t
  {
    t.(retryCount := 0, execStatus := Pending, lastError := "")
  }

  /** Resetting twice is resetting once. */
  lemma ResetIdempotent(t: Task)
    ensures Reset(Reset(t)) == Reset(t)
  {
  }

  /** Index of the row with key `k`, if any (`Where(...).First`). */
  function FindKey(rows: seq<Task>, k: TaskKey): (r: Option<nat>)
    ensures r.Some? ==> r.value < |rows| && KeyOf(rows[r.value]) == k
    ensures r.None? <==> forall i :: 0 <= i < |rows| ==> KeyOf(rows[i]) != k
    ensures r.Some? ==> forall i :: 0 <= i < r.value ==> KeyOf(rows[i]) != k
    decreases |rows|
  {
    if |rows| == 0 then None
    else if KeyOf(rows[0]) == k then Some(0)
    else match FindKey(rows[1..], k)
      case None => None
      case Some(i) => Some(i + 1)
  }

  /** Number of tasks of user `userId` on student `stuId` (the count in logic/user/bind.go). */
  function CountFor(rows: seq<Task>, userId: int, stuId: string): (n: nat)
    ensures n <= |rows|
    ensures n == 0 <==> forall i :: 0 <= i < |rows| ==> !(rows[i].userId == userId && rows[i].stuId == stuId)
    decreases |rows|
  {
    if |rows| == 0 then 0
    else (if rows[0].userId == userId && rows[0].stuId == stuId then 1 else 0) + CountFor(rows[1..], userId, stuId)
  }

  class TaskTable {
    var rows: seq<Task>
    var nextId: nat

    ghost predicate Valid()
      reads this
    {
      UniqueTaskKeys(rows) && UniqueTaskIds(rows) && (forall i :: 0 <= i < |rows| ==> rows[i].id < nextId)
    }

    constructor ()
      ensures Valid() && rows == [] && nextId == 1
    {
      rows := [];
      nextId := 1;
    }

    /**
     * `SaveTask`. `lookup` is the outcome of the key query when it is not
     * "record not found"; a failed query is returned and nothing is written.
     */
    method SaveTask(t: TaskInput, lookup: DbRead) returns (r: Result<(), string>)
      requires Valid()
      modifies this
      ensures Valid()
      ensures lookup.ReadFailed? ==> r == Err(lookup.error) && rows == old(rows) && nextId == old(nextId)
      ensures lookup.ReadOk? ==> r == Ok(())
      ensures lookup.ReadOk? && FindKey(old(rows), InputKey(t)).None? ==>
        rows == old(rows) + [Created(old(nextId), t)] && nextId == old(nextId) + 1
      ensures lookup.ReadOk? && FindKey(old(rows), InputKey(t)).Some? ==>
        var i := FindKey(old(rows), InputKey(t)).value;
        rows == old(rows)[i := Updated(old(rows)[i], t)] && nextId == old(nextId)
      ensures lookup.ReadOk? ==> exists i :: 0 <= i < |rows| && KeyOf(rows[i]) == InputKey(t)
    {
      if lookup.ReadFailed? {
        return Err(lookup.error);
      }
      var found := FindKey(rows, InputKey(t));
      if found.None? {
        var task := Created(nextId, t);
        rows := rows + [task];
        nextId := nextId + 1;
        assert KeyOf(rows[|rows| - 1]) == InputKey(t);
      } else {
        var i := found.value;
        var existing := Updated(rows[i], t);
        rows := rows[i := existing];
        assert KeyOf(rows[i]) == InputKey(t);
      }
      r := Ok(());
    }

    /**
     * gorm's `Save` of a row read from this table: the row with the same
     * primary key is overwritten (the key triple is unchanged by every caller).
     */
    method SaveRow(t: Task)
      requires Valid()
      requires exists i :: 0 <= i < |rows| && rows[i].id == t.id && KeyOf(rows[i]) == KeyOf(t)
      modifies this
      ensures Valid() && nextId == old(nextId) && |rows| == |old(rows)|
      ensures forall i :: 0 <= i < |rows| ==>
        rows[i] == if old(rows)[i].id == t.id then t else old(rows)[i]
    {
      var i := 0;
      while i < |rows|
        invariant 0 <= i <= |rows| && |rows| == |old(rows)|
        invariant forall j :: 0 <= j < i ==> old(rows)[j].id != t.id
        invariant rows == old(rows)
      {
        if rows[i].id == t.id {
          rows := rows[i := t];
          return;
        }
        i := i + 1;
      }
    }

    /** The daily reset: every row, enabled or not, gets `Reset`. */
    method ResetAll()
      requires Valid()
      modifies this
      ensures Valid() && nextId == old(nextId) && |rows| == |old(rows)|
      ensures forall i :: 0 <= i < |rows| ==> rows[i] == Reset(old(rows)[i])
    {
      var i := 0;
      while i < |rows|
        invariant 0 <= i <= |rows| && |rows| == |old(rows)|
        invariant forall j :: 0 <= j < i ==> rows[j] == Reset(old(rows)[j])
        invariant forall j :: i <= j < |rows| ==> rows[j] == old(rows)[j]
        invariant forall j :: 0 <= j < |rows| ==> rows[j].id == old(rows)[j].id && KeyOf(rows[j]) == KeyOf(old(rows)[j])
        invariant nextId == old(nextId)
      {
        rows := rows[i := Reset(rows[i])];
        i := i + 1;
      }
    }
  }
}
