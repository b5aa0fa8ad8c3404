/**
 * scheduler/reset_worker.go: the daily reset of every task's execution state.
 * One iteration of the endless loop is: sleep until the next fire instant,
 * then `TaskTable.ResetAll`. The next fire is 00:03 of the next day.
 */
module ResetWorker {
  import opened Models
  import opened Clock
  import opened Tasks
  import opened Submit
  import opened SignWorker

  /** Seconds after midnight at which the reset fires: 00:03. */
  const ResetOffset: int := 3 * SecondsPerMinute

  /** `time.Date(y, m, d + 1, 0, 3, 0, 0, loc)`: 00:03 on the day after `now`. */
  function NextResetFire(now: Instant): (r: Instant)
    ensures now < r <= now + SecondsPerDay + ResetOffset
    ensures r % SecondsPerDay == ResetOffset
    ensures r - SecondsPerDay - ResetOffset == DayStart(now)
  {
    DayStart(now) + SecondsPerDay + ResetOffset
  }

  /** The sleep before a reset is always positive and at most a day and three minutes. */
  lemma {:induction false} ResetSleepPositive(now: Instant)
    ensures 0 < NextResetFire(now) - now <= SecondsPerDay + ResetOffset
  {
    var d := DayStart(now);
    assert d <= now < d + SecondsPerDay;
  }

  /** A reset task has retries left exactly when its `MaxRetry` is positive, and is not "success". */
  lemma {:induction false} ResetRestoresRetries(t: Task)
    ensures Reset(t).retryCount < Reset(t).maxRetry <==> t.maxRetry > 0
    ensures Reset(t).execStatus != Success
  {
    assert Reset(t).maxRetry == t.maxRetry;
  }

  /**
   * After the reset a task is due again exactly when its time has come, it has
   * a positive `MaxRetry`, it is enabled and its last attempt is 5 minutes old:
   * used-up retries and a past success no longer count.
   */
  lemma {:induction false} ResetTaskDue(t: Task, now: Instant)
    ensures Due(Reset(t), now) <==>
      TriggerPassed(t.signTime, now) && t.maxRetry > 0 && t.enabled && CooledDown(t, now)
  {
    var r := Reset(t);
    assert r.signTime == t.signTime && r.enabled == t.enabled && r.executedAt == t.executedAt;
    ResetRestoresRetries(t);
  }

  /** A task that used up its retries yesterday is selectable again after the reset. */
  lemma {:induction false} ExhaustedTaskRevived(t: Task, now: Instant)
    requires t.retryCount >= t.maxRetry > 0 && t.enabled
    requires TriggerPassed(t.signTime, now) && CooledDown(t, now)
    ensures !Due(t, now) && Due(Reset(t), now)
  {
    ResetTaskDue(t, now);
  }
}
