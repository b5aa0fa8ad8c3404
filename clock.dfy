/**
 * Wall-clock arithmetic shared by the three background loops
 * (scheduler/sign_worker.go, scheduler/reset_worker.go, scheduler/cookie_refresher.go).
 * One integer clock in seconds stands for both Go's local `time.Now()` and
 * SQLite's `date('now')`; time zones and daylight saving are not modelled.
 */
module Clock {
  import opened Wrappers
  import opened Models

  const SecondsPerMinute: int := 60
  const SecondsPerDay: int := 86400

  /** Midnight of the day that holds `now`. */
  function DayStart(now: Instant): (r: Instant)
    ensures r <= now < r + SecondsPerDay
    ensures r % SecondsPerDay == 0
  {
    now - now % SecondsPerDay
  }

  function DigitValue(c: char): int {
    c as int - '0' as int
  }

  predicate IsDigit(c: char) {
    '0' <= c <= '9'
  }

  /**
   * How SQLite reads the time part of `date('now') || ' ' || sign_time` for the
   * `H:MM` and `HH:MM` texts a task can be saved with: two hour digits, a colon
   * and two minute digits give the minutes after midnight; a one-digit hour makes
   * `datetime(...)` NULL. Longer forms SQLite also reads (seconds, fractions, a
   * zone suffix, blanks) are read as NULL here.
   */
  function ParseSignTime(s: string): (r: Option<nat>)
    ensures r.Some? ==> r.value < 24 * 60
    ensures r.Some? ==> |s| == 5 && s[2] == ':'
  {
    if |s| == 5 && IsDigit(s[0]) && IsDigit(s[1]) && s[2] == ':' && IsDigit(s[3]) && IsDigit(s[4])
    then
      var h := DigitValue(s[0]) * 10 + DigitValue(s[1]);
      var m := DigitValue(s[3]) * 10 + DigitValue(s[4]);
      if h < 24 && m < 60 then Some(h * 60 + m) else None
    else None
  }

  /** `datetime(date('now') || ' ' || sign_time) <= now`; NULL compares false. */
  predicate TriggerPassed(signTime: string, now: Instant) {
    match ParseSignTime(signTime)
    case None => false
    case Some(m) => DayStart(now) + m * SecondsPerMinute <= now
  }

  /** A sign time written `H:MM`, which `time.Parse("15:04", ...)` accepts on saving, is never due. */
  lemma OneDigitHourNeverPasses(now: Instant)
    ensures !TriggerPassed("8:30", now)
  {
  }

  /** "HH:MM" passes exactly from that minute of the day until midnight. */
  lemma {:induction false} TriggerPassedAt(now: Instant)
    ensures TriggerPassed("08:00", now) <==> now - DayStart(now) >= 8 * 3600
  {
    assert ParseSignTime("08:00") == Some(480);
  }
}
