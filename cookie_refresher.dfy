/**
 * scheduler/cookie_refresher.go: the daily session refresh. One iteration of
 * its endless loop sleeps until the next 18:00 and then runs `RefreshCycle`.
 */
module CookieRefresher {
  import opened Wrappers
  import opened Models
  import opened Clock
  import opened Cookies
  import opened Operations
  import opened StudentLogin

  /** Seconds after midnight at which the refresh fires: 18:00. */
  const RefreshOffset: int := 18 * 3600

  /** 18:00 today when `now` is not after it, otherwise 18:00 tomorrow. */
  function NextRefreshFire(now: Instant): (r: Instant)
    ensures now <= r < now + SecondsPerDay
    ensures r % SecondsPerDay == RefreshOffset
    ensures r == DayStart(now) + RefreshOffset <==> now <= DayStart(now) + RefreshOffset
  {
    var today := DayStart(now) + RefreshOffset;
    if now > today then today + SecondsPerDay else today
  }

  /** Exactly at 18:00 the refresh runs at once; a second later it waits a day less a second. */
  lemma {:induction false} RefreshAtEighteen(day: int)
    ensures NextRefreshFire(day * SecondsPerDay + RefreshOffset) == day * SecondsPerDay + RefreshOffset
    ensures NextRefreshFire(day * SecondsPerDay + RefreshOffset + 1) - (day * SecondsPerDay + RefreshOffset + 1) == SecondsPerDay - 1
  {
    var t := day * SecondsPerDay + RefreshOffset;
    assert DayStart(t) == day * SecondsPerDay by {
      assert t % SecondsPerDay == RefreshOffset;
    }
    assert DayStart(t + 1) == day * SecondsPerDay by {
      assert (t + 1) % SecondsPerDay == RefreshOffset + 1;
    }
  }

  /**
   * A student row after its refresh: with a successful login, the new cookies
   * (serialised) and the refresh time; after a failed one, as it was.
   */
  function Refreshed(p: Platform, s: Student, now: Instant): (r: Student)
    ensures r.stuId == s.stuId && r.password == s.password && r.name == s.name
    ensures RefreshOutcome(p, s.stuId, s.password).Err? ==> r == s
    ensures RefreshOutcome(p, s.stuId, s.password).Ok? ==>
      r.cookies == Serialize(RefreshOutcome(p, s.stuId, s.password).value) && r.lastLogin == now
  {
    match RefreshOutcome(p, s.stuId, s.password)
    case Err(_) => s
    case Ok(cookies) => s.(cookies := Serialize(cookies), lastLogin := now)
  }

  /**
   * One refresh cycle at `now`. `query` is the outcome of reading all
   * students; `platform(stuId)` is what the platform answers for that
   * student's logins. A failed query skips the cycle.
   */
  method RefreshCycle(students: StudentTable, query: DbRead, platform: string -> Platform, now: Instant)
    requires students.Valid()
    modifies students
    ensures students.Valid()
    ensures query.ReadFailed? ==> students.rows == old(students.rows)
    ensures query.ReadOk? ==>
      |students.rows| == |old(students.rows)|
      && forall i :: 0 <= i < |students.rows| ==>
           students.rows[i] == Refreshed(platform(old(students.rows)[i].stuId), old(students.rows)[i], now)
  {
    if query.ReadFailed? {
      return;
    }
    var list := students.rows;
    var k := 0;
    while k < |list|
      invariant 0 <= k <= |list|
      invariant students.Valid() && |students.rows| == |list|
      invariant forall i :: 0 <= i < k ==> students.rows[i] == Refreshed(platform(list[i].stuId), list[i], now)
      invariant forall i :: k <= i < |list| ==> students.rows[i] == list[i]
      invariant forall i :: 0 <= i < |list| ==> students.rows[i].stuId == list[i].stuId
    {
      var stu := list[k];
      ghost var want := Refreshed(platform(stu.stuId), stu, now);
      ghost var before := students.rows;
      var cookies := LoginWithoutBind(platform(stu.stuId), stu.stuId, stu.password);
      if cookies.Ok? {
        stu := stu.(cookies := Serialize(cookies.value), lastLogin := now);
        assert stu == want;
        assert students.rows[k].stuId == stu.stuId;
        students.SaveRow(stu);
        SaveRowReplacesOne(list, before, students.rows, k, stu);
      } else {
        assert want == list[k] == before[k];
      }
      assert students.rows == before[k := want];
      k := k + 1;
    }
  }

  /** Saving a row whose `StuID` sits at `k` of a table with distinct `StuID`s changes row `k` alone. */
  lemma SaveRowReplacesOne(list: seq<Student>, before: seq<Student>, after: seq<Student>, k: nat, s: Student)
    requires UniqueStuIds(before) && |before| == |list| && k < |list|
    requires forall i :: 0 <= i < |list| ==> before[i].stuId == list[i].stuId
    requires s.stuId == list[k].stuId
    requires |after| == |before|
    requires forall i :: 0 <= i < |after| ==> after[i] == if before[i].stuId == s.stuId then s else before[i]
    ensures after == before[k := s]
  {
    forall i | 0 <= i < |list| && i != k ensures after[i] == before[i] {
      assert before[i].stuId != before[k].stuId;
    }
  }
}
