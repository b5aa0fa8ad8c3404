/**
 * logic/student/login.go: `LoginAndBindStudent` and `LoginWithoutBind`, the
 * bounded login loop over the platform protocol. Everything the loop talks to
 * is a `Platform`: the captcha exchange, the OCR service and the login POST of
 * each attempt, RSA encryption, and the profile page fetch.
 */
module StudentLogin {
  import opened Wrappers
  import opened Strings
  import opened Models
  import opened Cookies
  import opened Operations
  import Captcha
  import SchoolLogin
  import StudentDetail

  const MaxAttempts: nat := 3

  /**
   * The outside world of a login. `captcha(i)`, `ocr(i, image)` and `send(i)`
   * are the captcha exchange, the OCR answer and the login exchange of
   * attempt `i`; each attempt sees a fresh captcha.
   */
  datatype Platform = Platform(
    captcha: nat -> Captcha.CaptchaFetch,
    ocr: (nat, string) -> Result<string, string>,
    encrypt: string -> Result<string, string>,
    send: nat -> (SchoolLogin.LoginRequest -> SchoolLogin.LoginReply),
    detail: string -> StudentDetail.DetailFetch)

  /** How one attempt ends: a terminal error, a retryable login error, or the session cookies. */
  datatype Attempt = Fatal(error: string) | Retry(error: string) | LoggedIn(cookies: seq<Cookie>)

  /** How the loop ends, with the number of attempts made. */
  datatype LoopEnd =
    | Stopped(error: string, attempts: nat)
    | Exhausted(last: string)
    | Got(cookies: seq<Cookie>, attempts: nat)

  /** `LoginAndBindStudent` retries a login error mentioning the captcha in either language. */
  predicate BindRetryable(e: string) {
    Contains(e, "验证码") || Contains(e, "ValCode")
  }

  /** `LoginWithoutBind` retries only on the Chinese word for captcha. */
  predicate RefreshRetryable(e: string) {
    Contains(e, "验证码")
  }

  /** Attempt `i`: fetch a captcha, recognise it, log in; classify the login error. */
  function AttemptLogin(p: Platform, i: nat, stuId: string, password: string, retryable: string -> bool): (r: Attempt)
    ensures Captcha.CaptchaOutcome(p.captcha(i)).Err? ==>
      r == Fatal("获取验证码失败: " + Captcha.CaptchaOutcome(p.captcha(i)).error)
    ensures Captcha.CaptchaOutcome(p.captcha(i)).Ok? ==>
      var challenge := Captcha.CaptchaOutcome(p.captcha(i)).value;
      var valCode := p.ocr(i, challenge.image);
      && (valCode.Err? ==> r == Fatal("验证码识别失败: " + valCode.error))
      && (valCode.Ok? ==>
            var login := SchoolLogin.LoginOutcome(stuId, password, valCode.value, challenge.cookies, p.encrypt, p.send(i));
            && (login.Ok? ==> r == LoggedIn(login.value))
            && (login.Err? && retryable(login.error) ==> r == Retry(login.error))
            && (login.Err? && !retryable(login.error) ==> r == Fatal("登录失败: " + login.error)))
    ensures r.Retry? ==> retryable(r.error)
  {
    match Captcha.CaptchaOutcome(p.captcha(i))
    case Err(e) => Fatal("获取验证码失败: " + e)
    case Ok(challenge) =>
      match p.ocr(i, challenge.image)
      case Err(e) => Fatal("验证码识别失败: " + e)
      case Ok(valCode) =>
        match SchoolLogin.LoginOutcome(stuId, password, valCode, challenge.cookies, p.encrypt, p.send(i))
        case Err(e) => if retryable(e) then Retry(e) else Fatal("登录失败: " + e)
        case Ok(cookies) => LoggedIn(cookies)
  }

  /** The attempts of one call, as a function of the attempt number. */
  function Attempts(p: Platform, stuId: string, password: string, retryable: string -> bool): nat -> Attempt {
    (i: nat) => AttemptLogin(p, i, stuId, password, retryable)
  }

  /** The loop from attempt `i` on, over the attempts `attempt`, with `last` the last retryable error. */
  function LoginLoop(attempt: nat -> Attempt, i: nat, last: string): (r: LoopEnd)
    requires 1 <= i <= MaxAttempts + 1
    ensures !r.Exhausted? ==> i <= r.attempts <= MaxAttempts
    decreases MaxAttempts + 1 - i
  {
    if i > MaxAttempts then Exhausted(last)
    else match attempt(i)
      case Fatal(e) => Stopped(e, i)
      case LoggedIn(cookies) => Got(cookies, i)
      case Retry(e) => LoginLoop(attempt, i + 1, e)
  }

  /**
   * The loop stops at the first attempt that does not ask for a retry, with
   * that attempt's error or cookies; it runs out only when every remaining
   * attempt asks for a retry, and then reports the last one's error.
   */
  lemma {:induction false} LoginLoopStopsAtFirstNonRetry(attempt: nat -> Attempt, i: nat, last: string)
    requires 1 <= i <= MaxAttempts + 1
    ensures var r := LoginLoop(attempt, i, last);
      && (r.Stopped? ==> attempt(r.attempts) == Fatal(r.error))
      && (r.Got? ==> attempt(r.attempts) == LoggedIn(r.cookies))
      && (!r.Exhausted? ==> forall j :: i <= j < r.attempts ==> attempt(j).Retry?)
      && (r.Exhausted? <==> forall j :: i <= j <= MaxAttempts ==> attempt(j).Retry?)
      && (r.Exhausted? && i <= MaxAttempts ==> r.last == attempt(MaxAttempts).error)
    decreases MaxAttempts + 1 - i
  {
    if i <= MaxAttempts && attempt(i).Retry? {
      LoginLoopStopsAtFirstNonRetry(attempt, i + 1, attempt(i).error);
    }
  }

  /** One step of the loop: attempt `i` either ends it or hands its error to attempt `i + 1`. */
  lemma LoginLoopStep(attempt: nat -> Attempt, i: nat, last: string, a: Attempt)
    requires 1 <= i <= MaxAttempts && a == attempt(i)
    ensures a.Fatal? ==> LoginLoop(attempt, i, last) == Stopped(a.error, i)
    ensures a.LoggedIn? ==> LoginLoop(attempt, i, last) == Got(a.cookies, i)
    ensures a.Retry? ==> LoginLoop(attempt, i, last) == LoginLoop(attempt, i + 1, a.error)
  {
  }

  /** The body of one iteration: captcha exchange, OCR, login. */
  method TryOnce(p: Platform, i: nat, stuId: string, password: string, retryable: string -> bool) returns (a: Attempt)
    ensures a == AttemptLogin(p, i, stuId, password, retryable)
  {
    var challenge := Captcha.GetValidateCodeBase64(p.captcha(i));
    if challenge.Err? {
      return Fatal("获取验证码失败: " + challenge.error);
    }
    var valCode := p.ocr(i, challenge.value.image);
    if valCode.Err? {
      return Fatal("验证码识别失败: " + valCode.error);
    }
    var sent, result := SchoolLogin.Login(stuId, password, valCode.value, challenge.value.cookies, p.encrypt, p.send(i));
    if result.Err? {
      if retryable(result.error) {
        return Retry(result.error);
      }
      return Fatal("登录失败: " + result.error);
    }
    a := LoggedIn(result.value);
  }

  /**
   * The `for i := 1; i <= 3; i++` loop shared by both entry points: a
   * retryable error is remembered and the next attempt starts; anything else
   * ends the loop.
   */
  method RunLoginLoop(p: Platform, stuId: string, password: string, retryable: string -> bool,
                      ghost attempt: nat -> Attempt) returns (e: LoopEnd)
    requires forall i: nat :: attempt(i) == AttemptLogin(p, i, stuId, password, retryable)
    ensures e == LoginLoop(attempt, 1, "")
  {
    var lastErr := "";
    var i := 1;
    while i <= MaxAttempts
      invariant 1 <= i <= MaxAttempts + 1
      invariant LoginLoop(attempt, i, lastErr) == LoginLoop(attempt, 1, "")
    {
      var a := TryOnce(p, i, stuId, password, retryable);
      LoginLoopStep(attempt, i, lastErr, a);
      match a {
        case Fatal(err) => return Stopped(err, i);
        case LoggedIn(cookies) => return Got(cookies, i);
        case Retry(err) => lastErr := err;
      }
      i := i + 1;
    }
    e := Exhausted(lastErr);
  }

  /** `LoginWithoutBind`: the session cookies, or the error that ended the loop. */
  function RefreshOutcome(p: Platform, stuId: string, password: string): (r: Result<seq<Cookie>, string>)
    ensures r.Ok? <==> LoginLoop(Attempts(p, stuId, password, RefreshRetryable), 1, "").Got?
    ensures var e := LoginLoop(Attempts(p, stuId, password, RefreshRetryable), 1, "");
      && (e.Got? ==> r == Ok(e.cookies))
      && (e.Stopped? ==> r == Err(e.error))
      && (e.Exhausted? ==> r == Err("多次登录失败: " + e.last))
  {
    match LoginLoop(Attempts(p, stuId, password, RefreshRetryable), 1, "")
    case Got(cookies, _) => Ok(cookies)
    case Stopped(e, _) => Err(e)
    case Exhausted(last) => Err("多次登录失败: " + last)
  }

  method LoginWithoutBind(p: Platform, stuId: string, password: string) returns (r: Result<seq<Cookie>, string>)
    ensures r == RefreshOutcome(p, stuId, password)
  {
    var e := RunLoginLoop(p, stuId, password, RefreshRetryable, Attempts(p, stuId, password, RefreshRetryable));
    match e {
      case Got(cookies, _) => r := Ok(cookies);
      case Stopped(err, _) => r := Err(err);
      case Exhausted(last) => r := Err("多次登录失败: " + last);
    }
  }

  /** The binding limit by role: 2 for a normal user, 12 for a sponsor, none for an administrator. */
  function RoleCheck(role: int, count: nat): (r: Result<(), string>)
    ensures role == 0 ==> r.Ok?
    ensures role == 1 ==> (r.Ok? <==> count < 2)
    ensures role == 2 ==> (r.Ok? <==> count < 12)
    ensures role != 0 && role != 1 && role != 2 ==> r == Err("未知用户角色")
  {
    if role == 1 then (if count >= 2 then Err("普通用户最多只能绑定 2 名学生") else Ok(()))
    else if role == 2 then (if count >= 12 then Err("赞助用户最多只能绑定 12 名学生") else Ok(()))
    else if role == 0 then Ok(())
    else Err("未知用户角色")
  }

  /** The name stored with the student: the profile's name, or `""` when it cannot be read. */
  function NameOrEmpty(r: Result<string, string>): string {
    if r.Ok? then r.value else ""
  }

  /**
   * `LoginAndBindStudent` for user `userId`. `user` is the user row (`None`
   * when the query fails for any reason), `countRead` the outcome of the
   * binding count query, `saveLookup` and `bindLookup` those of the store
   * lookups. `attempts` is the number of captcha exchanges made.
   */
  method LoginAndBindStudent(userId: int, stuId: string, plainPassword: string, user: Option<User>,
                             countRead: DbRead, p: Platform, now: Instant, saveLookup: DbRead, bindLookup: DbRead,
                             students: StudentTable, bindings: BindingTable)
    returns (attempts: nat, r: Result<(), string>)
    requires students.Valid() && bindings.Valid()
    modifies students, bindings
    ensures students.Valid() && bindings.Valid()
    ensures user.None? ==>
      r == Err("用户不存在") && attempts == 0 && students.rows == old(students.rows) && bindings.rows == old(bindings.rows)
    ensures user.Some? && countRead.ReadFailed? ==>
      r == Err("查询已绑定学生失败: " + countRead.error) && attempts == 0
      && students.rows == old(students.rows) && bindings.rows == old(bindings.rows)
    ensures user.Some? && countRead.ReadOk? && RoleCheck(user.value.role, old(bindings.CountOf(userId))).Err? ==>
      r == RoleCheck(user.value.role, old(bindings.CountOf(userId))) && attempts == 0
      && students.rows == old(students.rows) && bindings.rows == old(bindings.rows)
    ensures user.Some? && countRead.ReadOk? && RoleCheck(user.value.role, old(bindings.CountOf(userId))).Ok? ==>
      var e := LoginLoop(Attempts(p, stuId, plainPassword, BindRetryable), 1, "");
      && attempts == (if e.Exhausted? then MaxAttempts else e.attempts)
      && (e.Stopped? ==> r == Err(e.error) && students.rows == old(students.rows) && bindings.rows == old(bindings.rows))
      && (e.Exhausted? ==> r == Err("多次尝试登录均失败: " + e.last)
                           && students.rows == old(students.rows) && bindings.rows == old(bindings.rows))
      && (e.Got? ==>
            var name := NameOrEmpty(StudentDetail.DetailOutcome(p.detail(StudentDetail.DetailCookieHeader(e.cookies))));
            var s := Student(stuId, plainPassword, Serialize(e.cookies), now, name);
            && (saveLookup.ReadFailed? ==> r == Err("保存学生信息失败: " + saveLookup.error)
                                           && students.rows == old(students.rows) && bindings.rows == old(bindings.rows))
            && (saveLookup.ReadOk? ==> students.rows == Upserted(old(students.rows), s, now))
            && (saveLookup.ReadOk? && bindLookup.ReadFailed? ==>
                  r == Err("用户与学号绑定失败: " + bindLookup.error) && bindings.rows == old(bindings.rows))
            && (saveLookup.ReadOk? && bindLookup.ReadOk? ==>
                  r == Ok(()) && bindings.rows == WithBinding(old(bindings.rows), old(bindings.nextId), userId, stuId, name)))
  {
    if user.None? {
      return 0, Err("用户不存在");
    }
    if countRead.ReadFailed? {
      return 0, Err("查询已绑定学生失败: " + countRead.error);
    }
    var currentCount := bindings.CountOf(userId);
    var limit := RoleCheck(user.value.role, currentCount);
    if limit.Err? {
      return 0, limit;
    }
    var e := RunLoginLoop(p, stuId, plainPassword, BindRetryable, Attempts(p, stuId, plainPassword, BindRetryable));
    attempts := if e.Exhausted? then MaxAttempts else e.attempts;
    match e {
      case Stopped(err, _) =>
        r := Err(err);
      case Exhausted(last) =>
        r := Err("多次尝试登录均失败: " + last);
      case Got(cookies, _) =>
        var sent, detail := StudentDetail.GetStudentNameFromDetail(cookies, p.detail);
        var studentName := if detail.Ok? then detail.value else "";
        var saved := students.SaveStudentOrUpdate(Student(stuId, plainPassword, Serialize(cookies), now, studentName), now, saveLookup);
        if saved.Err? {
          return attempts, Err("保存学生信息失败: " + saved.error);
        }
        var bound := bindings.BindUserAndStudent(userId, stuId, studentName, bindLookup);
        if bound.Err? {
          return attempts, Err("用户与学号绑定失败: " + bound.error);
        }
        r := Ok(());
    }
  }

  /** The platform's own captcha rejection (`微学工平台提示信息: 验证码错误`) is retried by both loops. */
  lemma {:induction false} CaptchaRejectionRetried()
    ensures BindRetryable(SchoolLogin.PlatformMessagePrefix + "验证码错误")
    ensures RefreshRetryable(SchoolLogin.PlatformMessagePrefix + "验证码错误")
  {
    var e := SchoolLogin.PlatformMessagePrefix + "验证码错误";
    var k := |SchoolLogin.PlatformMessagePrefix|;
    assert e[k..k + 3] == "验证码";
    ContainsAt(e, "验证码", k);
  }

  /** An English `ValCode` error is retried when binding but ends a refresh. */
  lemma {:induction false} ValCodeRetriedOnlyWhenBinding()
    ensures BindRetryable("ValCode")
    ensures !RefreshRetryable("ValCode")
  {
    assert HasPrefix("ValCode", "ValCode");
    NotContainedInAscii("ValCode");
  }

  /** Text made of ASCII code points cannot contain the (non-ASCII) word `验证码`. */
  lemma {:induction false} NotContainedInAscii(s: string)
    requires forall i :: 0 <= i < |s| ==> s[i] < '\U{0080}'
    ensures !Contains(s, "验证码")
    decreases |s|
  {
    if |s| > 0 {
      NotContainedInAscii(s[1..]);
      if |s| >= 3 {
        assert s[..3][0] == s[0];
      }
    }
  }

  /** Three retryable failures in a row use up the loop; the third error is reported. */
  lemma {:induction false} ThreeRetriesExhaust(attempt: nat -> Attempt)
    requires attempt(1).Retry? && attempt(2).Retry? && attempt(3).Retry?
    ensures LoginLoop(attempt, 1, "") == Exhausted(attempt(3).error)
  {
    LoginLoopStopsAtFirstNonRetry(attempt, 1, "");
  }

  /** A captcha that cannot be fetched ends the call at once, whatever later attempts would do. */
  lemma {:induction false} CaptchaFailureIsFinal(p: Platform, stuId: string, password: string, retryable: string -> bool)
    requires Captcha.CaptchaOutcome(p.captcha(1)).Err?
    ensures LoginLoop(Attempts(p, stuId, password, retryable), 1, "")
            == Stopped("获取验证码失败: " + Captcha.CaptchaOutcome(p.captcha(1)).error, 1)
  {
    assert Attempts(p, stuId, password, retryable)(1) == AttemptLogin(p, 1, stuId, password, retryable);
  }

  /** An OCR failure on the first attempt ends the call at once. */
  lemma {:induction false} OcrFailureIsFinal(p: Platform, stuId: string, password: string, retryable: string -> bool)
    requires Captcha.CaptchaOutcome(p.captcha(1)).Ok?
    requires p.ocr(1, Captcha.CaptchaOutcome(p.captcha(1)).value.image).Err?
    ensures LoginLoop(Attempts(p, stuId, password, retryable), 1, "")
            == Stopped("验证码识别失败: " + p.ocr(1, Captcha.CaptchaOutcome(p.captcha(1)).value.image).error, 1)
  {
    assert Attempts(p, stuId, password, retryable)(1) == AttemptLogin(p, 1, stuId, password, retryable);
  }

  /**
   * A login error the call does not retry ends the call at that attempt, with
   * the error reported as a login failure, whatever the attempts after it would do.
   */
  lemma {:induction false} OtherLoginErrorIsFinal(p: Platform, stuId: string, password: string,
                                                  retryable: string -> bool, i: nat, e: string)
    requires 1 <= i <= MaxAttempts
    requires forall j :: 1 <= j < i ==> AttemptLogin(p, j, stuId, password, retryable).Retry?
    requires Captcha.CaptchaOutcome(p.captcha(i)).Ok?
    requires p.ocr(i, Captcha.CaptchaOutcome(p.captcha(i)).value.image).Ok?
    requires SchoolLogin.LoginOutcome(stuId, password, p.ocr(i, Captcha.CaptchaOutcome(p.captcha(i)).value.image).value,
                                      Captcha.CaptchaOutcome(p.captcha(i)).value.cookies, p.encrypt, p.send(i)) == Err(e)
    requires !retryable(e)
    ensures LoginLoop(Attempts(p, stuId, password, retryable), 1, "") == Stopped("登录失败: " + e, i)
  {
    var attempt := Attempts(p, stuId, password, retryable);
    assert attempt(i) == Fatal("登录失败: " + e);
    assert forall j :: 1 <= j < i ==> attempt(j).Retry? by {
      forall j | 1 <= j < i
        ensures attempt(j).Retry?
      {
        assert attempt(j) == AttemptLogin(p, j, stuId, password, retryable);
      }
    }
    FatalAfterRetriesStops(attempt, 1, i, "");
  }

  /** Retries up to attempt `k` and a terminal error there end the loop at `k` with that error. */
  lemma {:induction false} FatalAfterRetriesStops(attempt: nat -> Attempt, i: nat, k: nat, last: string)
    requires 1 <= i <= k <= MaxAttempts
    requires forall j :: i <= j < k ==> attempt(j).Retry?
    requires attempt(k).Fatal?
    ensures LoginLoop(attempt, i, last) == Stopped(attempt(k).error, k)
    decreases k - i
  {
    if i < k {
      FatalAfterRetriesStops(attempt, i + 1, k, attempt(i).error);
    }
  }
}
