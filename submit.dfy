/**
 * logic/student/submit.go: `ExecuteSignTask`, one check-in attempt for a task.
 * The POST to the platform is the function `submit` from the request to what
 * came back; the notification e-mail is only decided, not sent.
 */
module Submit {
  import opened Wrappers
  import opened Models
  import opened Cookies
  import opened Tasks
  import opened Operations

  const AlreadySignedMsg: string := "该活动已经签到成功"
  const NoCookieError: string := "用户未登录或 Cookie 缺失"

  function StudentNotFoundError(stuId: string): string {
    "找不到学号 " + stuId + " 对应的学生信息"
  }

  /** The check-in request: the form's task fields and the `Cookie` header. */
  datatype SubmitRequest = SubmitRequest(
    activityId: string, address: string, longitude: real, latitude: real, cookieHeader: string)

  /** What the POST produced: a transport error, a body that is not JSON, or `isok` and `msg`. */
  datatype SubmitReply = SendFailed(error: string) | NotJson(error: string) | Replied(isOk: bool, msg: string)

  /** The arguments of `SendSignResultEmail`, apart from the clock. */
  datatype Notice = Notice(email: string, taskName: string, activityName: string, success: bool, errMsg: string)

  /** The status and message `updateAndReturn` is called with. */
  datatype Verdict = Verdict(status: ExecStatus, errMsg: string)

  /** The student row the executor reads; a failed query counts as "not found". */
  function StudentFor(rows: seq<Student>, stuId: string, read: DbRead): (r: Option<Student>)
    ensures r.Some? ==> read.ReadOk? && r.value in rows && r.value.stuId == stuId
    ensures r.None? <==> read.ReadFailed? || forall i :: 0 <= i < |rows| ==> rows[i].stuId != stuId
  {
    if read.ReadFailed? then None
    else match FindStudent(rows, stuId)
      case None => None
      case Some(i) => Some(rows[i])
  }

  /** The request for a task with the student's stored cookies, re-serialised after parsing. */
  function RequestFor(t: Task, storedCookies: string): SubmitRequest {
    SubmitRequest(t.activityId, t.address, t.longitude, t.latitude, Serialize(Deserialize(storedCookies)))
  }

  /** Whether the executor sends a request at all: only for a stored student with cookies. */
  predicate Sends(student: Option<Student>) {
    student.Some? && student.value.cookies != ""
  }

  /** The outcome of one attempt, the classification at submit.go:52-116. */
  function Outcome(t: Task, student: Option<Student>, submit: SubmitRequest -> SubmitReply): (v: Verdict)
    ensures v.status == Success || v.status == Failed
    ensures v.status == Success <==>
      Sends(student) && submit(RequestFor(t, student.value.cookies)).Replied?
      && (submit(RequestFor(t, student.value.cookies)).isOk || submit(RequestFor(t, student.value.cookies)).msg == AlreadySignedMsg)
    ensures v.status == Success ==> v.errMsg == ""
    ensures student.None? ==> v == Verdict(Failed, StudentNotFoundError(t.stuId))
    ensures student.Some? && student.value.cookies == "" ==> v == Verdict(Failed, NoCookieError)
    ensures v.status == Failed && Sends(student) && submit(RequestFor(t, student.value.cookies)).Replied? ==>
      v.errMsg == submit(RequestFor(t, student.value.cookies)).msg
  {
    if student.None? then Verdict(Failed, StudentNotFoundError(t.stuId))
    else if student.value.cookies == "" then Verdict(Failed, NoCookieError)
    else match submit(RequestFor(t, student.value.cookies))
      case SendFailed(e) => Verdict(Failed, "请求发送失败: " + e)
      case NotJson(e) => Verdict(Failed, "响应解析失败: " + e)
      case Replied(isOk, msg) =>
        if isOk || msg == AlreadySignedMsg then Verdict(Success, "") else Verdict(Failed, msg)
  }

  /** The task after `updateAndReturn`: status and message set, one more attempt, executed now. */
  function Attempted(t: Task, v: Verdict, now: Instant): (r: Task)
    ensures r.execStatus == v.status && r.lastError == v.errMsg
    ensures r.retryCount == t.retryCount + 1 && r.executedAt == Some(now)
    ensures r.(execStatus := t.execStatus, lastError := t.lastError, retryCount := t.retryCount, executedAt := t.executedAt) == t
  {
    t.(execStatus := v.status, lastError := v.errMsg, retryCount := t.retryCount + 1, executedAt := Some(now))
  }

  /** The e-mail decision: only with a notification address, flagged with the success. */
  function NoticeFor(t: Task, v: Verdict): (n: Option<Notice>)
    ensures n.Some? <==> t.notifyEmail != ""
    ensures n.Some? ==> n.value.email == t.notifyEmail && n.value.errMsg == v.errMsg
    ensures n.Some? ==> (n.value.success <==> v.status == Success)
  {
    if t.notifyEmail != "" then Some(Notice(t.notifyEmail, t.name, t.activityName, v.status == Success, v.errMsg)) else None
  }

  /** What `ExecuteSignTask` returns: an error exactly when the stored message is not empty. */
  function ReturnOf(v: Verdict): (r: Result<(), string>)
    ensures r.Ok? <==> v.errMsg == ""
    ensures r.Err? ==> r.error == v.errMsg
  {
    if v.errMsg != "" then Err(v.errMsg) else Ok(())
  }

  /** `updateAndReturn`: record the verdict on the task's row, decide the e-mail, return. */
  method UpdateAndReturn(tasks: TaskTable, task: Task, v: Verdict, now: Instant)
    returns (notice: Option<Notice>, r: Result<(), string>)
    requires tasks.Valid()
    requires exists i :: 0 <= i < |tasks.rows| && tasks.rows[i].id == task.id && KeyOf(tasks.rows[i]) == KeyOf(task)
    modifies tasks
    ensures tasks.Valid() && tasks.nextId == old(tasks.nextId) && |tasks.rows| == |old(tasks.rows)|
    ensures forall i :: 0 <= i < |tasks.rows| ==>
      tasks.rows[i] == if old(tasks.rows)[i].id == task.id then Attempted(task, v, now) else old(tasks.rows)[i]
    ensures notice == NoticeFor(task, v) && r == ReturnOf(v)
  {
    var updated := Attempted(task, v, now);
    tasks.SaveRow(updated);
    notice := NoticeFor(task, v);
    if v.errMsg != "" {
      return notice, Err(v.errMsg);
    }
    r := Ok(());
  }

  /**
   * `ExecuteSignTask` on a task read from `tasks`. `stuRead` is the outcome of
   * the student query; `sent` is the request that went out, if any.
   */
  method ExecuteSignTask(tasks: TaskTable, students: StudentTable, task: Task, now: Instant,
                         stuRead: DbRead, submit: SubmitRequest -> SubmitReply)
    returns (sent: Option<SubmitRequest>, notice: Option<Notice>, r: Result<(), string>)
    requires tasks.Valid()
    requires exists i :: 0 <= i < |tasks.rows| && tasks.rows[i].id == task.id && KeyOf(tasks.rows[i]) == KeyOf(task)
    modifies tasks
    ensures tasks.Valid() && tasks.nextId == old(tasks.nextId) && |tasks.rows| == |old(tasks.rows)|
    ensures var stu := StudentFor(students.rows, task.stuId, stuRead);
      var v := Outcome(task, stu, submit);
      && (forall i :: 0 <= i < |tasks.rows| ==>
            tasks.rows[i] == if old(tasks.rows)[i].id == task.id then Attempted(task, v, now) else old(tasks.rows)[i])
      && notice == NoticeFor(task, v)
      && r == ReturnOf(v)
      && (sent.Some? <==> Sends(stu))
      && (sent.Some? ==> sent.value == RequestFor(task, stu.value.cookies))
  {
    var stu := StudentFor(students.rows, task.stuId, stuRead);
    var v: Verdict;
    if stu.None? {
      sent := None;
      v := Verdict(Failed, StudentNotFoundError(task.stuId));
    } else if stu.value.cookies == "" {
      sent := None;
      v := Verdict(Failed, NoCookieError);
    } else {
      var cookies := Deserialize(stu.value.cookies);
      var req := SubmitRequest(task.activityId, task.address, task.longitude, task.latitude, Serialize(cookies));
      sent := Some(req);
      var reply := submit(req);
      match reply {
        case SendFailed(e) => v := Verdict(Failed, "请求发送失败: " + e);
        case NotJson(e) => v := Verdict(Failed, "响应解析失败: " + e);
        case Replied(isOk, msg) =>
          if isOk || msg == AlreadySignedMsg {
            v := Verdict(Success, "");
          } else {
            v := Verdict(Failed, msg);
          }
      }
    }
    notice, r := UpdateAndReturn(tasks, task, v, now);
  }

  /** A refusal with an empty `msg` is stored as a failure, yet the call returns no error. */
  lemma {:induction false} SilentFailure(t: Task, s: Student, submit: SubmitRequest -> SubmitReply)
    requires s.cookies != ""
    requires submit(RequestFor(t, s.cookies)) == Replied(false, "")
    ensures Outcome(t, Some(s), submit) == Verdict(Failed, "")
    ensures ReturnOf(Outcome(t, Some(s), submit)).Ok?
  {
    assert "" != AlreadySignedMsg;
  }

  /** "Already signed in" is a success whatever `isok` says, and clears the message. */
  lemma {:induction false} AlreadySignedIsSuccess(t: Task, s: Student, submit: SubmitRequest -> SubmitReply, isOk: bool)
    requires s.cookies != ""
    requires submit(RequestFor(t, s.cookies)) == Replied(isOk, AlreadySignedMsg)
    ensures Outcome(t, Some(s), submit) == Verdict(Success, "")
    ensures ReturnOf(Outcome(t, Some(s), submit)) == Ok(())
  {
  }

  /** Every attempt, successful or not, consumes one retry and restarts the clock. */
  lemma {:induction false} AttemptConsumesRetry(t: Task, student: Option<Student>, submit: SubmitRequest -> SubmitReply, now: Instant)
    ensures var a := Attempted(t, Outcome(t, student, submit), now);
      a.retryCount == t.retryCount + 1 && a.executedAt == Some(now)
      && a.id == t.id && KeyOf(a) == KeyOf(t) && a.maxRetry == t.maxRetry && a.enabled == t.enabled
  {
    var a := Attempted(t, Outcome(t, student, submit), now);
    assert a == t.(execStatus := a.execStatus, lastError := a.lastError, retryCount := t.retryCount + 1, executedAt := Some(now));
  }
}
