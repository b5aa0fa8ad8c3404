/**
 * database/models.go: the records the system stores, with the key and
 * uniqueness constraints the schema declares.
 */
module Models {
  import opened Wrappers
  import opened Strings

  /** Seconds on the server's wall clock; one clock for local time and the database's. */
  type Instant = int

  /** Go's zero `time.Time{}` (0001-01-01 00:00:00 UTC) in seconds from 1970. */
  const ZeroTime: Instant := -62135596800

  /** `Task.ExecStatus`: the source writes only these three strings. */
  datatype ExecStatus = Pending | Success | Failed {
    function Text(): string {
      match this
      case Pending => "pending"
      case Success => "success"
      case Failed => "failed"
    }
  }

  /**
   * A scheduled daily check-in. Coordinates are `float64` in the source and are
   * only stored and formatted; `real` stands for them. `executedAt == None` is a
   * NULL column, which no modelled writer produces.
   */
  datatype Task = Task(
    id: nat,
    userId: int,
    stuId: string,
    activityId: string,
    name: string,
    activityName: string,
    address: string,
    longitude: real,
    latitude: real,
    signTime: string,
    notifyEmail: string,
    enabled: bool,
    execStatus: ExecStatus,
    retryCount: int,
    maxRetry: int,
    lastError: string,
    executedAt: Option<Instant>)

  /** The unique index `idx_user_activity_time`. */
  datatype TaskKey = TaskKey(userId: int, stuId: string, activityId: string)

  function KeyOf(t: Task): TaskKey {
    TaskKey(t.userId, t.stuId, t.activityId)
  }

  /** A platform account's stored session; `stuId` is the primary key. */
  datatype Student = Student(stuId: string, password: string, cookies: string, lastLogin: Instant, name: string)

  /** A binding of a platform user to a student account; the schema does not make (user, student) unique. */
  datatype UserStudent = UserStudent(id: nat, userId: int, stuId: string, name: string)

  /** The password column: a bcrypt hash, modelled as the hash of exactly one plain byte string. */
  datatype PasswordHash = Bcrypt(plain: seq<byte>)

  datatype User = User(
    id: nat,
    username: string,
    email: string,
    emailVerified: bool,
    password: PasswordHash,
    tokenVersion: int,
    role: int)

  /** `EmailVerificationCode.Purpose`; the source writes these three strings. */
  datatype Purpose = Register | ChangeEmail | ResetPassword {
    function Text(): string {
      match this
      case Register => "register"
      case ChangeEmail => "change_email"
      case ResetPassword => "reset"
    }
  }

  datatype EmailVerificationCode = EmailVerificationCode(
    id: nat,
    email: string,
    code: string,
    purpose: Purpose,
    expiresAt: Instant,
    createdAt: Instant)

  datatype SponsorActivationCode = SponsorActivationCode(
    id: nat,
    code: string,
    used: bool,
    usedBy: Option<int>,
    usedAt: Option<Instant>,
    createdAt: Instant)

  /** At most one task per (UserID, StuID, ActivityID). */
  predicate UniqueTaskKeys(rows: seq<Task>) {
    forall i, j :: 0 <= i < j < |rows| ==> KeyOf(rows[i]) != KeyOf(rows[j])
  }

  predicate UniqueTaskIds(rows: seq<Task>) {
    forall i, j :: 0 <= i < j < |rows| ==> rows[i].id != rows[j].id
  }

  /** One student record per `StuID`. */
  predicate UniqueStuIds(rows: seq<Student>) {
    forall i, j :: 0 <= i < j < |rows| ==> rows[i].stuId != rows[j].stuId
  }

  predicate UniqueBindingIds(rows: seq<UserStudent>) {
    forall i, j :: 0 <= i < j < |rows| ==> rows[i].id != rows[j].id
  }

  /** `User.ID` is the primary key; `Username` and `Email` are each unique. */
  predicate UniqueUsers(rows: seq<User>) {
    forall i, j :: 0 <= i < j < |rows| ==>
      rows[i].id != rows[j].id && rows[i].username != rows[j].username && rows[i].email != rows[j].email
  }

  predicate UniqueCodeIds(rows: seq<EmailVerificationCode>) {
    forall i, j :: 0 <= i < j < |rows| ==> rows[i].id != rows[j].id
  }

  /** `SponsorActivationCode.Code` is unique, and so is the primary key. */
  predicate UniqueSponsorCodes(rows: seq<SponsorActivationCode>) {
    forall i, j :: 0 <= i < j < |rows| ==> rows[i].id != rows[j].id && rows[i].code != rows[j].code
  }

  /** A row the source can read back: an unused sponsor code carries no user and no time. */
  predicate SponsorCodeConsistent(c: SponsorActivationCode) {
    !c.used ==> c.usedBy.None? && c.usedAt.None?
  }

  /** The outcome of a read that is not "record not found": success, or a store error. */
  datatype DbRead = ReadOk | ReadFailed(error: string)
}
