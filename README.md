# dormcheck in Dafny

dormcheck is a Go web service that performs a dormitory "check-in" on a school
platform for its users. A user binds one or more student accounts (student
number and password) to their dormcheck account. The service logs in to the
platform on the student's behalf, solving the platform's captcha with an OCR
service and keeping the session cookies. The user then schedules daily sign
tasks: an activity, a place, a time of day and a number of retries. Three
background loops drive the tasks:

- the sign worker submits every due task;
- the reset worker restores every task's retries shortly after midnight;
- the cookie refresher logs every student in again at 18:00.

User accounts are email-verified. Passwords travel base64-encoded and are
stored as bcrypt hashes. Sponsor activation codes raise an account's role,
and a token version lets a user log out of every device.

This project models that core: the record store and its uniqueness rules, the
task lifecycle, the three loops, the platform login protocol (captcha cookies,
the login form, the `ct_vali` session cookie, the student-detail page) and the
account rules. The model is split into one module per source file:

| module | file |
|---|---|
| `Models` | `database/models.go` |
| `Operations` | `database/operations.go` |
| `Cookies` | `utils/cookie.go` |
| `VerificationCode` | `utils/code.go` |
| `Tasks` | `logic/student/task.go` |
| `Submit` | `logic/student/submit.go` |
| `StudentLogin` | `logic/student/login.go` |
| `Binding` | `logic/user/bind.go` |
| `Auth` | `logic/user/auth.go` |
| `SignWorker` | `scheduler/sign_worker.go` |
| `ResetWorker` | `scheduler/reset_worker.go` |
| `CookieRefresher` | `scheduler/cookie_refresher.go` |
| `SchoolLogin` | `external/schoollogin/login.go` |
| `Captcha` | `external/schoollogin/captcha.go` |
| `StudentDetail` | `external/schoollogin/studentdetail.go` |

`Clock`, `Strings`, `Base64` and `Wrappers` model the parts of Go's and SQLite's
libraries that the core relies on.

How the model is built:

- Each database table the core writes is a class whose `rows` field is a sequence of records: `Tasks.TaskTable`, `Operations.StudentTable`, `Operations.BindingTable`, and `Auth.UserStore` for users, email codes and sponsor codes. Each class keeps the schema's unique keys as its `Valid()` invariant.
- A database read that the source checks for an error is a `DbRead` parameter (`ReadOk` or `ReadFailed(error)`).
- The network is a function parameter: the platform's captcha, login, detail and submit endpoints, the OCR service, the RSA encryption and the mailer.
- Random bytes and the current time (`Instant`, whole seconds) are parameters too.

## Model

| member | source | states |
|---|---|---|
| Cookies.Serialize | utils/cookie.go:9-15 | the serialised jar is empty exactly when there are no cookies |
| Cookies.Deserialize | utils/cookie.go:18-30 | definition: split on `"; "` and parse every segment; it never fails |
| Cookies.ParsePair | utils/cookie.go:22-27 | a segment without `=` gives no cookie; otherwise the name holds no `=` and `name=value` rebuilds the segment (split at the first `=`) |
| Cookies.ParseAll | utils/cookie.go:21-28 | at most one cookie per segment; one for each when every segment has `=`; none when no segment has `=` |
| Cookies.DeserializeEmpty | utils/cookie.go:18-30 | the empty string deserialises to no cookies |
| Cookies.SplitJoin | utils/cookie.go:14-20 | splitting on `"; "` undoes joining with `"; "` when no part contains the separator |
| Cookies.NoSeparatorInPair | utils/cookie.go:12 | a well-formed cookie's `name=value` never contains `"; "` |
| Cookies.ParsePairOfPair | utils/cookie.go:22-26 | parsing `name=value` gives the cookie back whenever the name has no `=`, even if the value has one |
| Cookies.ParseAllPairs | utils/cookie.go:21-28 | parsing every pair gives back the whole cookie list |
| Cookies.RoundTrip | utils/cookie.go:9-30 | deserialising a serialised jar of well-formed cookies gives the same cookies in the same order |
| Cookies.SegmentWithoutEqualsDropped | utils/cookie.go:22-23 | a segment without `=` is silently dropped |
| VerificationCode.GenerateVerificationCode | utils/code.go:8-19 | a random-source failure is returned as the error; otherwise six characters, each a decimal digit, character i being digit `b[i] mod 10` |
| Tasks.Created | logic/student/task.go:21-29 | a new task carries the submitted key, is enabled and pending, has no retries used, no error and the zero execution time |
| Tasks.Updated | logic/student/task.go:35-50 | re-saving a task replaces the owner's fields, re-enables it and resets its execution state, and keeps its id and key |
| Tasks.Reset | scheduler/reset_worker.go:24-28 | the daily reset zeroes the retries, sets pending and clears the error, and changes nothing else |
| Tasks.ResetIdempotent | scheduler/reset_worker.go:24-28 | resetting twice is the same as resetting once |
| Tasks.FindKey | logic/student/task.go:17-19 | finds the first task with a given (user, student, activity) key, or none exactly when no task has it |
| Tasks.CountFor | logic/user/bind.go:13-16 | the task count for a (user, student) pair is zero exactly when no task belongs to it |
| Tasks.TaskTable.SaveTask | logic/student/task.go:14-53 | a failed lookup returns its error and changes nothing; otherwise a new key appends a created task and a known key turns that row into its updated form; afterwards the key exists and the keys stay unique |
| Tasks.TaskTable.SaveRow | logic/student/submit.go:25 | saving an executed task overwrites the row with its id and leaves the others alone |
| Tasks.TaskTable.ResetAll | scheduler/reset_worker.go:21-28 | every row becomes its reset form and no row is added or lost |
| SignWorker.PendingTasks | scheduler/sign_worker.go:52-73 | a task is selected exactly when it is stored and due: sign time passed today, not succeeded, retries left, enabled, and not executed in the last five minutes |
| SignWorker.CooledDown | scheduler/sign_worker.go:64 | definition: never executed, or executed at least five minutes before now |
| SignWorker.Due | scheduler/sign_worker.go:58-70 | definition of the query's condition: sign time passed today, not succeeded, retries left, enabled, cooled down |
| SignWorker.PendingTasksDistinct | scheduler/sign_worker.go:58-70 | the selection holds each task id at most once |
| SignWorker.RetriesExhaustedNeverDue | scheduler/sign_worker.go:62 | a task that used all its retries is never selected |
| SignWorker.AttemptedTaskCoolsDown | scheduler/sign_worker.go:54-64 | a task attempted less than five minutes ago is not selected, whatever the outcome |
| SignWorker.SucceededNeverDue | scheduler/sign_worker.go:61 | a task whose attempt succeeded is not selected again |
| SignWorker.SavedTaskPassesCooldown | scheduler/sign_worker.go:64 | a created or re-saved task passes the five-minute cooldown at any time after 1970 |
| SignWorker.CreatedTaskDueAtSignTime | scheduler/sign_worker.go:58-70 | a new task with sign time 08:00 and retries is due exactly from 08:00 until midnight |
| SignWorker.Executed | logic/student/submit.go:18-22 | running a task keeps its id and key, uses one retry and stamps the run time |
| SignWorker.ResultsFor | scheduler/sign_worker.go:38-47 | one result per selected task, each what that task's execution returns |
| SignWorker.RanAllRunsEachOnce | scheduler/sign_worker.go:38-47 | running the selected tasks one after another turns each selected row into its executed form and leaves every other row unchanged |
| SignWorker.RunDueTask | scheduler/sign_worker.go:41 | running one task returns its verdict and replaces its row by the executed form |
| SignWorker.RunPending | scheduler/sign_worker.go:38-47 | the loop returns the results and leaves the table as the run of all selected tasks |
| SignWorker.Worker.constructor | scheduler/sign_worker.go:16 | the remembered task count starts at -1, so the first tick always logs |
| SignWorker.Worker.Tick | scheduler/sign_worker.go:18-48 | a failed query changes and logs nothing; otherwise the tick logs exactly when the count of due tasks changed, remembers it, returns one result per due task, and every due row (and no other) is executed |
| Clock.DayStart | scheduler/sign_worker.go:60 | `date('now')` is the midnight at or before now, less than a day earlier |
| Clock.ParseSignTime | scheduler/sign_worker.go:60 | of the `H:MM`/`HH:MM` texts a task can be saved with, SQLite reads exactly the two-digit-hour ones, as a minute of the day; a one-digit hour gives nothing |
| Clock.TriggerPassed | scheduler/sign_worker.go:60 | definition: the sign time parses and today's minute of it is at or before now; an unparsable time never passes |
| Clock.OneDigitHourNeverPasses | scheduler/sign_worker.go:60 | a sign time written `8:30` never counts as passed |
| Clock.TriggerPassedAt | scheduler/sign_worker.go:60 | `08:00` counts as passed exactly from 08:00 until midnight |
| ResetWorker.NextResetFire | scheduler/reset_worker.go:13-15 | the reset fires at 00:03 of the next day: strictly after now and at most a day and three minutes later |
| ResetWorker.ResetSleepPositive | scheduler/reset_worker.go:13-18 | the reset loop always sleeps a positive time of at most a day and three minutes |
| ResetWorker.ResetRestoresRetries | scheduler/reset_worker.go:24-28 | after the reset a task has retries left exactly when its maximum is positive, and it is not marked succeeded |
| ResetWorker.ResetTaskDue | scheduler/reset_worker.go:24-28 | after the reset a task is due exactly when its time has passed, its maximum is positive, it is enabled and its cooldown has passed |
| ResetWorker.ExhaustedTaskRevived | scheduler/reset_worker.go:24-28 | an enabled task that used all its retries is not due before the reset and is due after it |
| CookieRefresher.NextRefreshFire | scheduler/cookie_refresher.go:15-19 | the refresh fires at the next 18:00, today's when now is not after it, within a day |
| CookieRefresher.RefreshAtEighteen | scheduler/cookie_refresher.go:15-19 | at 18:00 exactly the refresh fires immediately; one second later it waits a day less one second |
| CookieRefresher.Refreshed | scheduler/cookie_refresher.go:31-41 | a failed login keeps the student unchanged; a successful one stores the serialised new cookies and the login time, and keeps id, password and name |
| CookieRefresher.RefreshCycle | scheduler/cookie_refresher.go:25-46 | a failed query changes nothing; otherwise every student row becomes its refreshed form and no row is added or lost |
| Submit.StudentFor | logic/student/submit.go:53-56 | the student is found exactly when the read succeeds and a row has the task's student number |
| Submit.RequestFor | logic/student/submit.go:61-89 | definition: the task's activity, address and coordinates, with the stored cookies parsed and re-joined as the header |
| Submit.Outcome | logic/student/submit.go:52-117 | the verdict is success exactly when a request was sent and the platform said `isok` or "already signed"; a missing student or empty cookies fail with their messages; a failure carries the platform's message |
| Submit.Attempted | logic/student/submit.go:18-22 | the recorded attempt sets status and error from the verdict, uses one retry, stamps the time and changes nothing else |
| Submit.NoticeFor | logic/student/submit.go:29-44 | a notice is sent exactly when the task has a notify address, to that address, with the verdict's success and message |
| Submit.ReturnOf | logic/student/submit.go:46-49 | the execution returns success exactly when the error message is empty, and the message otherwise |
| Submit.UpdateAndReturn | logic/student/submit.go:18-50 | only the task's row changes, to the attempted form; the notice and the result follow the verdict |
| Submit.ExecuteSignTask | logic/student/submit.go:17-117 | a request is sent exactly when the student exists with cookies; the row, the notice and the result follow the verdict |
| Submit.SilentFailure | logic/student/submit.go:112-116 | a refusal with an empty message is recorded as failed yet returns no error |
| Submit.AlreadySignedIsSuccess | logic/student/submit.go:112-113 | the "already signed" message counts as success even when `isok` is false |
| Submit.AttemptConsumesRetry | logic/student/submit.go:18-22 | every execution, whatever its outcome, uses one retry and keeps the task's id, key, maximum and enabled flag |
| StudentLogin.AttemptLogin | logic/student/login.go:49-69 | each stage of one attempt decides its outcome: a captcha failure and an OCR failure are terminal with their own prefixes; a login error is retried exactly when the call's retry test accepts it and is otherwise terminal as a login failure; a successful login carries the login's session cookies |
| StudentLogin.LoginLoop | logic/student/login.go:46-98 | a loop that did not run out ends within three attempts |
| StudentLogin.LoginLoopStopsAtFirstNonRetry | logic/student/login.go:46-98 | the loop ends at the first attempt that is not retried, with that attempt's error or cookies; it runs out exactly when all three attempts ask for a retry, keeping the last error |
| StudentLogin.BindRetryable | logic/student/login.go:64 | definition: binding retries an error that mentions `验证码` or `ValCode` |
| StudentLogin.RefreshRetryable | logic/student/login.go:122 | definition: refreshing retries only an error that mentions `验证码` |
| StudentLogin.TryOnce | logic/student/login.go:49-69 | one pass of the loop body yields the attempt's outcome |
| StudentLogin.RunLoginLoop | logic/student/login.go:46-98 | the imperative loop ends as the loop's definition does |
| StudentLogin.RefreshOutcome | logic/student/login.go:102-133 | the cookie-only login succeeds exactly when an attempt logs in before the loop ends, and returns that attempt's cookies; a terminal attempt returns its error; three retries return "多次登录失败: " with the last error |
| StudentLogin.LoginWithoutBind | logic/student/login.go:102-133 | the method returns the cookie-only login's outcome |
| StudentLogin.RoleCheck | logic/student/login.go:31-44 | role 0 is unlimited, role 1 may bind up to 2 students, role 2 up to 12, any other role is refused |
| StudentLogin.LoginAndBindStudent | logic/student/login.go:16-99 | a missing user, a failed count or an exhausted quota stop before any login; otherwise the login loop runs, and on success the student is upserted with the new cookies and name and then bound; every failure reports its own message and leaves the later tables unchanged |
| StudentLogin.CaptchaRejectionRetried | logic/student/login.go:64-67 | the platform's captcha rejection is retried by both logins |
| StudentLogin.ValCodeRetriedOnlyWhenBinding | logic/student/login.go:121-126 | an error naming `ValCode` is retried when binding but not when refreshing |
| StudentLogin.ThreeRetriesExhaust | logic/student/login.go:46-98 | three retryable failures exhaust the loop with the third error |
| StudentLogin.CaptchaFailureIsFinal | logic/student/login.go:49-52 | a captcha failure on the first attempt ends the loop at once |
| StudentLogin.OcrFailureIsFinal | logic/student/login.go:54-57 | an OCR failure on the first attempt ends the call with the recognition message |
| StudentLogin.OtherLoginErrorIsFinal | logic/student/login.go:63-68 | a login error the call does not retry ends it at that attempt as a login failure, whatever later attempts would do |
| SchoolLogin.LoginForm | external/schoollogin/login.go:44-51 | the form has exactly six fields: the encrypted name and password, the lower-cased captcha and three fixed flags |
| SchoolLogin.CookieHeader | external/schoollogin/login.go:61-70 | no cookie header is sent exactly when the captcha jar has no session cookies |
| SchoolLogin.BuildCookieHeader | external/schoollogin/login.go:61-70 | the loop builds the header its definition gives |
| SchoolLogin.CtValiHeaders | external/schoollogin/login.go:102-104 | only `ct_vali=` headers from the reply are kept |
| SchoolLogin.UpToSemicolon | external/schoollogin/login.go:106 | the cookie text stops before the first `;` and is a prefix of the header |
| SchoolLogin.CtValiValue | external/schoollogin/login.go:106-107 | definition: the header up to its first `;`, without the `ct_vali=` prefix |
| SchoolLogin.SecondCtVali | external/schoollogin/login.go:100-111 | definition: the value of the second `ct_vali` header, or empty when there are fewer than two |
| SchoolLogin.SessionCookies | external/schoollogin/login.go:119-123 | definition: `qyuserid` with the account, `utpstr=1` and `ct_vali` with the token, in that order |
| SchoolLogin.ExtractCtVali | external/schoollogin/login.go:100-111 | the loop picks the value of the second `ct_vali` header |
| SchoolLogin.ReplyOutcome | external/schoollogin/login.go:72-129 | the login succeeds exactly when the reply is JSON with `isok` and a non-empty second `ct_vali`, and then returns the three session cookies; a refusal carries the platform's message; fewer than two `ct_vali` headers fail |
| SchoolLogin.LoginOutcome | external/schoollogin/login.go:32-130 | an encryption failure reports which field failed; success means both encryptions worked and the reply accepted the request built from them |
| SchoolLogin.Login | external/schoollogin/login.go:32-130 | a request is sent exactly when both encryptions succeed, and it is the one built from them |
| SchoolLogin.DecoyAloneFails | external/schoollogin/login.go:100-116 | a single `ct_vali` header is not enough to log in |
| SchoolLogin.SecondHeaderWins | external/schoollogin/login.go:100-111 | with two `ct_vali` headers the second one's value is used |
| SchoolLogin.UpToSemicolonStops | external/schoollogin/login.go:106-107 | the value ends at the first `;` |
| Captcha.Correlation | external/schoollogin/captcha.go:46-51 | keeps exactly the jar's `Vlis` and `VK_` cookies |
| Captcha.FilterCorrelation | external/schoollogin/captcha.go:46-51 | the loop keeps what the definition keeps, in order |
| Captcha.CaptchaOutcome | external/schoollogin/captcha.go:16-57 | each failure reports its stage; fewer than two session cookies fail; success returns those cookies and a data URL whose base64 decodes to the image |
| Captcha.GetValidateCodeBase64 | external/schoollogin/captcha.go:16-57 | the method returns the captcha outcome |
| Captcha.TwoVlisPass | external/schoollogin/captcha.go:48-54 | two `Vlis` cookies and no `VK_` pass the check |
| StudentDetail.RawHeader | external/schoollogin/studentdetail.go:28-31 | a non-empty jar's header text ends in `"; "` |
| StudentDetail.BuildDetailCookieHeader | external/schoollogin/studentdetail.go:28-32 | the loop builds the trimmed header its definition gives |
| StudentDetail.DetailHeaderEndsWithSemicolon | external/schoollogin/studentdetail.go:28-32 | the header sent is empty for no cookies and otherwise ends in `;` |
| StudentDetail.MatchAt | external/schoollogin/studentdetail.go:53 | a match of the `userName` pattern captures a non-empty text without `'` |
| StudentDetail.LeftmostMatch | external/schoollogin/studentdetail.go:54 | finds the leftmost position where the pattern matches, or none exactly when it matches nowhere |
| StudentDetail.ExtractUserName | external/schoollogin/studentdetail.go:53-60 | fails exactly when the pattern matches nowhere; a name holds no `'` and has no surrounding spaces |
| StudentDetail.ExtractUserNameLeftmost | external/schoollogin/studentdetail.go:53-60 | the name is the trimmed capture of the leftmost match |
| StudentDetail.NoMatchWithoutV | external/schoollogin/studentdetail.go:53 | no match starts at a character other than `v` |
| StudentDetail.DetailOutcome | external/schoollogin/studentdetail.go:36-60 | a transport failure is returned; a page yields its extracted name |
| StudentDetail.GetStudentNameFromDetail | external/schoollogin/studentdetail.go:13-64 | sends the built header and returns the page's outcome |
| StudentDetail.DeclarationMatches | external/schoollogin/studentdetail.go:53 | `var userName = ' 张三 ';` matches anywhere in a page and captures ` 张三 ` |
| StudentDetail.DeclaredNameFound | external/schoollogin/studentdetail.go:53-60 | a page whose declaration is preceded by no `v` yields the name `张三` |
| Operations.FindStudent | database/operations.go:38 | finds a row with the student number, or none exactly when no row has it |
| Operations.Upserted | database/operations.go:34-57 | a new student is appended; a known one gets new password, cookies, login time and name; student numbers stay unique and the saved cookies and name are present |
| Operations.StudentTable.GetStudentByStuID | database/operations.go:82-89 | a student is returned exactly when a row has the number, and it is that row |
| Operations.StudentTable.SaveStudentOrUpdate | database/operations.go:34-57 | a failed lookup returns its error and changes nothing; otherwise the table becomes the upsert |
| Operations.StudentTable.SaveRow | scheduler/cookie_refresher.go:41 | saving a student overwrites the row with its number and leaves the others |
| Operations.WithBinding | database/operations.go:60-79 | afterwards the binding exists; an existing binding leaves the rows as they were; a new one is appended with the next id |
| Operations.BindingTable.BindUserAndStudent | database/operations.go:60-79 | a failed lookup returns its error and changes nothing; otherwise the table becomes the binding upsert, which keeps (user, student) pairs unique |
| Operations.BindingsOf | logic/user/bind.go:38-41 | exactly the user's bindings are listed, in table order |
| Operations.BindingsOfCounts | logic/user/bind.go:38-41 | each of the user's rows is listed as many times as the table holds it, and no other row is |
| Operations.WithoutPair | logic/user/bind.go:26 | deleting a (user, student) pair keeps exactly the rows of other pairs |
| Operations.WithoutPairCount | logic/user/bind.go:26-32 | no row is deleted exactly when the pair was not bound |
| Operations.WithoutPairKeepsIds | database/models.go:27 | deleting rows keeps binding ids unique |
| Models.UniqueTaskKeys | database/models.go:43-45 | definition: no two tasks share (user, student, activity) |
| Models.UniqueTaskIds | database/models.go:42 | definition: task ids are distinct |
| Models.UniqueStuIds | database/models.go:34 | definition: one student row per student number |
| Models.UniqueBindingIds | database/models.go:27 | definition: binding ids are distinct |
| Models.UniqueUsers | database/models.go:7-9 | definition: ids, usernames and e-mails are each distinct |
| Models.UniqueCodeIds | database/models.go:18 | definition: e-mail code ids are distinct |
| Models.UniqueSponsorCodes | database/models.go:65-66 | definition: sponsor code ids and code texts are each distinct |
| Models.SponsorCodeConsistent | database/models.go:67-69 | definition: an unused code has no user and no time |
| Operations.BindingTable.DeletePair | logic/user/bind.go:26-32 | the rows become the table without the pair, and the deleted count is zero exactly when the pair was not bound |
| Binding.UnbindStudent | logic/user/bind.go:9-35 | a failed count returns its error; remaining tasks block the unbinding; otherwise the pair is deleted, and the call succeeds exactly when it was bound |
| Binding.GetBoundStudents | logic/user/bind.go:38-42 | a failed read returns its error; otherwise exactly the user's bindings, each as often as the table holds it |
| Base64.DecodeEncode | external/schoollogin/captcha.go:43 | standard base64 decoding undoes encoding for every byte string |
| Base64.EncodeAlphabet | external/schoollogin/captcha.go:43 | an encoding uses only the alphabet and `=` |
| Base64.Encode | external/schoollogin/captcha.go:43 | standard base64 with padding; the encoding has four characters for every started group of three bytes |
| Base64.Decode | logic/user/auth.go:17 | definition: standard base64 decoding, ignoring line breaks; `None` for corrupt input |
| Auth.DecodePassword | logic/user/auth.go:16-22 | fails exactly when the text is not valid base64, with the decode message; otherwise gives the decoded bytes |
| Auth.DecodeEncodedPassword | logic/user/auth.go:16-22 | a base64-encoded password decodes to itself |
| Auth.ExampleEmailValid | logic/user/auth.go:74 | `stu@swmu.edu.cn` is accepted as an address |
| Auth.OneLetterDomainInvalid | logic/user/auth.go:74 | a one-letter top-level domain is refused |
| Auth.ValidEmail | logic/user/auth.go:74 | definition: the address pattern, a local part, `@`, a domain, `.` and two or more letters to the end |
| Auth.ValidEmailShape | logic/user/auth.go:74 | every accepted address has exactly one `@`, at least six characters, ends in two letters and uses only the pattern's characters |
| Auth.ValidEmailOfParts | logic/user/auth.go:74 | every local part, domain and top-level domain of two or more letters joined as `local@domain.tld` is accepted |
| Auth.FindValidCode | logic/user/auth.go:39 | finds a stored code for this address, code and purpose that has not expired, or none exactly when no such code exists |
| Auth.NewCode | logic/user/auth.go:97-103 | a new code is created now and expires fifteen minutes later |
| Auth.SentCodeAccepted | logic/user/auth.go:97-103 | after a code is sent it is accepted exactly until it expires, unless an older valid one already is |
| Auth.ResendBlockedForAMinute | logic/user/auth.go:81-86 | a code sent less than a minute ago blocks another one to the same address and purpose |
| Auth.OldCodesDoNotLimit | logic/user/auth.go:81-86 | codes all older than a minute do not block a new one |
| Auth.RateLimited | logic/user/auth.go:81-86 | definition: the read succeeded and a code for this address and purpose was sent less than a minute before now; the newest code is the least old, so this is the source's test of the newest code |
| Auth.UserById | logic/user/auth.go:148-154 | finds the user with the id, or none exactly when none has it |
| Auth.UserByLogin | logic/user/auth.go:122 | finds the first user whose name or address is the identifier, or none exactly when none has it |
| Auth.UserByEmail | logic/user/auth.go:340 | finds the user with the address, or none exactly when none has it |
| Auth.LoginUser | logic/user/auth.go:109-131 | an empty field and an undecodable password fail with their own messages; otherwise the first row whose username or e-mail is the identifier decides: the login succeeds, as that row, exactly when its hash matches, and every failure is the single credentials message |
| Auth.LoginChecksTheNamedUser | logic/user/auth.go:122-128 | the right password logs the named user in; a wrong password or an unknown user gets the credentials message |
| Auth.FirstMatchingRowDecides | logic/user/auth.go:122-128 | when one user's username is another's e-mail, only the first matching row's password is checked |
| Auth.Bumped | logic/user/auth.go:134-145 | forcing a logout raises the user's token version by one and changes nothing else |
| Auth.ForceLogoutInvalidates | utils/jwt.go:53 | after the forced logout the old token version is refused and the next one is accepted |
| Auth.TokenValid | utils/jwt.go:48-55 | definition: a token is accepted while its user exists and its version is the user's current one |
| Auth.UnusedSponsor | logic/user/auth.go:302-309 | finds an unused sponsor code with this text, or none exactly when none exists |
| Auth.Activated | logic/user/auth.go:311-327 | an activated code is used, by this user, at this time, and keeps its id, text and creation time |
| Auth.SponsorCodeOneShot | logic/user/auth.go:302-327 | once activated, a sponsor code cannot be used again |
| Auth.WithPasswordWhereEmail | logic/user/auth.go:395-397 | the new hash is written to every user with the address and to no other |
| Auth.WithEmail | logic/user/auth.go:243-248 | the user's address changes and is marked unverified; no other user changes |
| Auth.WithRole | logic/user/auth.go:311-327 | the user's role changes; no other user changes |
| Auth.EmailChangeKeepsUnique | database/models.go:8-9 | moving a user to an unused address keeps names and addresses unique |
| Auth.ActivationKeepsCodes | database/models.go:64-71 | activating a code keeps the codes unique and consistent |
| Auth.NoAddressNoChange | logic/user/auth.go:395-397 | a reset for an address no user has changes no user |
| Auth.ResetLogsOutEverywhere | logic/user/auth.go:405-418 | after a password reset and forced logout the old token version is refused and the next one accepted |
| Auth.UserStore.Register | logic/user/auth.go:25-70 | empty fields, an undecodable password, no valid code or a taken name or address fail with the store unchanged and, each in turn, the empty-field, decode, bad-code and "用户名或邮箱已存在" messages; otherwise the user is appended verified, with role 1 and token version 1, and the code used is removed |
| Auth.UserStore.NameOrEmailTaken | logic/user/auth.go:45 | definition: some user already has the username or the e-mail |
| Auth.UserStore.SendCode | logic/user/auth.go:73-106 | a bad address, an unknown address for a reset, a code sent in the last minute or a random failure stops before mailing; otherwise the code mailed is `digits[b % 10]` of each random byte, and it is stored exactly when mailing succeeds |
| Auth.UserStore.ForceLogoutAll | logic/user/auth.go:134-145 | an unknown user fails; otherwise only that user's token version rises |
| Auth.UserStore.ChangeUserPassword | logic/user/auth.go:172-208 | succeeds exactly when both passwords decode, the user exists, the old one matches and the new one differs; otherwise the decode, no-user, "旧密码错误" or "新密码不能与旧密码相同" message; on success only that user's hash changes |
| Auth.UserStore.ChangeUserEmail | logic/user/auth.go:211-253 | succeeds exactly when the fields are given, the address is valid and new, the code is valid and no one holds the address; otherwise the empty-field, bad-address, no-user, "新邮箱不能与旧邮箱相同", bad-code or "该邮箱已被其他用户绑定" message; on success the address changes unverified and the code is removed |
| Auth.UserStore.UseSponsorCode | logic/user/auth.go:291-328 | an unknown user, an existing sponsor, a failed read or an unknown or used code fail; otherwise the user becomes a sponsor and the code is marked used |
| Auth.UserStore.ResetPasswordByCode | logic/user/auth.go:372-402 | succeeds exactly when the fields are given, the code is valid and the password decodes; otherwise the empty-field, bad-code or decode message, in that order; on success the address's hash changes and the code is removed |
| Auth.UserStore.ResetPasswordAndForceLogout | logic/user/auth.go:405-418 | a failed reset changes nothing and returns the reset's own message; a reset for an unknown address still removes the code but reports no user; otherwise the password changes and the user is logged out everywhere |

## Left out

- Clock.ParseSignTime: reads only the `H:MM`/`HH:MM` forms that routes/student.go:119 lets a task be saved with. Other time texts SQLite's `datetime` also reads (`HH:MM:SS`, fractions, a zone suffix, surrounding blanks) count here as never passed, although SQLite would read them. `Tasks.TaskTable.SaveTask` takes any text.
- The network, the OCR service, RSA encryption and email delivery are parameters. Their internals are not modelled.
- Goroutines and concurrency are not modelled. The sign worker's tasks and the e-mail notices run in sequence; a notice is modelled as the decision to send one.
- bcrypt is modelled as a hash that matches exactly one plain byte string. Hash failures and its 72-byte limit are not modelled.
- JWT signing and parsing are not modelled; only the token-version comparison is.
- Time zones, daylight saving and the difference between SQLite's UTC `date('now')` and Go's local clock are not modelled. One integer clock in seconds stands for both.
- Sub-second timing is not modelled. Each loop cycle or tick uses one `now` for all its reads and stamps.
- Writes (`Create`, `Save`, `Updates`, `Delete`) always succeed. The source only logs their failures, or returns them where it does.
- Coordinates are `float64` in the source; here they are `real` and are stored and passed on without formatting.
- Lower-casing the captcha is ASCII-only. Go's `strings.ToLower` also folds other letters.
- Request construction over constant URLs is not modelled: it cannot fail. Neither is the submit cookie-parsing branch that never fails, since `Deserialize` returns no error.
- Log messages are not modelled, except for the sign worker's decision to log a changed task count.
- `GetUserByID`, `CheckPasswordHash`, `HashPassword` and `UpdateUserPassword` are folded into their callers.
- A failed read during lookups that the source treats as "not found" is modelled as not found.
- The submit path ignores the error of reading the response body; the body is modelled as what the platform replied.
- Routes, middleware, configuration and the mailer's templates are not part of this model.
- SignWorker.PendingTasks: the contract states which tasks are selected, not their order. The query has no `ORDER BY`, so the source promises no order either.
- SchoolLogin.CtValiHeaders: the contract states only that the kept headers are `ct_vali=` headers of the reply, not that all of them are kept in order. SecondHeaderWins and DecoyAloneFails pin the two cases the login relies on.
- Base64.Encode: the contract states only the encoded length. The alphabet and the round trip are stated by EncodeAlphabet and DecodeEncode.
