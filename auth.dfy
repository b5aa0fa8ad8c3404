/**
 * logic/user/auth.go: the account rules over the user, e-mail code and
 * sponsor code tables, and the token-version check of utils/jwt.go.
 * bcrypt is a hash that matches exactly one password; the mail and the
 * random source are inputs; `now` is the wall clock of the call.
 */
module Auth {
  import opened Wrappers
  import opened Strings
  import opened Models
  import Base64
  import VerificationCode

  const CodeLifetime: int := 15 * 60
  const ResendInterval: int := 60

  const BadCodeError: string := "验证码错误或已过期"
  const BadCredentialsError: string := "用户名或密码错误"
  const NoUserError: string := "用户不存在"
  const DecodeError: string := "密码解码失败"
  const BadEmailError: string := "邮箱格式不正确"
  const TooFrequentError: string := "验证码发送过于频繁，请稍后再试"

  /** `decodePassword`: standard base64 with padding; the plain password is the decoded bytes. */
  function DecodePassword(encoded: string): (r: Result<seq<byte>, string>)
    ensures r.Err? <==> Base64.Decode(encoded).None?
    ensures r.Err? ==> r.error == DecodeError
    ensures r.Ok? ==> Base64.Decode(encoded) == Some(r.value)
  {
    match Base64.Decode(encoded)
    case None => Err(DecodeError)
    case Some(b) => Ok(b)
  }

  /** A base64-encoded password decodes back to itself. */
  lemma {:induction false} DecodeEncodedPassword(plain: seq<byte>)
    ensures DecodePassword(Base64.Encode(plain)) == Ok(plain)
  {
    Base64.DecodeEncode(plain);
  }

  /** `CheckPasswordHash` / `utils.CheckPassword`. */
  predicate CheckPassword(hash: PasswordHash, plain: seq<byte>) {
    hash.plain == plain
  }

  predicate LocalChar(c: char) {
    ('a' <= c <= 'z') || ('A' <= c <= 'Z') || ('0' <= c <= '9') || c == '.' || c == '_' || c == '%' || c == '+' || c == '-'
  }

  predicate DomainChar(c: char) {
    ('a' <= c <= 'z') || ('A' <= c <= 'Z') || ('0' <= c <= '9') || c == '.' || c == '-'
  }

  predicate Letter(c: char) {
    ('a' <= c <= 'z') || ('A' <= c <= 'Z')
  }

  /**
   * The strings `^[a-zA-Z0-9._%+\-]+@[a-zA-Z0-9.\-]+\.[a-zA-Z]{2,}$` matches:
   * a local part, `@` at `at`, a domain part, the `.` at `dot` and at least
   * two letters to the end.
   */
  predicate ValidEmail(s: string) {
    exists at, dot :: 0 < at < dot < |s| && EmailSplit(s, at, dot)
  }

  /** `s` read as the pattern's parts, with the `@` at `at` and the last `.` at `dot`. */
  predicate EmailSplit(s: string, at: int, dot: int) {
    && 0 < at && at + 1 < dot && dot + 2 < |s|
    && (forall k :: 0 <= k < at ==> LocalChar(s[k]))
    && s[at] == '@'
    && (forall k :: at < k < dot ==> DomainChar(s[k]))
    && s[dot] == '.'
    && (forall k :: dot < k < |s| ==> Letter(s[k]))
  }

  lemma {:induction false} ExampleEmailValid()
    ensures ValidEmail("stu@swmu.edu.cn")
  {
    var s := "stu@swmu.edu.cn";
    assert s[3] == '@' && s[12] == '.';
    assert forall k :: 0 <= k < 3 ==> LocalChar(s[k]);
    assert forall k :: 3 < k < 12 ==> DomainChar(s[k]);
    assert forall k :: 12 < k < |s| ==> Letter(s[k]);
    assert EmailSplit(s, 3, 12);
  }

  /** A one-letter top-level domain is refused. */
  lemma {:induction false} OneLetterDomainInvalid()
    ensures !ValidEmail("stu@swmu.c")
  {
    var s := "stu@swmu.c";
    assert |s| == 10;
    assert s[0] == 's' && s[1] == 't' && s[2] == 'u' && s[3] == '@';
    assert s[4] == 's' && s[5] == 'w' && s[6] == 'm' && s[7] == 'u';
    assert forall dot :: 0 <= dot < |s| - 2 ==> s[dot] != '.';
  }

  /** At most one `@` in `s`. */
  predicate OneAt(s: string) {
    forall a, b :: 0 <= a < b < |s| && s[a] == '@' ==> s[b] != '@'
  }

  /** Every character of `s` is from the local part's class or is `@`. */
  predicate PatternChars(s: string) {
    forall k :: 0 <= k < |s| ==> LocalChar(s[k]) || s[k] == '@'
  }

  /**
   * Every address the pattern accepts has exactly one `@`, at least six
   * characters, ends in two letters, and holds only characters from the
   * pattern's classes.
   */
  lemma {:induction false} ValidEmailShape(s: string)
    requires ValidEmail(s)
    ensures |s| >= 6 && Letter(s[|s| - 1]) && Letter(s[|s| - 2])
    ensures exists at :: 0 < at < |s| && s[at] == '@'
    ensures OneAt(s) && PatternChars(s)
  {
    var at, dot :| EmailSplit(s, at, dot);
    SplitShape(s, at, dot);
  }

  /** The shape facts, from the positions of the `@` and the last-part `.`. */
  lemma {:induction false} SplitShape(s: string, at: int, dot: int)
    requires EmailSplit(s, at, dot)
    ensures |s| >= 6 && Letter(s[|s| - 1]) && Letter(s[|s| - 2])
    ensures OneAt(s) && PatternChars(s)
  {
    assert forall k :: 0 <= k < |s| && k != at ==> LocalChar(s[k]) by {
      forall k | 0 <= k < |s| && k != at
        ensures LocalChar(s[k])
      {
        if k < at { assert LocalChar(s[k]); }
        else if k < dot { assert DomainChar(s[k]); }
        else if k > dot { assert Letter(s[k]); }
      }
    }
  }

  /** Conversely, every local part, domain and letters-only top-level domain of two or more letters make a valid address. */
  lemma {:induction false} ValidEmailOfParts(local: string, domain: string, tld: string)
    requires |local| > 0 && forall k :: 0 <= k < |local| ==> LocalChar(local[k])
    requires |domain| > 0 && forall k :: 0 <= k < |domain| ==> DomainChar(domain[k])
    requires |tld| >= 2 && forall k :: 0 <= k < |tld| ==> Letter(tld[k])
    ensures ValidEmail(local + "@" + domain + "." + tld)
  {
    var s := local + "@" + domain + "." + tld;
    var at, dot := |local|, |local| + 1 + |domain|;
    assert s[at] == '@' && s[dot] == '.';
    assert forall k :: 0 <= k < at ==> s[k] == local[k];
    assert forall k :: at < k < dot ==> s[k] == domain[k - at - 1];
    assert forall k :: dot < k < |s| ==> s[k] == tld[k - dot - 1];
    assert EmailSplit(s, at, dot);
  }

  /** The e-mail codes that `email = ? AND code = ? AND purpose = ? AND expires_at > now` selects, first by id. */
  function FindValidCode(codes: seq<EmailVerificationCode>, email: string, code: string, purpose: Purpose, now: Instant): (r: Option<nat>)
    ensures r.Some? ==> r.value < |codes| && codes[r.value].email == email && codes[r.value].code == code
                        && codes[r.value].purpose == purpose && codes[r.value].expiresAt > now
    ensures r.None? <==> forall i :: 0 <= i < |codes| ==>
      !(codes[i].email == email && codes[i].code == code && codes[i].purpose == purpose && codes[i].expiresAt > now)
    decreases |codes|
  {
    if |codes| == 0 then None
    else if codes[0].email == email && codes[0].code == code && codes[0].purpose == purpose && codes[0].expiresAt > now then Some(0)
    else match FindValidCode(codes[1..], email, code, purpose, now)
      case None => None
      case Some(i) => Some(i + 1)
  }

  /** The code row a send stores: it expires 15 minutes after its creation. */
  function NewCode(id: nat, email: string, code: string, purpose: Purpose, now: Instant): (c: EmailVerificationCode)
    ensures c.expiresAt == c.createdAt + CodeLifetime && c.createdAt == now
  {
    EmailVerificationCode(id, email, code, purpose, now + CodeLifetime, now)
  }

  /**
   * A code sent at `sent` is accepted at `t` exactly while `t` is before
   * `sent + 15 minutes`, whatever codes were stored before it (which still
   * count on their own).
   */
  lemma {:induction false} SentCodeAccepted(codes: seq<EmailVerificationCode>, id: nat, email: string, code: string,
                                            purpose: Purpose, sent: Instant, t: Instant)
    ensures FindValidCode(codes + [NewCode(id, email, code, purpose, sent)], email, code, purpose, t).Some?
        <==> FindValidCode(codes, email, code, purpose, t).Some? || t < sent + CodeLifetime
    decreases |codes|
  {
    var c := NewCode(id, email, code, purpose, sent);
    if |codes| == 0 {
      assert [c][1..] == [];
    } else {
      assert (codes + [c])[1..] == codes[1..] + [c];
      SentCodeAccepted(codes[1..], id, email, code, purpose, sent, t);
    }
  }

  /**
   * The rate limit: the latest code for (email, purpose) is under a minute old.
   * The latest one is the least old, so this holds when any of them is. A
   * failed read of the latest code does not limit.
   */
  predicate RateLimited(codes: seq<EmailVerificationCode>, email: string, purpose: Purpose, now: Instant, lastRead: DbRead) {
    lastRead.ReadOk? && exists i :: 0 <= i < |codes| && codes[i].email == email && codes[i].purpose == purpose
                                    && now - codes[i].createdAt < ResendInterval
  }

  /** A code sent at `sent` blocks another send for the same address and purpose until `sent + 1 minute`. */
  lemma {:induction false} ResendBlockedForAMinute(codes: seq<EmailVerificationCode>, c: EmailVerificationCode, t: Instant)
    requires c.createdAt <= t < c.createdAt + ResendInterval
    ensures RateLimited(codes + [c], c.email, c.purpose, t, ReadOk)
  {
    assert (codes + [c])[|codes|] == c;
  }

  /** Old codes do not limit: once every stored code for the pair is a minute old, a send goes through. */
  lemma {:induction false} OldCodesDoNotLimit(codes: seq<EmailVerificationCode>, email: string, purpose: Purpose, t: Instant)
    requires forall i :: 0 <= i < |codes| ==> codes[i].createdAt <= t - ResendInterval
    ensures !RateLimited(codes, email, purpose, t, ReadOk)
  {
  }

  function RemoveAt<T>(s: seq<T>, i: nat): (r: seq<T>)
    requires i < |s|
    ensures |r| == |s| - 1
    ensures forall x :: x in r ==> x in s
  {
    s[..i] + s[i + 1..]
  }

  /** First user row (by id) with this id. */
  function UserById(users: seq<User>, id: int): (r: Option<nat>)
    ensures r.Some? ==> r.value < |users| && users[r.value].id == id
    ensures r.None? <==> forall i :: 0 <= i < |users| ==> users[i].id != id
    decreases |users|
  {
    if |users| == 0 then None
    else if users[0].id == id then Some(0)
    else match UserById(users[1..], id)
      case None => None
      case Some(i) => Some(i + 1)
  }

  /** First user row whose username or e-mail is `ident` (`username = ? OR email = ?`). */
  function UserByLogin(users: seq<User>, ident: string): (r: Option<nat>)
    ensures r.Some? ==> r.value < |users| && (users[r.value].username == ident || users[r.value].email == ident)
    ensures r.None? <==> forall i :: 0 <= i < |users| ==> users[i].username != ident && users[i].email != ident
    ensures r.Some? ==> forall i :: 0 <= i < r.value ==> users[i].username != ident && users[i].email != ident
    decreases |users|
  {
    if |users| == 0 then None
    else if users[0].username == ident || users[0].email == ident then Some(0)
    else match UserByLogin(users[1..], ident)
      case None => None
      case Some(i) => Some(i + 1)
  }

  /** First user row with this e-mail. */
  function UserByEmail(users: seq<User>, email: string): (r: Option<nat>)
    ensures r.Some? ==> r.value < |users| && users[r.value].email == email
    ensures r.None? <==> forall i :: 0 <= i < |users| ==> users[i].email != email
    decreases |users|
  {
    if |users| == 0 then None
    else if users[0].email == email then Some(0)
    else match UserByEmail(users[1..], email)
      case None => None
      case Some(i) => Some(i + 1)
  }

  /** `Login`: the user a token is issued for, or the error; unknown user and wrong password look alike. */
  function LoginUser(users: seq<User>, identifier: string, encodedPassword: string): (r: Result<User, string>)
    ensures r.Ok? ==> r.value in users && (r.value.username == identifier || r.value.email == identifier)
    ensures r.Ok? ==> DecodePassword(encodedPassword).Ok? && CheckPassword(r.value.password, DecodePassword(encodedPassword).value)
    ensures identifier != "" && encodedPassword != "" && DecodePassword(encodedPassword).Ok? && r.Err? ==>
      r.error == BadCredentialsError
    ensures identifier == "" || encodedPassword == "" ==> r == Err("用户名/邮箱 和 密码不能为空")
    ensures identifier != "" && encodedPassword != "" && DecodePassword(encodedPassword).Err? ==> r == Err(DecodeError)
    ensures identifier != "" && encodedPassword != "" && DecodePassword(encodedPassword).Ok? && UserByLogin(users, identifier).Some? ==>
      var u := users[UserByLogin(users, identifier).value];
      && (r.Ok? <==> CheckPassword(u.password, DecodePassword(encodedPassword).value))
      && (r.Ok? ==> r.value == u)
  {
    if identifier == "" || encodedPassword == "" then Err("用户名/邮箱 和 密码不能为空")
    else match DecodePassword(encodedPassword)
      case Err(e) => Err(e)
      case Ok(password) =>
        match UserByLogin(users, identifier)
        case None => Err(BadCredentialsError)
        case Some(i) => if !CheckPassword(users[i].password, password) then Err(BadCredentialsError) else Ok(users[i])
  }

  /** A non-empty password encodes to a non-empty string, so it passes the emptiness check. */
  lemma {:induction false} EncodedNonEmpty(plain: seq<byte>)
    requires plain != []
    ensures Base64.Encode(plain) != ""
  {
    assert |Base64.Encode(plain)| == 4 * ((|plain| + 2) / 3);
  }

  /**
   * With a user whose username is `identifier` and whose password is `plain`
   * (and no other user using `identifier` as e-mail), the right password logs
   * in as that user, and a wrong one gets the same error as an unknown account.
   */
  lemma {:induction false} LoginChecksTheNamedUser(users: seq<User>, i: nat, plain: seq<byte>, wrong: seq<byte>)
    requires UniqueUsers(users)
    requires i < |users| && users[i].username != "" && users[i].password == Bcrypt(plain)
    requires forall j :: 0 <= j < |users| ==> users[j].email != users[i].username
    requires plain != [] && wrong != [] && wrong != plain
    ensures LoginUser(users, users[i].username, Base64.Encode(plain)) == Ok(users[i])
    ensures LoginUser(users, users[i].username, Base64.Encode(wrong)) == Err(BadCredentialsError)
    ensures LoginUser([], users[i].username, Base64.Encode(wrong)) == Err(BadCredentialsError)
  {
    DecodeEncodedPassword(wrong);
    DecodeEncodedPassword(plain);
    EncodedNonEmpty(wrong);
    EncodedNonEmpty(plain);
    var j := UserByLogin(users, users[i].username).value;
    assert users[j].username == users[i].username;
  }

  /**
   * One user's username may be another's e-mail. The login then checks the
   * password of the first matching row only, so the later user's password is
   * refused with the usual credentials message.
   */
  lemma {:induction false} FirstMatchingRowDecides(users: seq<User>, j: nat, k: nat, ident: string, plain: seq<byte>)
    requires j < k < |users|
    requires users[j].username == ident || users[j].email == ident
    requires users[k].username == ident || users[k].email == ident
    requires forall i :: 0 <= i < j ==> users[i].username != ident && users[i].email != ident
    requires ident != "" && plain != []
    requires users[k].password == Bcrypt(plain) && users[j].password != Bcrypt(plain)
    ensures LoginUser(users, ident, Base64.Encode(plain)) == Err(BadCredentialsError)
  {
    DecodeEncodedPassword(plain);
    EncodedNonEmpty(plain);
    assert UserByLogin(users, ident) == Some(j);
  }

  /** utils/jwt.go:53: a token is accepted only while its version is the user's current one. */
  predicate TokenValid(users: seq<User>, userId: int, version: int) {
    match UserById(users, userId)
    case None => false
    case Some(i) => users[i].tokenVersion == version
  }

  /** `token_version = token_version + 1` on the rows with this id. */
  function Bumped(users: seq<User>, userId: int): (r: seq<User>)
    ensures |r| == |users|
    ensures forall i :: 0 <= i < |users| ==>
      r[i] == if users[i].id == userId then users[i].(tokenVersion := users[i].tokenVersion + 1) else users[i]
  {
    seq(|users|, i requires 0 <= i < |users| =>
      if users[i].id == userId then users[i].(tokenVersion := users[i].tokenVersion + 1) else users[i])
  }

  /** A forced logout invalidates every token issued before it and accepts the next version. */
  lemma {:induction false} ForceLogoutInvalidates(users: seq<User>, userId: int, version: int)
    requires TokenValid(users, userId, version)
    ensures !TokenValid(Bumped(users, userId), userId, version)
    ensures TokenValid(Bumped(users, userId), userId, version + 1)
  {
    var b := Bumped(users, userId);
    var i := UserById(users, userId).value;
    SameIdsSameLookup(users, b, userId);
  }

  /** The first unused sponsor code with this text (`code = ? AND used = false`). */
  function UnusedSponsor(codes: seq<SponsorActivationCode>, code: string): (r: Option<nat>)
    ensures r.Some? ==> r.value < |codes| && codes[r.value].code == code && !codes[r.value].used
    ensures r.None? <==> forall i :: 0 <= i < |codes| ==> !(codes[i].code == code && !codes[i].used)
    decreases |codes|
  {
    if |codes| == 0 then None
    else if codes[0].code == code && !codes[0].used then Some(0)
    else match UnusedSponsor(codes[1..], code)
      case None => None
      case Some(i) => Some(i + 1)
  }

  /** The sponsor code row after activation by `userId` at `now`. */
  function Activated(c: SponsorActivationCode, userId: int, now: Instant): (r: SponsorActivationCode)
    ensures r.used && r.usedBy == Some(userId) && r.usedAt == Some(now)
    ensures r.id == c.id && r.code == c.code && r.createdAt == c.createdAt
  {
    c.(used := true, usedBy := Some(userId), usedAt := Some(now))
  }

  /** A sponsor code works once: after activation it is no longer found. */
  lemma {:induction false} SponsorCodeOneShot(codes: seq<SponsorActivationCode>, code: string, userId: int, now: Instant)
    requires UniqueSponsorCodes(codes)
    requires UnusedSponsor(codes, code).Some?
    ensures var i := UnusedSponsor(codes, code).value;
      UnusedSponsor(codes[i := Activated(codes[i], userId, now)], code).None?
  {
    var i := UnusedSponsor(codes, code).value;
    var after := codes[i := Activated(codes[i], userId, now)];
    forall k | 0 <= k < |after| ensures !(after[k].code == code && !after[k].used) {
      if k < i {
        assert codes[k].code != codes[i].code;
      } else if i < k {
        assert codes[i].code != codes[k].code;
      }
    }
  }

  /** Row ids increase along the table, so "first match" is "lowest id", as `First` orders by primary key. */
  predicate AscendingUserIds(users: seq<User>) {
    forall i, j :: 0 <= i < j < |users| ==> users[i].id < users[j].id
  }

  predicate AscendingCodeIds(codes: seq<EmailVerificationCode>) {
    forall i, j :: 0 <= i < j < |codes| ==> codes[i].id < codes[j].id
  }

  /** Deleting one code row keeps the ids ascending and the other rows as they were. */
  lemma {:induction false} RemoveCodeKeepsOrder(codes: seq<EmailVerificationCode>, k: nat)
    requires k < |codes| && AscendingCodeIds(codes)
    ensures AscendingCodeIds(RemoveAt(codes, k))
    ensures forall c :: c in codes && c != codes[k] ==> c in RemoveAt(codes, k)
  {
    var r := RemoveAt(codes, k);
    forall a, b | 0 <= a < b < |r| ensures r[a].id < r[b].id {
      var a', b' := if a < k then a else a + 1, if b < k then b else b + 1;
      assert r[a] == codes[a'] && r[b] == codes[b'];
    }
    forall c | c in codes && c != codes[k] ensures c in r {
      var m :| 0 <= m < |codes| && codes[m] == c;
      if m < k { assert r[m] == c; } else { assert m > k && r[m - 1] == c; }
    }
  }

  /** The password column after `UPDATE users SET password = ? WHERE email = ?`. */
  function WithPasswordWhereEmail(users: seq<User>, email: string, hash: PasswordHash): (r: seq<User>)
    ensures |r| == |users|
    ensures forall i :: 0 <= i < |users| ==>
      r[i] == if users[i].email == email then users[i].(password := hash) else users[i]
  {
    seq(|users|, i requires 0 <= i < |users| =>
      if users[i].email == email then users[i].(password := hash) else users[i])
  }

  /** Updates that leave ids, usernames and e-mails alone keep the table's keys. */
  lemma {:induction false} SameKeysKeepUnique(users: seq<User>, r: seq<User>)
    requires UniqueUsers(users) && AscendingUserIds(users) && |r| == |users|
    requires forall i :: 0 <= i < |users| ==>
      r[i].id == users[i].id && r[i].username == users[i].username && r[i].email == users[i].email
    ensures UniqueUsers(r) && AscendingUserIds(r)
    ensures forall id :: UserById(r, id) == UserById(users, id)
  {
    forall id ensures UserById(r, id) == UserById(users, id) {
      SameIdsSameLookup(users, r, id);
    }
  }

  lemma {:induction false} SameIdsSameLookup(users: seq<User>, r: seq<User>, id: int)
    requires |r| == |users| && forall i :: 0 <= i < |users| ==> r[i].id == users[i].id
    ensures UserById(r, id) == UserById(users, id)
    decreases |users|
  {
    if |users| > 0 && users[0].id != id {
      SameIdsSameLookup(users[1..], r[1..], id);
    }
  }

  class UserStore {
    var users: seq<User>
    var nextUserId: nat
    var codes: seq<EmailVerificationCode>
    var nextCodeId: nat
    var sponsorCodes: seq<SponsorActivationCode>

    ghost predicate Valid()
      reads this
    {
      && UniqueUsers(users) && AscendingUserIds(users)
      && (forall i :: 0 <= i < |users| ==> users[i].id < nextUserId)
      && AscendingCodeIds(codes)
      && (forall i :: 0 <= i < |codes| ==> codes[i].id < nextCodeId)
      && UniqueSponsorCodes(sponsorCodes)
      && (forall i :: 0 <= i < |sponsorCodes| ==> SponsorCodeConsistent(sponsorCodes[i]))
    }

    constructor ()
      ensures Valid() && users == [] && codes == [] && sponsorCodes == [] && nextUserId == 1 && nextCodeId == 1
    {
      users, codes, sponsorCodes := [], [], [];
      nextUserId, nextCodeId := 1, 1;
    }

    /** `username = ? OR email = ?`: some row has this username or this e-mail. */
    static predicate NameOrEmailTaken(users: seq<User>, username: string, email: string) {
      exists i :: 0 <= i < |users| && (users[i].username == username || users[i].email == email)
    }

    /**
     * `Register`: every field given, the password decodable, a live
     * "register" code for the e-mail, neither the username nor the e-mail
     * taken. The new user is verified, at token version 1 and role 1, and
     * the code is consumed.
     */
    method Register(username: string, email: string, encodedPassword: string, code: string, now: Instant)
      returns (r: Result<(), string>)
      requires Valid()
      modifies this
      ensures Valid()
      ensures r.Err? ==> users == old(users) && codes == old(codes) && nextUserId == old(nextUserId)
      ensures sponsorCodes == old(sponsorCodes) && nextCodeId == old(nextCodeId)
      ensures (username == "" || email == "" || encodedPassword == "" || code == "") ==>
        r == Err("用户名、邮箱、密码和验证码不能为空")
      ensures username != "" && email != "" && encodedPassword != "" && code != "" ==>
        var password := DecodePassword(encodedPassword);
        var evc := FindValidCode(old(codes), email, code, Purpose.Register, now);
        && (password.Err? ==> r == Err(DecodeError))
        && (password.Ok? && evc.None? ==> r == Err(BadCodeError))
        && (password.Ok? && evc.Some? && NameOrEmailTaken(old(users), username, email) ==> r == Err("用户名或邮箱已存在"))
      ensures r.Ok? <==>
        && username != "" && email != "" && encodedPassword != "" && code != ""
        && DecodePassword(encodedPassword).Ok?
        && FindValidCode(old(codes), email, code, Purpose.Register, now).Some?
        && !NameOrEmailTaken(old(users), username, email)
      ensures r.Ok? ==>
        && users == old(users) + [User(old(nextUserId), username, email, true, Bcrypt(DecodePassword(encodedPassword).value), 1, 1)]
        && codes == RemoveAt(old(codes), FindValidCode(old(codes), email, code, Purpose.Register, now).value)
    {
      if username == "" || email == "" || encodedPassword == "" || code == "" {
        return Err("用户名、邮箱、密码和验证码不能为空");
      }
      var password := DecodePassword(encodedPassword);
      if password.Err? {
        return Err(password.error);
      }
      var evc := FindValidCode(codes, email, code, Purpose.Register, now);
      if evc.None? {
        return Err(BadCodeError);
      }
      if NameOrEmailTaken(users, username, email) {
        return Err("用户名或邮箱已存在");
      }
      users := users + [User(nextUserId, username, email, true, Bcrypt(password.value), 1, 1)];
      nextUserId := nextUserId + 1;
      RemoveCodeKeepsOrder(codes, evc.value);
      codes := RemoveAt(codes, evc.value);
      r := Ok(());
    }

    /**
     * `SendRegisterVerificationCode`, `SendChangeEmailVerificationCode` and
     * `SendResetPasswordCode`, which differ only in the purpose and in the
     * reset's check that the address belongs to a user. `lastRead` is the
     * read of the latest code: when it fails the rate limit is not applied.
     * `random` feeds the code generator; `mailer` sends (address, code).
     */
    method SendCode(purpose: Purpose, email: string, now: Instant, lastRead: DbRead,
                    random: Result<seq<byte>, string>, mailer: (string, string) -> Result<(), string>)
      returns (mailed: Option<string>, r: Result<(), string>)
      requires random.Ok? ==> |random.value| == VerificationCode.CodeLength
      requires Valid()
      modifies this
      ensures Valid()
      ensures users == old(users) && nextUserId == old(nextUserId) && sponsorCodes == old(sponsorCodes)
      ensures !ValidEmail(email) ==> r == Err(BadEmailError) && mailed.None?
      ensures ValidEmail(email) && purpose.ResetPassword? && UserByEmail(users, email).None? ==>
        r == Err("邮箱不存在") && mailed.None?
      ensures ValidEmail(email) && (purpose.ResetPassword? ==> UserByEmail(users, email).Some?) ==>
        (RateLimited(old(codes), email, purpose, now, lastRead) ==> r == Err(TooFrequentError) && mailed.None?)
        && (!RateLimited(old(codes), email, purpose, now, lastRead) && random.Err? ==> r == Err(random.error) && mailed.None?)
        && (!RateLimited(old(codes), email, purpose, now, lastRead) && random.Ok? ==> mailed.Some?)
      ensures mailed.Some? ==> |mailed.value| == VerificationCode.CodeLength
      ensures mailed.Some? ==> forall k :: 0 <= k < |mailed.value| ==> VerificationCode.IsDigit(mailed.value[k])
      ensures mailed.Some? ==> random.Ok? && forall k :: 0 <= k < VerificationCode.CodeLength ==>
        mailed.value[k] == VerificationCode.Digits[random.value[k] as int % |VerificationCode.Digits|]
      ensures mailed.Some? && mailer(email, mailed.value).Err? ==> r == mailer(email, mailed.value)
      ensures r.Ok? <==> mailed.Some? && mailer(email, mailed.value).Ok?
      ensures r.Ok? ==> codes == old(codes) + [NewCode(old(nextCodeId), email, mailed.value, purpose, now)]
      ensures r.Err? ==> codes == old(codes) && nextCodeId == old(nextCodeId)
    {
      mailed := None;
      if !ValidEmail(email) {
        return mailed, Err(BadEmailError);
      }
      if purpose.ResetPassword? && UserByEmail(users, email).None? {
        return mailed, Err("邮箱不存在");
      }
      if RateLimited(codes, email, purpose, now, lastRead) {
        return mailed, Err(TooFrequentError);
      }
      var code := VerificationCode.GenerateVerificationCode(random);
      if code.Err? {
        return mailed, Err(code.error);
      }
      mailed := Some(code.value);
      var sent := mailer(email, code.value);
      if sent.Err? {
        return mailed, sent;
      }
      codes := codes + [NewCode(nextCodeId, email, code.value, purpose, now)];
      nextCodeId := nextCodeId + 1;
      r := Ok(());
    }

    /** `ForceLogoutAll`: every token of the user stops being accepted. */
    method ForceLogoutAll(userId: int) returns (r: Result<(), string>)
      requires Valid()
      modifies this
      ensures Valid()
      ensures codes == old(codes) && sponsorCodes == old(sponsorCodes)
      ensures nextUserId == old(nextUserId) && nextCodeId == old(nextCodeId)
      ensures r.Err? <==> UserById(old(users), userId).None?
      ensures r.Err? ==> r.error == NoUserError && users == old(users)
      ensures r.Ok? ==> users == Bumped(old(users), userId)
    {
      if UserById(users, userId).None? {
        return Err(NoUserError);
      }
      SameKeysKeepUnique(users, Bumped(users, userId));
      users := Bumped(users, userId);
      r := Ok(());
    }

    /** `ChangeUserPassword`: the old password must match and the new one must differ from it. */
    method ChangeUserPassword(userId: int, encodedOld: string, encodedNew: string) returns (r: Result<(), string>)
      requires Valid()
      modifies this
      ensures Valid()
      ensures codes == old(codes) && sponsorCodes == old(sponsorCodes)
      ensures nextUserId == old(nextUserId) && nextCodeId == old(nextCodeId)
      ensures r.Err? ==> users == old(users)
      ensures DecodePassword(encodedOld).Err? ==> r == Err(DecodeError)
      ensures DecodePassword(encodedOld).Ok? && DecodePassword(encodedNew).Err? ==> r == Err(DecodeError)
      ensures r.Ok? <==>
        && DecodePassword(encodedOld).Ok? && DecodePassword(encodedNew).Ok?
        && UserById(old(users), userId).Some?
        && CheckPassword(old(users)[UserById(old(users), userId).value].password, DecodePassword(encodedOld).value)
        && DecodePassword(encodedNew).value != DecodePassword(encodedOld).value
      ensures DecodePassword(encodedOld).Ok? && DecodePassword(encodedNew).Ok? && UserById(old(users), userId).Some? ==>
        var u := old(users)[UserById(old(users), userId).value];
        && (!CheckPassword(u.password, DecodePassword(encodedOld).value) ==> r == Err("旧密码错误"))
        && (CheckPassword(u.password, DecodePassword(encodedNew).value) ==> r.Err?)
        && (CheckPassword(u.password, DecodePassword(encodedOld).value) && CheckPassword(u.password, DecodePassword(encodedNew).value) ==>
              r == Err("新密码不能与旧密码相同"))
      ensures DecodePassword(encodedOld).Ok? && DecodePassword(encodedNew).Ok? && UserById(old(users), userId).None? ==>
        r == Err(NoUserError)
      ensures r.Ok? ==> |users| == |old(users)| && forall i :: 0 <= i < |users| ==>
        users[i] == if old(users)[i].id == userId then old(users)[i].(password := Bcrypt(DecodePassword(encodedNew).value)) else old(users)[i]
    {
      var oldPwd := DecodePassword(encodedOld);
      if oldPwd.Err? {
        return Err(oldPwd.error);
      }
      var newPwd := DecodePassword(encodedNew);
      if newPwd.Err? {
        return Err(newPwd.error);
      }
      var found := UserById(users, userId);
      if found.None? {
        return Err(NoUserError);
      }
      var hash := users[found.value].password;
      if !CheckPassword(hash, oldPwd.value) {
        return Err("旧密码错误");
      }
      if CheckPassword(hash, newPwd.value) {
        return Err("新密码不能与旧密码相同");
      }
      var rows := users;
      var updated := seq(|rows|, i requires 0 <= i < |rows| =>
        if rows[i].id == userId then rows[i].(password := Bcrypt(newPwd.value)) else rows[i]);
      SameKeysKeepUnique(users, updated);
      users := updated;
      r := Ok(());
    }

    /**
     * `ChangeUserEmail`: the new address must be well formed, differ from the
     * user's, carry a live "change_email" code and belong to nobody else. The
     * address becomes unverified and the code is consumed.
     */
    method ChangeUserEmail(userId: int, newEmail: string, code: string, now: Instant) returns (r: Result<(), string>)
      requires Valid()
      modifies this
      ensures Valid()
      ensures sponsorCodes == old(sponsorCodes) && nextUserId == old(nextUserId) && nextCodeId == old(nextCodeId)
      ensures r.Err? ==> users == old(users) && codes == old(codes)
      ensures newEmail == "" || code == "" ==> r == Err("新邮箱和验证码不能为空")
      ensures newEmail != "" && code != "" && !ValidEmail(newEmail) ==> r == Err(BadEmailError)
      ensures newEmail != "" && code != "" && ValidEmail(newEmail) && UserById(old(users), userId).None? ==>
        r == Err(NoUserError)
      ensures newEmail != "" && code != "" && ValidEmail(newEmail) && UserById(old(users), userId).Some? ==>
        var u := old(users)[UserById(old(users), userId).value];
        var evc := FindValidCode(old(codes), newEmail, code, ChangeEmail, now);
        var holder := UserByEmail(old(users), newEmail);
        && (u.email == newEmail ==> r == Err("新邮箱不能与旧邮箱相同"))
        && (u.email != newEmail && evc.None? ==> r == Err(BadCodeError))
        && (u.email != newEmail && evc.Some? && holder.Some? && old(users)[holder.value].id != userId ==>
              r == Err("该邮箱已被其他用户绑定"))
      ensures r.Ok? <==>
        && newEmail != "" && code != "" && ValidEmail(newEmail)
        && UserById(old(users), userId).Some?
        && old(users)[UserById(old(users), userId).value].email != newEmail
        && FindValidCode(old(codes), newEmail, code, ChangeEmail, now).Some?
        && UserByEmail(old(users), newEmail).None?
      ensures r.Ok? ==> users == WithEmail(old(users), userId, newEmail)
      ensures r.Ok? ==> codes == RemoveAt(old(codes), FindValidCode(old(codes), newEmail, code, ChangeEmail, now).value)
    {
      if newEmail == "" || code == "" {
        return Err("新邮箱和验证码不能为空");
      }
      if !ValidEmail(newEmail) {
        return Err(BadEmailError);
      }
      var found := UserById(users, userId);
      if found.None? {
        return Err(NoUserError);
      }
      if users[found.value].email == newEmail {
        return Err("新邮箱不能与旧邮箱相同");
      }
      var evc := FindValidCode(codes, newEmail, code, ChangeEmail, now);
      if evc.None? {
        return Err(BadCodeError);
      }
      var existing := UserByEmail(users, newEmail);
      if existing.Some? && users[existing.value].id != userId {
        return Err("该邮箱已被其他用户绑定");
      }
      // the row found by e-mail is not the user's own: its e-mail differs
      assert forall i :: 0 <= i < |users| && i != found.value ==> users[i].id != userId;
      assert existing.None?;
      CommitEmailChange(userId, newEmail, evc.value);
      r := Ok(());
    }

    /** The two writes of a successful `ChangeUserEmail`: the user's new address, and the code consumed. */
    method CommitEmailChange(userId: int, newEmail: string, k: nat)
      requires Valid() && k < |codes| && UserByEmail(users, newEmail).None?
      modifies this
      ensures Valid()
      ensures sponsorCodes == old(sponsorCodes) && nextUserId == old(nextUserId) && nextCodeId == old(nextCodeId)
      ensures users == WithEmail(old(users), userId, newEmail) && codes == RemoveAt(old(codes), k)
    {
      EmailChangeKeepsUnique(users, userId, newEmail);
      users := WithEmail(users, userId, newEmail);
      RemoveCodeKeepsOrder(codes, k);
      codes := RemoveAt(codes, k);
    }

    /**
     * `UseSponsorCode`: a user who is not yet a sponsor spends an unused code;
     * the code records who used it and when, and the user's role becomes 2.
     * `codeRead` is the code lookup's outcome when it is not "not found".
     */
    method UseSponsorCode(userId: int, code: string, now: Instant, codeRead: DbRead) returns (r: Result<(), string>)
      requires Valid()
      modifies this
      ensures Valid()
      ensures codes == old(codes) && nextUserId == old(nextUserId) && nextCodeId == old(nextCodeId)
      ensures r.Err? ==> users == old(users) && sponsorCodes == old(sponsorCodes)
      ensures UserById(old(users), userId).None? ==> r == Err(NoUserError)
      ensures UserById(old(users), userId).Some? && old(users)[UserById(old(users), userId).value].role == SponsorRole ==>
        r == Err("您已是赞助用户，无需重复激活")
      ensures UserById(old(users), userId).Some? && old(users)[UserById(old(users), userId).value].role != SponsorRole ==>
        && (codeRead.ReadFailed? ==> r == Err(codeRead.error))
        && (codeRead.ReadOk? && UnusedSponsor(old(sponsorCodes), code).None? ==> r == Err("激活码无效或已被使用"))
        && (codeRead.ReadOk? && UnusedSponsor(old(sponsorCodes), code).Some? ==> r.Ok?)
      ensures r.Ok? ==> UnusedSponsor(old(sponsorCodes), code).Some?
      ensures r.Ok? ==> users == WithRole(old(users), userId, SponsorRole)
      ensures r.Ok? ==>
        var k := UnusedSponsor(old(sponsorCodes), code).value;
        sponsorCodes == old(sponsorCodes)[k := Activated(old(sponsorCodes)[k], userId, now)]
    {
      var found := UserById(users, userId);
      if found.None? {
        return Err(NoUserError);
      }
      if users[found.value].role == SponsorRole {
        return Err("您已是赞助用户，无需重复激活");
      }
      if codeRead.ReadFailed? {
        return Err(codeRead.error);
      }
      var sac := UnusedSponsor(sponsorCodes, code);
      if sac.None? {
        return Err("激活码无效或已被使用");
      }
      var k := sac.value;
      ActivationKeepsCodes(sponsorCodes, k, userId, now);
      sponsorCodes := sponsorCodes[k := Activated(sponsorCodes[k], userId, now)];
      SameKeysKeepUnique(users, WithRole(users, userId, SponsorRole));
      users := WithRole(users, userId, SponsorRole);
      r := Ok(());
    }

    /**
     * `ResetPasswordByCode`: a live "reset" code for the address lets the
     * password of every account with that address be replaced (none is not an
     * error); the code is consumed. The code is checked before the password is
     * decoded.
     */
    method ResetPasswordByCode(email: string, code: string, encodedNew: string, now: Instant) returns (r: Result<(), string>)
      requires Valid()
      modifies this
      ensures Valid()
      ensures sponsorCodes == old(sponsorCodes) && nextUserId == old(nextUserId) && nextCodeId == old(nextCodeId)
      ensures r.Err? ==> users == old(users) && codes == old(codes)
      ensures email == "" || code == "" || encodedNew == "" ==> r == Err("邮箱、验证码和新密码不能为空")
      ensures email != "" && code != "" && encodedNew != "" && FindValidCode(old(codes), email, code, ResetPassword, now).None? ==>
        r == Err(BadCodeError)
      ensures (email != "" && code != "" && encodedNew != "" && FindValidCode(old(codes), email, code, ResetPassword, now).Some?
               && DecodePassword(encodedNew).Err?) ==> r == Err(DecodeError)
      ensures r.Ok? <==>
        && email != "" && code != "" && encodedNew != ""
        && FindValidCode(old(codes), email, code, ResetPassword, now).Some?
        && DecodePassword(encodedNew).Ok?
      ensures r.Ok? ==>
        && users == WithPasswordWhereEmail(old(users), email, Bcrypt(DecodePassword(encodedNew).value))
        && codes == RemoveAt(old(codes), FindValidCode(old(codes), email, code, ResetPassword, now).value)
    {
      if email == "" || code == "" || encodedNew == "" {
        return Err("邮箱、验证码和新密码不能为空");
      }
      var evc := FindValidCode(codes, email, code, ResetPassword, now);
      if evc.None? {
        return Err(BadCodeError);
      }
      var newPassword := DecodePassword(encodedNew);
      if newPassword.Err? {
        return Err(newPassword.error);
      }
      SameKeysKeepUnique(users, WithPasswordWhereEmail(users, email, Bcrypt(newPassword.value)));
      users := WithPasswordWhereEmail(users, email, Bcrypt(newPassword.value));
      RemoveCodeKeepsOrder(codes, evc.value);
      codes := RemoveAt(codes, evc.value);
      r := Ok(());
    }

    /**
     * `ResetPasswordAndForceLogout`: the reset, then a forced logout of the
     * account with that address. When no account has it, the reset has still
     * consumed the code and the call reports "用户不存在".
     */
    method ResetPasswordAndForceLogout(email: string, code: string, encodedNew: string, now: Instant) returns (r: Result<(), string>)
      requires Valid()
      modifies this
      ensures Valid()
      ensures sponsorCodes == old(sponsorCodes) && nextUserId == old(nextUserId) && nextCodeId == old(nextCodeId)
      ensures var reset :=
          email != "" && code != "" && encodedNew != ""
          && FindValidCode(old(codes), email, code, ResetPassword, now).Some?
          && DecodePassword(encodedNew).Ok?;
        && (!reset ==> r.Err? && users == old(users) && codes == old(codes))
        && (email == "" || code == "" || encodedNew == "" ==> r == Err("邮箱、验证码和新密码不能为空"))
        && (email != "" && code != "" && encodedNew != "" && FindValidCode(old(codes), email, code, ResetPassword, now).None? ==>
              r == Err(BadCodeError))
        && ((email != "" && code != "" && encodedNew != "" && FindValidCode(old(codes), email, code, ResetPassword, now).Some?
               && DecodePassword(encodedNew).Err?) ==> r == Err(DecodeError))
        && (reset ==> codes == RemoveAt(old(codes), FindValidCode(old(codes), email, code, ResetPassword, now).value))
        && (reset && UserByEmail(old(users), email).None? ==> r == Err(NoUserError) && users == old(users))
        && (reset && UserByEmail(old(users), email).Some? ==> r.Ok?)
        && (reset && UserByEmail(old(users), email).Some? ==>
              users == Bumped(WithPasswordWhereEmail(old(users), email, Bcrypt(DecodePassword(encodedNew).value)),
                              old(users)[UserByEmail(old(users), email).value].id))
    {
      r := ResetPasswordByCode(email, code, encodedNew, now);
      if r.Err? {
        return r;
      }
      SameEmailsSameLookup(old(users), users, email);
      var found := UserByEmail(users, email);
      if found.None? {
        NoAddressNoChange(old(users), email, Bcrypt(DecodePassword(encodedNew).value));
        return Err(NoUserError);
      }
      var _ := ForceLogoutAll(users[found.value].id);
      r := Ok(());
    }
  }

  const SponsorRole: int := 2

  /** `UPDATE users SET email = ?, email_verified = false WHERE id = ?`. */
  function WithEmail(users: seq<User>, userId: int, newEmail: string): (r: seq<User>)
    ensures |r| == |users|
    ensures forall i :: 0 <= i < |users| ==>
      r[i] == if users[i].id == userId then users[i].(email := newEmail, emailVerified := false) else users[i]
  {
    seq(|users|, i requires 0 <= i < |users| =>
      if users[i].id == userId then users[i].(email := newEmail, emailVerified := false) else users[i])
  }

  /** `UPDATE users SET role = ? WHERE id = ?`. */
  function WithRole(users: seq<User>, userId: int, role: int): (r: seq<User>)
    ensures |r| == |users|
    ensures forall i :: 0 <= i < |users| ==>
      r[i] == if users[i].id == userId then users[i].(role := role) else users[i]
  {
    seq(|users|, i requires 0 <= i < |users| =>
      if users[i].id == userId then users[i].(role := role) else users[i])
  }

  /** Moving one user to an address nobody has keeps every key unique. */
  lemma {:induction false} EmailChangeKeepsUnique(users: seq<User>, userId: int, newEmail: string)
    requires UniqueUsers(users) && AscendingUserIds(users)
    requires UserByEmail(users, newEmail).None?
    ensures UniqueUsers(WithEmail(users, userId, newEmail)) && AscendingUserIds(WithEmail(users, userId, newEmail))
  {
    var r := WithEmail(users, userId, newEmail);
    forall a, b | 0 <= a < b < |r| ensures r[a].email != r[b].email {
      assert users[a].id != users[b].id;
    }
  }

  /** Activating one code keeps the codes unique and every row readable. */
  lemma {:induction false} ActivationKeepsCodes(codes: seq<SponsorActivationCode>, k: nat, userId: int, now: Instant)
    requires k < |codes| && UniqueSponsorCodes(codes)
    requires forall i :: 0 <= i < |codes| ==> SponsorCodeConsistent(codes[i])
    ensures var after := codes[k := Activated(codes[k], userId, now)];
      UniqueSponsorCodes(after) && forall i :: 0 <= i < |after| ==> SponsorCodeConsistent(after[i])
  {
  }

  lemma {:induction false} SameEmailsSameLookup(users: seq<User>, r: seq<User>, email: string)
    requires |r| == |users| && forall i :: 0 <= i < |users| ==> r[i].email == users[i].email
    ensures UserByEmail(r, email) == UserByEmail(users, email)
    decreases |users|
  {
    if |users| > 0 && users[0].email != email {
      SameEmailsSameLookup(users[1..], r[1..], email);
    }
  }

  /** A password update for an address nobody has changes no row. */
  lemma {:induction false} NoAddressNoChange(users: seq<User>, email: string, hash: PasswordHash)
    requires UserByEmail(users, email).None?
    ensures WithPasswordWhereEmail(users, email, hash) == users
  {
    var r := WithPasswordWhereEmail(users, email, hash);
    assert forall i :: 0 <= i < |users| ==> r[i] == users[i];
  }

  /**
   * After a reset with forced logout, no token issued to the account before
   * it is accepted, and the next version is.
   */
  lemma {:induction false} ResetLogsOutEverywhere(users: seq<User>, email: string, hash: PasswordHash, version: int)
    requires UniqueUsers(users) && AscendingUserIds(users)
    requires UserByEmail(users, email).Some?
    requires TokenValid(users, users[UserByEmail(users, email).value].id, version)
    ensures var id := users[UserByEmail(users, email).value].id;
      var after := Bumped(WithPasswordWhereEmail(users, email, hash), id);
      !TokenValid(after, id, version) && TokenValid(after, id, version + 1)
  {
    var id := users[UserByEmail(users, email).value].id;
    var w := WithPasswordWhereEmail(users, email, hash);
    SameKeysKeepUnique(users, w);
    ForceLogoutInvalidates(w, id, version);
  }
}
