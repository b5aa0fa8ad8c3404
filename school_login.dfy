/**
 * external/schoollogin/login.go: `Login`, the credential submission to the
 * platform. RSA encryption (utils/encrypt_rsa.go) is the function `encrypt`,
 * which may fail; the HTTP exchange is the function `send` from the request
 * to what came back.
 */
module SchoolLogin {
  import opened Wrappers
  import opened Strings
  import opened Cookies
  import Captcha

  const CtValiPrefix: string := "ct_vali="
  const PlatformMessagePrefix: string := "微学工平台提示信息: "
  const NoCtValiError: string := "未能获取有效的 ct_vali cookie"

  /** The request `Login` posts: the form (`url.Values`) and the optional `Cookie` header. */
  datatype LoginRequest = LoginRequest(form: map<string, string>, cookieHeader: Option<string>)

  /** The JSON body: `isok` and `msg` (absent fields decode as `false` and `""`), or a decode error. */
  datatype LoginBody = NotJson(error: string) | LoginJson(isOk: bool, msg: string)

  /** What the POST produced: a transport error, a body read error, or the body and the `Set-Cookie` headers in order. */
  datatype LoginReply =
    | SendFailed(error: string)
    | ReadFailed(error: string)
    | Replied(body: LoginBody, setCookies: seq<string>)

  /** The login form: the fixed fields, both ciphertexts and the lower-cased captcha text. */
  function LoginForm(encUser: string, encPass: string, valCode: string): (f: map<string, string>)
    ensures f.Keys == {"LoginType", "UserName", "Password", "Remember", "ValCode", "IsShowValCode"}
    ensures f["LoginType"] == "0" && f["Remember"] == "true" && f["IsShowValCode"] == "true"
    ensures f["UserName"] == encUser && f["Password"] == encPass
    ensures f["ValCode"] == ToLowerAscii(valCode)
  {
    map["LoginType" := "0", "UserName" := encUser, "Password" := encPass,
        "Remember" := "true", "ValCode" := ToLowerAscii(valCode), "IsShowValCode" := "true"]
  }

  /** The `Cookie` header: the correlation cookies in order, joined by `"; "`; no header when there are none. */
  function CookieHeader(pre: seq<Cookie>): (h: Option<string>)
    ensures h.None? <==> Captcha.Correlation(pre) == []
  {
    var cs := Captcha.Correlation(pre);
    if cs == [] then None else Some(Serialize(cs))
  }

  /** The loop of `Login` that collects `name=value` for `Vlis`/`VK_` cookies. */
  method BuildCookieHeader(pre: seq<Cookie>) returns (h: Option<string>)
    ensures h == CookieHeader(pre)
  {
    var cookieStrings: seq<string> := [];
    var i := 0;
    while i < |pre|
      invariant 0 <= i <= |pre|
      invariant cookieStrings == Pairs(Captcha.Correlation(pre[..i]))
    {
      var ck := pre[i];
      Captcha.CorrelationStep(pre, i);
      if ck.name == "Vlis" || ck.name == "VK_" {
        PairsAppend(Captcha.Correlation(pre[..i]), ck);
        cookieStrings := cookieStrings + [ck.name + "=" + ck.value];
      }
      i := i + 1;
    }
    assert pre[..|pre|] == pre;
    HeaderOfPairs(pre, cookieStrings);
    if |cookieStrings| > 0 {
      h := Some(Join(cookieStrings, Separator));
    } else {
      h := None;
    }
  }

  /** Joining the collected pairs gives the header; no pairs gives none. */
  lemma HeaderOfPairs(pre: seq<Cookie>, pairs: seq<string>)
    requires pairs == Pairs(Captcha.Correlation(pre))
    ensures CookieHeader(pre) == if |pairs| > 0 then Some(Join(pairs, Separator)) else None
  {
  }

  /** The `Set-Cookie` headers that start with `ct_vali=`, in order. */
  function CtValiHeaders(hs: seq<string>): (r: seq<string>)
    ensures |r| <= |hs|
    ensures forall i :: 0 <= i < |r| ==> HasPrefix(r[i], CtValiPrefix) && r[i] in hs
    decreases |hs|
  {
    if |hs| == 0 then []
    else
      var init := hs[..|hs| - 1];
      var last := hs[|hs| - 1];
      CtValiHeaders(init) + (if HasPrefix(last, CtValiPrefix) then [last] else [])
  }

  lemma {:induction false} CtValiHeadersPrefix(hs: seq<string>, j: nat)
    requires j <= |hs|
    ensures CtValiHeaders(hs[..j]) <= CtValiHeaders(hs)
    decreases |hs|
  {
    if j < |hs| {
      var init := hs[..|hs| - 1];
      assert hs[..j] == init[..j];
      CtValiHeadersPrefix(init, j);
    } else {
      assert hs[..j] == hs;
    }
  }

  /** Text before the first `;` (`strings.SplitN(s, ";", 2)[0]`). */
  function UpToSemicolon(s: string): (r: string)
    ensures ';' !in r && r <= s
    ensures |r| < |s| ==> s[|r|] == ';'
  {
    if |s| == 0 || s[0] == ';' then ""
    else
      var rest := UpToSemicolon(s[1..]);
      assert [s[0]] + rest <= s by {
        assert s == [s[0]] + s[1..];
      }
      [s[0]] + rest
  }

  /** `strings.TrimPrefix`. */
  function TrimPrefix(s: string, p: string): string {
    if HasPrefix(s, p) then s[|p|..] else s
  }

  /** The value a `ct_vali=...; attributes` header carries. */
  function CtValiValue(header: string): string {
    TrimPrefix(UpToSemicolon(header), CtValiPrefix)
  }

  /** The session token: the value of the SECOND `ct_vali` header; the first is a decoy. */
  function SecondCtVali(hs: seq<string>): string {
    var m := CtValiHeaders(hs);
    if |m| < 2 then "" else CtValiValue(m[1])
  }

  /** The header loop of `Login`: count `ct_vali=` headers and stop at the second. */
  method ExtractCtVali(setCookies: seq<string>) returns (ctVali: string)
    ensures ctVali == SecondCtVali(setCookies)
  {
    ctVali := "";
    var ctValiCount := 0;
    var i := 0;
    while i < |setCookies|
      invariant 0 <= i <= |setCookies|
      invariant ctValiCount == |CtValiHeaders(setCookies[..i])| < 2
      invariant ctVali == ""
    {
      var setCookie := setCookies[i];
      assert setCookies[..i + 1][..i] == setCookies[..i];
      if HasPrefix(setCookie, CtValiPrefix) {
        ctValiCount := ctValiCount + 1;
        if ctValiCount == 2 {
          var part := UpToSemicolon(setCookie);
          ctVali := TrimPrefix(part, CtValiPrefix);
          CtValiHeadersPrefix(setCookies, i + 1);
          assert CtValiHeaders(setCookies[..i + 1])[1] == setCookie;
          return;
        }
      }
      i := i + 1;
    }
    assert setCookies[..|setCookies|] == setCookies;
  }

  /** The cookie set of a session: account, fixed marker, token, in this order. */
  function SessionCookies(username: string, ctVali: string): seq<Cookie> {
    [Cookie("qyuserid", username), Cookie("utpstr", "1"), Cookie("ct_vali", ctVali)]
  }

  /** How `Login` reads the platform's reply once the request has gone out. */
  function ReplyOutcome(username: string, reply: LoginReply): (r: Result<seq<Cookie>, string>)
    ensures r.Ok? <==>
      reply.Replied? && reply.body.LoginJson? && reply.body.isOk && SecondCtVali(reply.setCookies) != ""
    ensures r.Ok? ==> r.value == SessionCookies(username, SecondCtVali(reply.setCookies))
    ensures reply.Replied? && reply.body.LoginJson? && !reply.body.isOk ==>
      r == Err(PlatformMessagePrefix + reply.body.msg)
    ensures reply.Replied? && reply.body.LoginJson? && reply.body.isOk && |CtValiHeaders(reply.setCookies)| < 2 ==>
      r == Err(NoCtValiError)
  {
    match reply
    case SendFailed(e) => Err("请求发送失败: " + e)
    case ReadFailed(e) => Err("读取响应失败: " + e)
    case Replied(NotJson(e), _) => Err("解析响应体失败: " + e)
    case Replied(LoginJson(isOk, msg), setCookies) =>
      if !isOk then Err(PlatformMessagePrefix + msg)
      else
        var ctVali := SecondCtVali(setCookies);
        if ctVali == "" then Err(NoCtValiError) else Ok(SessionCookies(username, ctVali))
  }

  /** The request `Login` sends once both fields are encrypted. */
  function LoginRequestFor(encUser: string, encPass: string, valCode: string, preCookies: seq<Cookie>): LoginRequest {
    LoginRequest(LoginForm(encUser, encPass, valCode), CookieHeader(preCookies))
  }

  /**
   * What `Login` returns: an encryption failure before anything is sent,
   * otherwise how the platform's reply to the request is read.
   */
  function LoginOutcome(username: string, password: string, valCode: string, preCookies: seq<Cookie>,
                        encrypt: string -> Result<string, string>, send: LoginRequest -> LoginReply)
    : (r: Result<seq<Cookie>, string>)
    ensures encrypt(username).Err? ==> r == Err("加密用户名失败: " + encrypt(username).error)
    ensures encrypt(username).Ok? && encrypt(password).Err? ==> r == Err("加密密码失败: " + encrypt(password).error)
    ensures r.Ok? ==>
      && encrypt(username).Ok? && encrypt(password).Ok?
      && var reply := send(LoginRequestFor(encrypt(username).value, encrypt(password).value, valCode, preCookies));
      && reply.Replied? && reply.body.LoginJson? && reply.body.isOk
      && r.value == SessionCookies(username, SecondCtVali(reply.setCookies))
  {
    if encrypt(username).Err? then Err("加密用户名失败: " + encrypt(username).error)
    else if encrypt(password).Err? then Err("加密密码失败: " + encrypt(password).error)
    else ReplyOutcome(username, send(LoginRequestFor(encrypt(username).value, encrypt(password).value, valCode, preCookies)))
  }

  /**
   * `Login`. `sent` is the request that went out: none when either encryption
   * failed, since that is returned before anything is sent.
   */
  method Login(username: string, password: string, valCode: string, preCookies: seq<Cookie>,
               encrypt: string -> Result<string, string>, send: LoginRequest -> LoginReply)
    returns (sent: Option<LoginRequest>, r: Result<seq<Cookie>, string>)
    ensures r == LoginOutcome(username, password, valCode, preCookies, encrypt, send)
    ensures sent.Some? <==> encrypt(username).Ok? && encrypt(password).Ok?
    ensures sent.Some? ==> sent.value == LoginRequestFor(encrypt(username).value, encrypt(password).value, valCode, preCookies)
  {
    var encUser := encrypt(username);
    if encUser.Err? {
      return None, Err("加密用户名失败: " + encUser.error);
    }
    var encPass := encrypt(password);
    if encPass.Err? {
      return None, Err("加密密码失败: " + encPass.error);
    }
    var form := LoginForm(encUser.value, encPass.value, valCode);
    var header := BuildCookieHeader(preCookies);
    var req := LoginRequest(form, header);
    sent := Some(req);
    var reply := send(req);
    match reply {
      case SendFailed(e) => r := Err("请求发送失败: " + e);
      case ReadFailed(e) => r := Err("读取响应失败: " + e);
      case Replied(NotJson(e), _) => r := Err("解析响应体失败: " + e);
      case Replied(LoginJson(isOk, msg), setCookies) =>
        if !isOk {
          r := Err(PlatformMessagePrefix + msg);
        } else {
          var ctVali := ExtractCtVali(setCookies);
          if ctVali == "" {
            r := Err(NoCtValiError);
          } else {
            r := Ok(SessionCookies(username, ctVali));
          }
        }
    }
  }

  /** A single `ct_vali` header (the decoy alone) fails the login. */
  lemma {:induction false} DecoyAloneFails(username: string, msg: string, other: seq<string>, decoy: string)
    requires HasPrefix(decoy, CtValiPrefix)
    requires forall i :: 0 <= i < |other| ==> !HasPrefix(other[i], CtValiPrefix)
    ensures ReplyOutcome(username, Replied(LoginJson(true, msg), other + [decoy])) == Err(NoCtValiError)
  {
    NoCtValiHeaders(other);
    assert (other + [decoy])[..|other|] == other;
  }

  lemma {:induction false} NoCtValiHeaders(hs: seq<string>)
    requires forall i :: 0 <= i < |hs| ==> !HasPrefix(hs[i], CtValiPrefix)
    ensures CtValiHeaders(hs) == []
    decreases |hs|
  {
    if |hs| > 0 {
      NoCtValiHeaders(hs[..|hs| - 1]);
    }
  }

  /** With two `ct_vali` headers the second one's value, up to its first `;`, is the token. */
  lemma {:induction false} SecondHeaderWins(first: string, token: string, attrs: string)
    requires ';' !in token
    ensures SecondCtVali([CtValiPrefix + first, CtValiPrefix + token + ";" + attrs]) == token
  {
    var h1, h2 := CtValiPrefix + first, CtValiPrefix + token + ";" + attrs;
    var hs := [h1, h2];
    assert hs[..1] == [h1];
    assert hs[..1][..0] == [];
    assert HasPrefix(h1, CtValiPrefix) && HasPrefix(h2, CtValiPrefix);
    assert CtValiHeaders(hs) == [h1, h2];
    UpToSemicolonStops(CtValiPrefix + token, attrs);
    assert h2 == (CtValiPrefix + token) + ";" + attrs;
  }

  lemma {:induction false} UpToSemicolonStops(a: string, b: string)
    requires ';' !in a
    ensures UpToSemicolon(a + ";" + b) == a
    decreases |a|
  {
    if |a| > 0 {
      assert (a + ";" + b)[1..] == a[1..] + ";" + b;
      UpToSemicolonStops(a[1..], b);
      assert [a[0]] + a[1..] == a;
    }
  }
}
