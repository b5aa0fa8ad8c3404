/**
 * external/schoollogin/captcha.go: `GetValidateCodeBase64`, the captcha
 * challenge. The HTTP exchange is an input: either the error of one of its
 * steps, or the image bytes and the cookie jar it left.
 */
module Captcha {
  import opened Wrappers
  import opened Strings
  import opened Cookies
  import Base64

  const ImagePrefix: string := "data:image/png;base64,"
  const MissingCookiesError: string := "未能获取到完整的 Vlis 和 VK_ cookies"

  /** What the captcha request produced. */
  datatype CaptchaFetch =
    | JarFailed(error: string)
    | GetFailed(error: string)
    | ReadFailed(error: string)
    | Fetched(image: seq<byte>, jar: seq<Cookie>)

  /** A challenge: the image as a data URI and its correlation cookies. */
  datatype Challenge = Challenge(image: string, cookies: seq<Cookie>)

  /** The correlation cookies are the ones named `Vlis` or `VK_`. */
  predicate IsCorrelation(c: Cookie) {
    c.name == "Vlis" || c.name == "VK_"
  }

  /** The correlation cookies of `jar`, in jar order. */
  function Correlation(jar: seq<Cookie>): (r: seq<Cookie>)
    ensures |r| <= |jar|
    ensures forall i :: 0 <= i < |r| ==> IsCorrelation(r[i]) && r[i] in jar
    ensures forall c :: c in jar && IsCorrelation(c) ==> c in r
    decreases |jar|
  {
    if |jar| == 0 then []
    else
      var last := jar[|jar| - 1];
      var init := jar[..|jar| - 1];
      assert forall c :: c in jar ==> c in init || c == last;
      Correlation(init) + (if IsCorrelation(last) then [last] else [])
  }

  /** One more jar cookie extends the filtered list by that cookie exactly when it is a correlation cookie. */
  lemma CorrelationStep(jar: seq<Cookie>, i: nat)
    requires i < |jar|
    ensures Correlation(jar[..i + 1]) == Correlation(jar[..i]) + (if IsCorrelation(jar[i]) then [jar[i]] else [])
  {
    assert jar[..i + 1][..i] == jar[..i];
  }

  /** The filtering loop of `GetValidateCodeBase64`. */
  method FilterCorrelation(jar: seq<Cookie>) returns (cookies: seq<Cookie>)
    ensures cookies == Correlation(jar)
  {
    cookies := [];
    var i := 0;
    while i < |jar|
      invariant 0 <= i <= |jar|
      invariant cookies == Correlation(jar[..i])
    {
      var c := jar[i];
      CorrelationStep(jar, i);
      if c.name == "Vlis" || c.name == "VK_" {
        cookies := cookies + [c];
      }
      i := i + 1;
    }
    assert jar[..|jar|] == jar;
  }

  /**
   * What `GetValidateCodeBase64` returns: a failed step with its context, or
   * the image as a base64 data URI with the correlation cookies; the jar must
   * hold at least two correlation cookies (two cookies, not two names).
   */
  function CaptchaOutcome(fetch: CaptchaFetch): (r: Result<Challenge, string>)
    ensures fetch.JarFailed? ==> r == Err("创建cookiejar失败: " + fetch.error)
    ensures fetch.GetFailed? ==> r == Err("请求验证码失败: " + fetch.error)
    ensures fetch.ReadFailed? ==> r == Err("读取验证码图片失败: " + fetch.error)
    ensures fetch.Fetched? && |Correlation(fetch.jar)| < 2 ==> r == Err(MissingCookiesError)
    ensures fetch.Fetched? && |Correlation(fetch.jar)| >= 2 ==>
      r.Ok? && r.value.cookies == Correlation(fetch.jar)
    ensures r.Ok? ==>
      && fetch.Fetched? && |r.value.cookies| >= 2
      && HasPrefix(r.value.image, ImagePrefix)
      && Base64.Decode(r.value.image[|ImagePrefix|..]) == Some(fetch.image)
  {
    match fetch
    case JarFailed(e) => Err("创建cookiejar失败: " + e)
    case GetFailed(e) => Err("请求验证码失败: " + e)
    case ReadFailed(e) => Err("读取验证码图片失败: " + e)
    case Fetched(imgBytes, jar) =>
      var image := ImagePrefix + Base64.Encode(imgBytes);
      var cookies := Correlation(jar);
      if |cookies| < 2 then Err(MissingCookiesError)
      else
        Base64.DecodeEncode(imgBytes);
        assert image[|ImagePrefix|..] == Base64.Encode(imgBytes);
        Ok(Challenge(image, cookies))
  }

  /** `GetValidateCodeBase64`, with the jar filtered by its loop. */
  method GetValidateCodeBase64(fetch: CaptchaFetch) returns (r: Result<Challenge, string>)
    ensures r == CaptchaOutcome(fetch)
  {
    match fetch
    case JarFailed(e) => return Err("创建cookiejar失败: " + e);
    case GetFailed(e) => return Err("请求验证码失败: " + e);
    case ReadFailed(e) => return Err("读取验证码图片失败: " + e);
    case Fetched(imgBytes, jar) =>
      var image := ImagePrefix + Base64.Encode(imgBytes);
      var cookies := FilterCorrelation(jar);
      if |cookies| < 2 {
        return Err(MissingCookiesError);
      }
      r := Ok(Challenge(image, cookies));
  }

  /** Two `Vlis` cookies and no `VK_` satisfy the check. */
  lemma {:induction false} TwoVlisPass(a: string, b: string)
    ensures Correlation([Cookie("Vlis", a), Cookie("Vlis", b)]) == [Cookie("Vlis", a), Cookie("Vlis", b)]
  {
    var jar := [Cookie("Vlis", a), Cookie("Vlis", b)];
    assert jar[..1] == [Cookie("Vlis", a)];
    assert Correlation(jar[..1][..0]) == [];
  }
}
