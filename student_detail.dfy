/**
 * external/schoollogin/studentdetail.go: `GetStudentNameFromDetail`, which
 * reads the student's display name from the profile page. The GET request is
 * the function `fetch` from the `Cookie` header sent to what came back.
 */
module StudentDetail {
  import opened Wrappers
  import opened Strings
  import opened Cookies

  const NoUserNameError: string := "无法从页面中解析出 userName"

  /** The GET: a transport error, a body read error, or the page text. */
  datatype DetailFetch = DoFailed(error: string) | ReadFailed(error: string) | Page(html: string)

  /** The text the header loop accumulates: `name=value; ` per cookie, in order. */
  function RawHeader(cs: seq<Cookie>): (r: string)
    ensures cs != [] ==> |r| >= 2 && r[|r| - 2] == ';' && r[|r| - 1] == ' '
    decreases |cs|
  {
    if cs == [] then ""
    else RawHeader(cs[..|cs| - 1]) + Pair(cs[|cs| - 1]) + "; "
  }

  /** The `Cookie` header of the detail request: the accumulated text, trimmed. */
  function DetailCookieHeader(cs: seq<Cookie>): string {
    TrimSpace(RawHeader(cs))
  }

  /** The header loop of `GetStudentNameFromDetail`. */
  method BuildDetailCookieHeader(cs: seq<Cookie>) returns (h: string)
    ensures h == DetailCookieHeader(cs)
  {
    var cookieStr := "";
    var i := 0;
    while i < |cs|
      invariant 0 <= i <= |cs|
      invariant cookieStr == RawHeader(cs[..i])
    {
      RawHeaderStep(cs, i);
      cookieStr := cookieStr + cs[i].name + "=" + cs[i].value + "; ";
      i := i + 1;
    }
    assert cs[..|cs|] == cs;
    h := TrimSpace(cookieStr);
  }

  /** One turn of the header loop appends the next cookie's pair and `; `. */
  lemma RawHeaderStep(cs: seq<Cookie>, i: nat)
    requires i < |cs|
    ensures RawHeader(cs[..i + 1]) == RawHeader(cs[..i]) + cs[i].name + "=" + cs[i].value + "; "
  {
    assert cs[..i + 1][..i] == cs[..i];
    assert RawHeader(cs[..i + 1]) == RawHeader(cs[..i]) + Pair(cs[i]) + "; ";
  }

  /** The header is empty without cookies and otherwise ends with `;`: only the final blank is trimmed. */
  lemma {:induction false} DetailHeaderEndsWithSemicolon(cs: seq<Cookie>)
    ensures cs == [] ==> DetailCookieHeader(cs) == ""
    ensures cs != [] ==> var h := DetailCookieHeader(cs); |h| > 0 && h[|h| - 1] == ';'
  {
    if cs == [] {
      TrimEmpty();
    } else {
      TrimEndsWithSemicolon(RawHeader(cs));
    }
  }

  lemma TrimEmpty()
    ensures TrimSpace("") == ""
  {
    assert TrimLeftSpace("") == "" && TrimRightSpace("") == "";
  }

  /** Trimming text that ends in `"; "` removes the blank and keeps the `;`. */
  lemma {:induction false} TrimEndsWithSemicolon(s: string)
    requires |s| >= 2 && s[|s| - 2] == ';' && s[|s| - 1] == ' '
    ensures var h := TrimSpace(s); |h| > 0 && h[|h| - 1] == ';'
  {
    var l := TrimLeftSpace(s);
    assert |l| >= 2 by {
      assert !IsSpace(s[|s| - 2]);
    }
    assert l[|l| - 2] == s[|s| - 2] && l[|l| - 1] == s[|s| - 1];
    var r := TrimRightSpace(l);
    assert |r| >= |l| - 1 by {
      assert !IsSpace(l[|l| - 2]);
    }
    assert |r| == |l| - 1 by {
      assert IsSpace(l[|l| - 1]);
    }
    assert r[|r| - 1] == l[|l| - 2];
  }

  /** `\s` in Go's regular expressions: `[\t\n\f\r ]`. */
  predicate RegexSpace(c: char) {
    c == '\t' || c == '\n' || c == '\U{000C}' || c == '\r' || c == ' '
  }

  /** The first index at or after `i` that is not a `\s`. */
  function SkipSpaces(s: string, i: nat): (j: nat)
    requires i <= |s|
    ensures i <= j <= |s|
    ensures forall k :: i <= k < j ==> RegexSpace(s[k])
    ensures j < |s| ==> !RegexSpace(s[j])
    decreases |s| - i
  {
    if i < |s| && RegexSpace(s[i]) then SkipSpaces(s, i + 1) else i
  }

  /** The first index at or after `i` holding a `'`, or `|s|`. */
  function NextQuote(s: string, i: nat): (j: nat)
    requires i <= |s|
    ensures i <= j <= |s|
    ensures forall k :: i <= k < j ==> s[k] != '\''
    ensures j < |s| ==> s[j] == '\''
    decreases |s| - i
  {
    if i < |s| && s[i] != '\'' then NextQuote(s, i + 1) else i
  }

  predicate LiteralAt(s: string, i: nat, lit: string) {
    i + |lit| <= |s| && s[i..i + |lit|] == lit
  }

  /**
   * The match of `var\s+userName\s*=\s*'([^']+)'` starting at `i`, as its
   * capture group. Each repetition is followed by a character it cannot
   * match, so at a given start there is at most one match and the greedy
   * runs are maximal. The stages below follow the pattern piece by piece.
   */
  function MatchAt(s: string, i: nat): (r: Option<string>)
    requires i <= |s|
    ensures r.Some? ==> |r.value| > 0 && '\'' !in r.value
  {
    if !LiteralAt(s, i, "var") then None else AfterVar(s, i + 3)
  }

  /** `\s+userName` and the rest, from just after `var`. */
  function AfterVar(s: string, j0: nat): (r: Option<string>)
    requires j0 <= |s|
    ensures r.Some? ==> |r.value| > 0 && '\'' !in r.value
  {
    var j := SkipSpaces(s, j0);
    if j == j0 || !LiteralAt(s, j, "userName") then None else AfterName(s, j + 8)
  }

  /** `\s*=` and the rest, from just after `userName`. */
  function AfterName(s: string, k0: nat): (r: Option<string>)
    requires k0 <= |s|
    ensures r.Some? ==> |r.value| > 0 && '\'' !in r.value
  {
    var k := SkipSpaces(s, k0);
    if k == |s| || s[k] != '=' then None else AfterEquals(s, k + 1)
  }

  /** `\s*'` and the rest, from just after `=`. */
  function AfterEquals(s: string, l0: nat): (r: Option<string>)
    requires l0 <= |s|
    ensures r.Some? ==> |r.value| > 0 && '\'' !in r.value
  {
    var l := SkipSpaces(s, l0);
    if l == |s| || s[l] != '\'' then None else Quoted(s, l + 1)
  }

  /** `([^']+)'`, from just after the opening quote. */
  function Quoted(s: string, q0: nat): (r: Option<string>)
    requires q0 <= |s|
    ensures r.Some? ==> |r.value| > 0 && '\'' !in r.value
  {
    var q := NextQuote(s, q0);
    if q == q0 || q == |s| then None else Some(s[q0..q])
  }

  /** Where `FindStringSubmatch` matches: the leftmost start at or after `i` with a match. */
  function LeftmostMatch(s: string, i: nat): (r: Option<nat>)
    requires i <= |s|
    ensures r.None? <==> forall p :: i <= p <= |s| ==> MatchAt(s, p).None?
    ensures r.Some? ==> i <= r.value <= |s| && MatchAt(s, r.value).Some?
    ensures r.Some? ==> forall p :: i <= p < r.value ==> MatchAt(s, p).None?
    decreases |s| - i
  {
    if MatchAt(s, i).Some? then Some(i)
    else if i == |s| then None
    else LeftmostMatch(s, i + 1)
  }

  /** The name taken from a page: the leftmost match's capture, trimmed. */
  function ExtractUserName(html: string): (r: Result<string, string>)
    ensures r.Err? <==> forall p :: 0 <= p <= |html| ==> MatchAt(html, p).None?
    ensures r.Err? ==> r.error == NoUserNameError
    ensures r.Ok? ==> '\'' !in r.value
    ensures r.Ok? ==> r.value == [] || (!IsSpace(r.value[0]) && !IsSpace(r.value[|r.value| - 1]))
  {
    match LeftmostMatch(html, 0)
    case None => Err(NoUserNameError)
    case Some(p) =>
      var capture := MatchAt(html, p).value;
      Ok(TrimSpace(capture))
  }

  /** The name is the capture of the first match on the page, trimmed. */
  lemma {:induction false} ExtractUserNameLeftmost(html: string, p: nat)
    requires p <= |html| && MatchAt(html, p).Some?
    requires forall p' :: 0 <= p' < p ==> MatchAt(html, p').None?
    ensures ExtractUserName(html) == Ok(TrimSpace(MatchAt(html, p).value))
  {
  }

  /** No match starts at a character other than `v`. */
  lemma NoMatchWithoutV(s: string, p: nat)
    requires p < |s| && s[p] != 'v'
    ensures MatchAt(s, p).None?
  {
    if p + 3 <= |s| {
      assert s[p..p + 3][0] == s[p];
    }
  }

  /** What `GetStudentNameFromDetail` returns for a reply: a fetch error as it is, or the name read from the page. */
  function DetailOutcome(reply: DetailFetch): (r: Result<string, string>)
    ensures reply.Page? ==> r == ExtractUserName(reply.html)
    ensures !reply.Page? ==> r == Err(reply.error)
  {
    match reply
    case DoFailed(e) => Err(e)
    case ReadFailed(e) => Err(e)
    case Page(html) => ExtractUserName(html)
  }

  /** `GetStudentNameFromDetail`: `sent` is the `Cookie` header of the request. */
  method GetStudentNameFromDetail(cookies: seq<Cookie>, fetch: string -> DetailFetch)
    returns (sent: string, r: Result<string, string>)
    ensures sent == DetailCookieHeader(cookies)
    ensures r == DetailOutcome(fetch(sent))
  {
    sent := BuildDetailCookieHeader(cookies);
    var reply := fetch(sent);
    r := DetailOutcome(reply);
  }

  /** The declaration `var userName = ' 张三 ';` matches with capture `" 张三 "`. */
  lemma {:induction false} DeclarationMatches(before: string, after: string)
    ensures MatchAt(before + "var userName = ' 张三 ';" + after, |before|) == Some(" 张三 ")
  {
    var d := "var userName = ' 张三 ';";
    var html := before + d + after;
    var n := |before|;
    assert html[n..n + 22] == d;
    assert d[..3] == "var";
    assert d[4..12] == "userName";
    assert d[16..20] == " 张三 ";
    assert d[3] == ' ' && d[12] == ' ' && d[13] == '=' && d[14] == ' ' && d[15] == '\'' && d[20] == '\'';
    DeclarationStages(html, n);
  }

  /** The same match, stage by stage, on any text holding the declaration's pieces at `n`. */
  lemma {:induction false} DeclarationStages(html: string, n: nat)
    requires n + 22 <= |html|
    requires html[n..n + 3] == "var" && html[n + 3] == ' '
    requires html[n + 4..n + 12] == "userName" && html[n + 12] == ' ' && html[n + 13] == '='
    requires html[n + 14] == ' ' && html[n + 15] == '\''
    requires html[n + 16..n + 20] == " 张三 " && html[n + 20] == '\''
    ensures MatchAt(html, n) == Some(" 张三 ")
  {
    assert html[n + 4] == html[n + 4..n + 12][0] == 'u';
    assert SkipSpaces(html, n + 4) == n + 4;
    assert SkipSpaces(html, n + 3) == n + 4;
    assert AfterVar(html, n + 3) == AfterName(html, n + 12);
    assert SkipSpaces(html, n + 13) == n + 13;
    assert SkipSpaces(html, n + 12) == n + 13;
    assert AfterName(html, n + 12) == AfterEquals(html, n + 14);
    assert SkipSpaces(html, n + 15) == n + 15;
    assert SkipSpaces(html, n + 14) == n + 15;
    assert AfterEquals(html, n + 14) == Quoted(html, n + 16);
    var q := html[n + 16..n + 20];
    assert html[n + 16] == q[0] && html[n + 17] == q[1] && html[n + 18] == q[2] && html[n + 19] == q[3];
    assert NextQuote(html, n + 20) == n + 20;
    assert NextQuote(html, n + 19) == n + 20;
    assert NextQuote(html, n + 18) == n + 20;
    assert NextQuote(html, n + 17) == n + 20;
    assert NextQuote(html, n + 16) == n + 20;
  }

  /** A page declaring `var userName = ' 张三 ';` after text without a `v` yields the trimmed name. */
  lemma {:induction false} DeclaredNameFound(before: string, after: string)
    requires 'v' !in before
    ensures ExtractUserName(before + "var userName = ' 张三 ';" + after) == Ok("张三")
  {
    var html := before + "var userName = ' 张三 ';" + after;
    DeclarationMatches(before, after);
    forall p | 0 <= p < |before|
      ensures MatchAt(html, p).None?
    {
      assert html[p] == before[p];
      NoMatchWithoutV(html, p);
    }
    ExtractUserNameLeftmost(html, |before|);
    TrimPaddedName();
  }

  lemma TrimPaddedName()
    ensures TrimSpace(" 张三 ") == "张三"
  {
    var padded, left, name := " 张三 ", "张三 ", "张三";
    assert padded[0] == ' ' && padded[1..] == left;
    assert !IsSpace(left[0]);
    assert TrimLeftSpace(left) == left;
    assert TrimLeftSpace(padded) == left;
    assert left[|left| - 1] == ' ' && left[..|left| - 1] == name;
    assert !IsSpace(name[|name| - 1]);
    assert TrimRightSpace(name) == name;
    assert TrimRightSpace(left) == name;
  }
}
