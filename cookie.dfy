/**
 * utils/cookie.go: the stored form of a session's cookies,
 * `name1=value1; name2=value2`, and its parser.
 */
module Cookies {
  import opened Wrappers
  import opened Strings

  /** The two fields of an `http.Cookie` the system reads or writes. */
  datatype Cookie = Cookie(name: string, value: string)

  const Separator: string := "; "

  /** `name=value`, the wire form of one cookie. */
  function Pair(c: Cookie): string {
    c.name + "=" + c.value
  }

  function Pairs(cs: seq<Cookie>): (r: seq<string>)
    ensures |r| == |cs| && forall i :: 0 <= i < |cs| ==> r[i] == Pair(cs[i])
  {
    seq(|cs|, i requires 0 <= i < |cs| => Pair(cs[i]))
  }

  lemma PairsAppend(cs: seq<Cookie>, c: Cookie)
    ensures Pairs(cs + [c]) == Pairs(cs) + [Pair(c)]
  {
  }

  /** `SerializeCookies`: the pairs in input order, joined by `"; "`. */
  function Serialize(cs: seq<Cookie>): (r: string)
    ensures r == "" <==> cs == []
  {
    var r := Join(Pairs(cs), Separator);
    assert cs != [] ==> '=' in r by {
      if cs != [] { JoinKeepsFirst(Pairs(cs), Separator); }
    }
    r
  }

  lemma JoinKeepsFirst(parts: seq<string>, sep: string)
    requires |parts| > 0
    ensures HasPrefix(Join(parts, sep), parts[0])
  {
  }

  /**
   * One segment through `strings.SplitN(p, "=", 2)`: a cookie exactly when the
   * segment holds an `=`; the name stops at the FIRST `=`, so a value may hold more.
   */
  function ParsePair(p: string): (r: Option<Cookie>)
    ensures r.None? <==> '=' !in p
    ensures r.Some? ==> '=' !in r.value.name && p == Pair(r.value)
    decreases |p|
  {
    if |p| == 0 then None
    else if p[0] == '=' then Some(Cookie("", p[1..]))
    else
      match ParsePair(p[1..])
      case None => None
      case Some(c) =>
        assert p == [p[0]] + p[1..];
        Some(Cookie([p[0]] + c.name, c.value))
  }

  /** The loop body of `DeserializeCookies`: segments without `=` are skipped. */
  function ParseAll(ps: seq<string>): (r: seq<Cookie>)
    ensures |r| <= |ps|
    ensures (forall i :: 0 <= i < |ps| ==> '=' in ps[i]) ==> |r| == |ps|
    ensures (forall i :: 0 <= i < |ps| ==> '=' !in ps[i]) ==> r == []
    decreases |ps|
  {
    if |ps| == 0 then []
    else
      match ParsePair(ps[0])
      case None => ParseAll(ps[1..])
      case Some(c) => [c] + ParseAll(ps[1..])
  }

  /** `DeserializeCookies`: split on `"; "`, then parse every segment. It never fails. */
  function Deserialize(s: string): seq<Cookie> {
    ParseAll(Split(s, Separator))
  }

  /** What the round trip needs: no `=` in a name, no `"; "` in a name or a value. */
  predicate WellFormed(c: Cookie) {
    '=' !in c.name && !Contains(c.name, Separator) && !Contains(c.value, Separator)
  }

  lemma DeserializeEmpty()
    ensures Deserialize("") == []
  {
    assert Split("", Separator) == [""];
  }

  lemma {:induction false} SplitWithoutSeparator(p: string)
    requires !Contains(p, Separator)
    ensures Split(p, Separator) == [p]
    decreases |p|
  {
    if |p| > 0 {
      SplitWithoutSeparator(p[1..]);
      assert [p[0]] + p[1..] == p;
    }
  }

  lemma {:induction false} SplitFirstPiece(p: string, q: string)
    requires !Contains(p, Separator)
    ensures Split(p + Separator + q, Separator) == [p] + Split(q, Separator)
    decreases |p|
  {
    var s := p + Separator + q;
    if |p| == 0 {
      assert s == Separator + q;
      assert s[|Separator|..] == q;
    } else {
      if |p| >= 2 {
        assert s[..2] == p[..2];
      } else {
        assert s[1] == ';';
      }
      assert !HasPrefix(s, Separator);
      assert s[1..] == p[1..] + Separator + q;
      SplitFirstPiece(p[1..], q);
      assert [p[0]] + p[1..] == p;
    }
  }

  lemma {:induction false} SplitJoin(parts: seq<string>)
    requires |parts| >= 1
    requires forall i :: 0 <= i < |parts| ==> !Contains(parts[i], Separator)
    ensures Split(Join(parts, Separator), Separator) == parts
    decreases |parts|
  {
    if |parts| == 1 {
      SplitWithoutSeparator(parts[0]);
    } else {
      SplitJoin(parts[1..]);
      SplitFirstPiece(parts[0], Join(parts[1..], Separator));
      assert [parts[0]] + parts[1..] == parts;
    }
  }

  lemma {:induction false} NoSeparatorInPair(c: Cookie)
    requires WellFormed(c)
    ensures !Contains(Pair(c), Separator)
  {
    var s := Pair(c);
    var n := |c.name|;
    forall i: nat ensures !OccursAt(s, Separator, i) {
      if i + 2 > |s| {
      } else if i + 2 <= n {
        assert s[i..i + 2] == c.name[i..i + 2];
        NotContainsAt(c.name, Separator, i);
        assert !OccursAt(c.name, Separator, i);
      } else if i + 1 == n {
        assert s[i..i + 2][1] == s[n] == '=' != Separator[1];
      } else if i == n {
        assert s[i..i + 2][0] == s[n] == '=' != Separator[0];
      } else {
        assert s[i..i + 2] == c.value[i - n - 1..i - n + 1];
        NotContainsAt(c.value, Separator, i - n - 1);
        assert !OccursAt(c.value, Separator, i - n - 1);
      }
    }
    NotContainsFromSlices(s, Separator);
  }

  lemma {:induction false} ParsePairOfPair(c: Cookie)
    requires '=' !in c.name
    ensures ParsePair(Pair(c)) == Some(c)
    decreases |c.name|
  {
    var p := Pair(c);
    if |c.name| == 0 {
      assert p[0] == '=' && p[1..] == c.value;
    } else {
      var rest := Cookie(c.name[1..], c.value);
      assert p[0] == c.name[0] && p[0] != '=';
      assert p[1..] == Pair(rest);
      ParsePairOfPair(rest);
      assert ParsePair(p) == Some(Cookie([p[0]] + rest.name, rest.value));
      assert [c.name[0]] + c.name[1..] == c.name;
    }
  }

  lemma {:induction false} ParseAllPairs(cs: seq<Cookie>)
    requires forall i :: 0 <= i < |cs| ==> '=' !in cs[i].name
    ensures ParseAll(Pairs(cs)) == cs
    decreases |cs|
  {
    if |cs| > 0 {
      ParsePairOfPair(cs[0]);
      ParseAllPairs(cs[1..]);
      assert Pairs(cs)[1..] == Pairs(cs[1..]);
      assert [cs[0]] + cs[1..] == cs;
    }
  }

  /**
   * The stored cookie string reads back as the same cookies, in the same order,
   * for cookies whose names hold no `=` and whose names and values hold no `"; "`.
   */
  lemma {:induction false} RoundTrip(cs: seq<Cookie>)
    requires forall i :: 0 <= i < |cs| ==> WellFormed(cs[i])
    ensures Deserialize(Serialize(cs)) == cs
  {
    if |cs| == 0 {
      DeserializeEmpty();
    } else {
      forall i | 0 <= i < |cs| ensures !Contains(Pairs(cs)[i], Separator) {
        NoSeparatorInPair(cs[i]);
      }
      SplitJoin(Pairs(cs));
      ParseAllPairs(cs);
    }
  }

  /** A leading segment without `=` is dropped silently and parsing carries on. */
  lemma {:induction false} SegmentWithoutEqualsDropped(p: string, rest: string)
    requires '=' !in p && !Contains(p, Separator)
    ensures Deserialize(p + Separator + rest) == Deserialize(rest)
  {
    SplitFirstPiece(p, rest);
    var ps := Split(p + Separator + rest, Separator);
    assert ps[1..] == Split(rest, Separator);
  }
}
