/**
 * `encoding/base64.StdEncoding` (section 4 of RFC 4648, with `=` padding), as
 * the captcha data URI (external/schoollogin/captcha.go) and the password
 * decoding of logic/user/auth.go use it.
 */
module Base64 {
  import opened Wrappers
  import opened Strings

  const Pad: char := '='

  /** Character `k` of the alphabet `A-Z a-z 0-9 + /`. */
  function Digit(k: int): char
    requires 0 <= k < 64
  {
    if k < 26 then ('A' as int + k) as char
    else if k < 52 then ('a' as int + k - 26) as char
    else if k < 62 then ('0' as int + k - 52) as char
    else if k == 62 then '+'
    else '/'
  }

  /** Position of `c` in the alphabet, or -1. */
  function IndexOf(c: char): (k: int)
    ensures -1 <= k < 64
    ensures k >= 0 ==> Digit(k) == c
  {
    if 'A' <= c <= 'Z' then c as int - 'A' as int
    else if 'a' <= c <= 'z' then c as int - 'a' as int + 26
    else if '0' <= c <= '9' then c as int - '0' as int + 52
    else if c == '+' then 62
    else if c == '/' then 63
    else -1
  }

  lemma IndexOfAlphabet(k: nat)
    requires k < 64
    ensures IndexOf(Digit(k)) == k
  {
  }

  predicate InAlphabet(c: char) {
    IndexOf(c) >= 0
  }

  function EncodeGroup(x: byte, y: byte, z: byte): string {
    [Digit(x as int / 4), Digit((x as int % 4) * 16 + y as int / 16),
     Digit((y as int % 16) * 4 + z as int / 64), Digit(z as int % 64)]
  }

  /** `StdEncoding.EncodeToString`. */
  function Encode(b: seq<byte>): (r: string)
    ensures |r| == 4 * ((|b| + 2) / 3)
    decreases |b|
  {
    if |b| == 0 then ""
    else if |b| == 1 then
      [Digit(b[0] as int / 4), Digit((b[0] as int % 4) * 16), Pad, Pad]
    else if |b| == 2 then
      [Digit(b[0] as int / 4), Digit((b[0] as int % 4) * 16 + b[1] as int / 16),
       Digit((b[1] as int % 16) * 4), Pad]
    else
      EncodeGroup(b[0], b[1], b[2]) + Encode(b[3..])
  }

  /** `StdEncoding.DecodeString` ignores carriage returns and line feeds. */
  function DropNewlines(s: string): (r: string)
    ensures (forall i :: 0 <= i < |s| ==> s[i] != '\r' && s[i] != '\n') ==> r == s
  {
    if |s| == 0 then ""
    else if s[0] == '\r' || s[0] == '\n' then DropNewlines(s[1..])
    else [s[0]] + DropNewlines(s[1..])
  }

  function Byte0(a: char, b: char): byte
    requires InAlphabet(a) && InAlphabet(b)
  {
    (IndexOf(a) * 4 + IndexOf(b) / 16) as byte
  }

  function Byte1(b: char, c: char): byte
    requires InAlphabet(b) && InAlphabet(c)
  {
    ((IndexOf(b) % 16) * 16 + IndexOf(c) / 4) as byte
  }

  function Byte2(c: char, d: char): byte
    requires InAlphabet(c) && InAlphabet(d)
  {
    ((IndexOf(c) % 4) * 64 + IndexOf(d)) as byte
  }

  /**
   * Decoding of padded text without newlines: whole quanta of four characters;
   * only the last may end in `=` or `==`; bits below the last byte are ignored,
   * as Go's non-strict decoder does.
   */
  function DecodeQuanta(s: string): (r: Option<seq<byte>>)
    decreases |s|
  {
    if |s| == 0 then Some([])
    else if |s| < 4 then None
    else if InAlphabet(s[0]) && InAlphabet(s[1]) && InAlphabet(s[2]) && InAlphabet(s[3]) then
      match DecodeQuanta(s[4..])
      case None => None
      case Some(rest) => Some([Byte0(s[0], s[1]), Byte1(s[1], s[2]), Byte2(s[2], s[3])] + rest)
    else if |s| == 4 && InAlphabet(s[0]) && InAlphabet(s[1]) && InAlphabet(s[2]) && s[3] == Pad then
      Some([Byte0(s[0], s[1]), Byte1(s[1], s[2])])
    else if |s| == 4 && InAlphabet(s[0]) && InAlphabet(s[1]) && s[2] == Pad && s[3] == Pad then
      Some([Byte0(s[0], s[1])])
    else None
  }

  /** `StdEncoding.DecodeString`; `None` is its `CorruptInputError`. */
  function Decode(s: string): Option<seq<byte>> {
    DecodeQuanta(DropNewlines(s))
  }

  lemma GroupBytes(x: byte, y: byte, z: byte)
    ensures var g := EncodeGroup(x, y, z);
      InAlphabet(g[0]) && InAlphabet(g[1]) && InAlphabet(g[2]) && InAlphabet(g[3])
      && Byte0(g[0], g[1]) == x && Byte1(g[1], g[2]) == y && Byte2(g[2], g[3]) == z
  {
    var a, b, c, d := x as int / 4, (x as int % 4) * 16 + y as int / 16, (y as int % 16) * 4 + z as int / 64, z as int % 64;
    IndexOfAlphabet(a);
    IndexOfAlphabet(b);
    IndexOfAlphabet(c);
    IndexOfAlphabet(d);
    assert b / 16 == x as int % 4 && b % 16 == y as int / 16;
    assert c / 4 == y as int % 16 && c % 4 == z as int / 64;
  }

  /** Decoding what was encoded gives the bytes back. */
  lemma {:induction false} DecodeEncode(b: seq<byte>)
    ensures Decode(Encode(b)) == Some(b)
  {
    var s := Encode(b);
    EncodeAlphabet(b);
    forall i | 0 <= i < |s| ensures s[i] != '\r' && s[i] != '\n' {
      assert InAlphabet(s[i]) || s[i] == Pad;
    }
    assert DropNewlines(s) == s;
    DecodeQuantaEncode(b);
  }

  /** Every character of an encoding is an alphabet character or padding. */
  lemma {:induction false} EncodeAlphabet(b: seq<byte>)
    ensures forall i :: 0 <= i < |Encode(b)| ==> InAlphabet(Encode(b)[i]) || Encode(b)[i] == Pad
    decreases |b|
  {
    var r := Encode(b);
    if |b| == 1 {
      ShortAlphabet(b);
    } else if |b| == 2 {
      ShortAlphabet(b);
    } else if |b| >= 3 {
      var g := EncodeGroup(b[0], b[1], b[2]);
      GroupBytes(b[0], b[1], b[2]);
      EncodeAlphabet(b[3..]);
      var t := Encode(b[3..]);
      assert r == g + t;
      AppendAlphabet(g, t);
    }
  }

  lemma AppendAlphabet(g: string, t: string)
    requires |g| == 4 && InAlphabet(g[0]) && InAlphabet(g[1]) && InAlphabet(g[2]) && InAlphabet(g[3])
    requires forall i :: 0 <= i < |t| ==> InAlphabet(t[i]) || t[i] == Pad
    ensures forall i :: 0 <= i < |g + t| ==> InAlphabet((g + t)[i]) || (g + t)[i] == Pad
  {
    forall i | 0 <= i < |g + t| ensures InAlphabet((g + t)[i]) || (g + t)[i] == Pad {
      if i >= 4 {
        assert (g + t)[i] == t[i - 4];
      }
    }
  }

  lemma ShortAlphabet(b: seq<byte>)
    requires |b| == 1 || |b| == 2
    ensures forall i :: 0 <= i < |Encode(b)| ==> InAlphabet(Encode(b)[i]) || Encode(b)[i] == Pad
  {
    var x := b[0] as int;
    IndexOfAlphabet(x / 4);
    if |b| == 1 {
      IndexOfAlphabet((x % 4) * 16);
      assert Encode(b) == [Digit(x / 4), Digit((x % 4) * 16), Pad, Pad];
    } else {
      var y := b[1] as int;
      IndexOfAlphabet((x % 4) * 16 + y / 16);
      IndexOfAlphabet((y % 16) * 4);
      assert Encode(b) == [Digit(x / 4), Digit((x % 4) * 16 + y / 16), Digit((y % 16) * 4), Pad];
    }
  }

  lemma DecodeOneByte(x: byte)
    ensures DecodeQuanta(Encode([x])) == Some([x])
  {
    var s := Encode([x]);
    var i := x as int;
    IndexOfAlphabet(i / 4);
    IndexOfAlphabet((i % 4) * 16);
    assert s == [Digit(i / 4), Digit((i % 4) * 16), Pad, Pad];
    assert !InAlphabet(Pad);
    assert ((i % 4) * 16) / 16 == i % 4;
    assert Byte0(s[0], s[1]) == x;
  }

  lemma DecodeTwoBytes(x: byte, y: byte)
    ensures DecodeQuanta(Encode([x, y])) == Some([x, y])
  {
    var s := Encode([x, y]);
    var i, j := x as int, y as int;
    var p, q := (i % 4) * 16 + j / 16, (j % 16) * 4;
    IndexOfAlphabet(i / 4);
    IndexOfAlphabet(p);
    IndexOfAlphabet(q);
    assert s == [Digit(i / 4), Digit(p), Digit(q), Pad];
    assert !InAlphabet(Pad);
    assert p / 16 == i % 4 && p % 16 == j / 16 && q / 4 == j % 16;
    assert Byte0(s[0], s[1]) == x;
    assert Byte1(s[1], s[2]) == y;
  }

  lemma DecodeFullQuantum(g: string, t: string)
    requires |g| == 4 && InAlphabet(g[0]) && InAlphabet(g[1]) && InAlphabet(g[2]) && InAlphabet(g[3])
    ensures DecodeQuanta(g + t) ==
      match DecodeQuanta(t)
      case None => None
      case Some(rest) => Some([Byte0(g[0], g[1]), Byte1(g[1], g[2]), Byte2(g[2], g[3])] + rest)
  {
    assert (g + t)[..4] == g;
    assert (g + t)[4..] == t;
  }

  lemma {:induction false} DecodeQuantaEncode(b: seq<byte>)
    ensures DecodeQuanta(Encode(b)) == Some(b)
    decreases |b|
  {
    if |b| == 1 {
      DecodeOneByte(b[0]);
      assert [b[0]] == b;
    } else if |b| == 2 {
      DecodeTwoBytes(b[0], b[1]);
      assert [b[0], b[1]] == b;
    } else if |b| >= 3 {
      var g := EncodeGroup(b[0], b[1], b[2]);
      assert Encode(b) == g + Encode(b[3..]);
      GroupBytes(b[0], b[1], b[2]);
      DecodeQuantaEncode(b[3..]);
      DecodeFullQuantum(g, Encode(b[3..]));
      assert [b[0], b[1], b[2]] + b[3..] == b;
    }
  }
}
