/** Standard padded base64 as in section 4 of RFC 4648, with the strict
    decoding of the `base64` crate's `STANDARD` engine: the input length is
    a multiple of four, `=` appears only as one or two final padding
    characters, and the bits the padding leaves over are zero. */
module Base64 {
  import opened Wrappers
  import opened Bytes

  type Sextet = x: int | 0 <= x < 64

  /** The RFC 4648 alphabet: A-Z, a-z, 0-9, '+', '/'. */
  function CharOf(v: Sextet): char {
    if v < 26 then ('A' as int + v) as char
    else if v < 52 then ('a' as int + (v - 26)) as char
    else if v < 62 then ('0' as int + (v - 52)) as char
    else if v == 62 then '+'
    else '/'
  }

  /** The value of an alphabet character; `None` for anything else,
      including the padding character '='. */
  function ValueOf(c: char): (r: Option<Sextet>)
    ensures r.Some? ==> CharOf(r.value) == c
  {
    if 'A' <= c <= 'Z' then Some(c as int - 'A' as int)
    else if 'a' <= c <= 'z' then Some(c as int - 'a' as int + 26)
    else if '0' <= c <= '9' then Some(c as int - '0' as int + 52)
    else if c == '+' then Some(62)
    else if c == '/' then Some(63)
    else None
  }

  lemma ValueOfCharOf(v: Sextet)
    ensures ValueOf(CharOf(v)) == Some(v)
  {
  }

  function Enc3(x: Byte, y: Byte, z: Byte): string {
    [CharOf(x / 4), CharOf(x % 4 * 16 + y / 16), CharOf(y % 16 * 4 + z / 64), CharOf(z % 64)]
  }

  function Enc2(x: Byte, y: Byte): string {
    [CharOf(x / 4), CharOf(x % 4 * 16 + y / 16), CharOf(y % 16 * 4), '=']
  }

  function Enc1(x: Byte): string {
    [CharOf(x / 4), CharOf(x % 4 * 16), '=', '=']
  }

  /** Encoding: each group of three bytes becomes four characters; a final
      group of one or two bytes is padded with '='. */
  function Encode(b: seq<Byte>): (r: string)
    ensures |b| > 0 ==> |r| >= 4
  {
    if |b| == 0 then []
    else if |b| == 1 then Enc1(b[0])
    else if |b| == 2 then Enc2(b[0], b[1])
    else Enc3(b[0], b[1], b[2]) + Encode(b[3..])
  }

  /** The three bytes that four sextets spell. */
  function Dec3(a: Sextet, b: Sextet, d: Sextet, e: Sextet): (r: seq<Byte>)
    ensures |r| == 3
  {
    var x: Byte := a * 4 + b / 16;
    var y: Byte := b % 16 * 16 + d / 4;
    var z: Byte := d % 4 * 64 + e;
    [x, y, z]
  }

  /** A four-character group with no padding. */
  function DecFull(c: string): Option<seq<Byte>>
    requires |c| == 4
  {
    match (ValueOf(c[0]), ValueOf(c[1]), ValueOf(c[2]), ValueOf(c[3]))
    case (Some(a), Some(b), Some(d), Some(e)) =>
      Some(Dec3(a, b, d, e))
    case _ => None
  }

  /** The last four-character group, which may end in padding. */
  function DecLast(c: string): Option<seq<Byte>>
    requires |c| == 4
  {
    if c[3] != '=' then DecFull(c)
    else if c[2] != '=' then
      match (ValueOf(c[0]), ValueOf(c[1]), ValueOf(c[2]))
      case (Some(a), Some(b), Some(d)) =>
        if d % 4 == 0 then Some(Dec3(a, b, d, 0)[..2]) else None
      case _ => None
    else
      match (ValueOf(c[0]), ValueOf(c[1]))
      case (Some(a), Some(b)) =>
        if b % 16 == 0 then Some(Dec3(a, b, 0, 0)[..1]) else None
      case _ => None
  }

  /** Strict decoding, group by group; `None` is the crate's
      `DecodeError`. A length that is not a multiple of four leaves a short
      final group, which is refused. */
  function Decode(s: string): (r: Option<seq<Byte>>)
    ensures r.Some? && |s| > 0 ==> |r.value| > 0
    decreases |s|
  {
    if |s| == 0 then Some([])
    else if |s| < 4 then None
    else if |s| == 4 then DecLast(s)
    else
      match DecFull(s[..4])
      case None => None
      case Some(head) =>
        match Decode(s[4..])
        case None => None
        case Some(rest) => Some(head + rest)
  }

  lemma Group3(x: Byte, y: Byte, z: Byte)
    ensures DecFull(Enc3(x, y, z)) == Some([x, y, z])
    ensures DecLast(Enc3(x, y, z)) == Some([x, y, z])
  {
    var c := Enc3(x, y, z);
    ValueOfCharOf(x / 4);
    ValueOfCharOf(x % 4 * 16 + y / 16);
    ValueOfCharOf(y % 16 * 4 + z / 64);
    ValueOfCharOf(z % 64);
    assert (x % 4 * 16 + y / 16) / 16 == x % 4;
    assert (x % 4 * 16 + y / 16) % 16 == y / 16;
    assert (y % 16 * 4 + z / 64) / 4 == y % 16;
    assert (y % 16 * 4 + z / 64) % 4 == z / 64;
  }

  lemma Group2(x: Byte, y: Byte)
    ensures DecLast(Enc2(x, y)) == Some([x, y])
  {
    var a, b, d := x / 4, x % 4 * 16 + y / 16, y % 16 * 4;
    var c := Enc2(x, y);
    ValueOfCharOf(a);
    ValueOfCharOf(b);
    ValueOfCharOf(d);
    assert c[3] == '=' && c[2] != '=';
    assert b / 16 == x % 4 && b % 16 == y / 16 && d / 4 == y % 16 && d % 4 == 0;
    assert Dec3(a, b, d, 0)[..2] == [x, y];
  }

  lemma Group1(x: Byte)
    ensures DecLast(Enc1(x)) == Some([x])
  {
    var a, b := x / 4, x % 4 * 16;
    ValueOfCharOf(a);
    ValueOfCharOf(b);
    assert b / 16 == x % 4 && b % 16 == 0;
    assert Dec3(a, b, 0, 0)[..1] == [x];
  }

  /** Decoding a group followed by more groups. */
  lemma DecodeCons(g: string, t: string)
    requires |g| == 4 && |t| > 0 && DecFull(g).Some? && Decode(t).Some?
    ensures Decode(g + t) == Some(DecFull(g).value + Decode(t).value)
  {
    var s := g + t;
    assert s[..4] == g && s[4..] == t;
  }

  /** Round trip: decoding an encoding gives the bytes back. */
  lemma {:induction false} DecodeEncode(b: seq<Byte>)
    ensures Decode(Encode(b)) == Some(b)
    decreases |b|
  {
    if 0 < |b| <= 3 {
      DecodeEncodeShort(b);
    } else if |b| > 3 {
      DecodeEncode(b[3..]);
      DecodeEncodeStep(b);
    }
  }

  lemma DecodeEncodeShort(b: seq<Byte>)
    requires 0 < |b| <= 3
    ensures Decode(Encode(b)) == Some(b)
  {
    Split3Short(b);
    if |b| == 1 {
      Group1(b[0]);
    } else if |b| == 2 {
      Group2(b[0], b[1]);
    } else {
      Group3(b[0], b[1], b[2]);
    }
  }

  lemma Split3Short<T>(b: seq<T>)
    requires 0 < |b| <= 3
    ensures |b| == 1 ==> [b[0]] == b
    ensures |b| == 2 ==> [b[0], b[1]] == b
    ensures |b| == 3 ==> [b[0], b[1], b[2]] == b
  {
  }

  lemma DecodeEncodeStep(b: seq<Byte>)
    requires |b| > 3 && Decode(Encode(b[3..])) == Some(b[3..])
    ensures Decode(Encode(b)) == Some(b)
  {
    var g, t := Enc3(b[0], b[1], b[2]), Encode(b[3..]);
    assert Encode(b) == g + t;
    Group3(b[0], b[1], b[2]);
    assert DecFull(g) == Some([b[0], b[1], b[2]]);
    assert |t| > 0;
    DecodeCons(g, t);
    assert Decode(g + t) == Some([b[0], b[1], b[2]] + b[3..]);
    Split3(b);
  }

  lemma Split3<T>(b: seq<T>)
    requires |b| >= 3
    ensures [b[0], b[1], b[2]] + b[3..] == b
  {
  }

  lemma FullCanonical(c: string)
    requires |c| == 4 && DecFull(c).Some?
    ensures var t := DecFull(c).value; Enc3(t[0], t[1], t[2]) == c
  {
    var a, b, d, e := ValueOf(c[0]).value, ValueOf(c[1]).value, ValueOf(c[2]).value, ValueOf(c[3]).value;
    var t := Dec3(a, b, d, e);
    assert t[0] / 4 == a && t[0] % 4 == b / 16;
    assert t[1] / 16 == b % 16 && t[1] % 16 == d / 4;
    assert t[2] / 64 == d % 4 && t[2] % 64 == e;
    assert t[0] % 4 * 16 + t[1] / 16 == b;
    assert t[1] % 16 * 4 + t[2] / 64 == d;
  }

  lemma LastCanonical(c: string)
    requires |c| == 4 && DecLast(c).Some?
    ensures Encode(DecLast(c).value) == c
  {
    var t := DecLast(c).value;
    if c[3] != '=' {
      FullCanonical(c);
      assert Encode(t) == Enc3(t[0], t[1], t[2]) + Encode(t[3..]);
    } else if c[2] != '=' {
      var a, b, d := ValueOf(c[0]).value, ValueOf(c[1]).value, ValueOf(c[2]).value;
      assert t == Dec3(a, b, d, 0)[..2];
      assert t[0] / 4 == a && t[0] % 4 == b / 16;
      assert t[1] / 16 == b % 16 && t[1] % 16 == d / 4;
      assert t[0] % 4 * 16 + t[1] / 16 == b;
      assert t[1] % 16 * 4 == d;
      assert Encode(t) == Enc2(t[0], t[1]);
    } else {
      var a, b := ValueOf(c[0]).value, ValueOf(c[1]).value;
      assert t == Dec3(a, b, 0, 0)[..1];
      assert t[0] / 4 == a && t[0] % 4 * 16 == b;
      assert Encode(t) == Enc1(t[0]);
    }
  }

  /** Canonicity: the only string that decodes to given bytes is their
      encoding. With the round trip, `Decode(s) == Some(b)` exactly when
      `s == Encode(b)`. */
  lemma {:induction false} EncodeDecode(s: string)
    requires Decode(s).Some?
    ensures Encode(Decode(s).value) == s
    decreases |s|
  {
    if |s| == 4 {
      LastCanonical(s);
    } else if |s| > 4 {
      var head, rest := DecFull(s[..4]).value, Decode(s[4..]).value;
      var b := head + rest;
      FullCanonical(s[..4]);
      EncodeDecode(s[4..]);
      assert b[..3] == head && b[3..] == rest;
      assert Encode(b) == Enc3(b[0], b[1], b[2]) + Encode(b[3..]);
      assert s == s[..4] + s[4..];
    }
  }

  /** An encoding uses only the alphabet and '='; in particular it has no
      ',' and no ':'. */
  lemma {:induction false} EncodeNoComma(b: seq<Byte>)
    ensures ',' !in Encode(b) && ':' !in Encode(b)
    decreases |b|
  {
    if |b| > 2 {
      EncodeNoComma(b[3..]);
      assert Encode(b) == Enc3(b[0], b[1], b[2]) + Encode(b[3..]);
    }
  }
}
