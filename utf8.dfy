/** UTF-8 as Rust's standard library encodes (`String::into_bytes`) and
    validates (`String::from_utf8`): well-formed sequences as in RFC 3629,
    with the library's `Utf8Error` (`valid_up_to`, `error_len`) on failure. */
module Utf8 {
  import opened Wrappers
  import opened Bytes
  import Text

  /** The bytes of one scalar value: one to four bytes by magnitude. */
  function EncodeChar(c: char): (r: seq<Byte>)
    ensures 1 <= |r| <= 4
  {
    var v := c as int;
    if v < 0x80 then [v]
    else if v < 0x800 then [0xC0 + v / 64, 0x80 + v % 64]
    else if v < 0x10000 then [0xE0 + v / 4096, 0x80 + v / 64 % 64, 0x80 + v % 64]
    else [0xF0 + v / 262144, 0x80 + v / 4096 % 64, 0x80 + v / 64 % 64, 0x80 + v % 64]
  }

  /** `String::into_bytes`. */
  function Encode(s: string): (r: seq<Byte>)
    ensures |r| >= |s|
  {
    if s == [] then [] else EncodeChar(s[0]) + Encode(s[1..])
  }

  /** The library's error: the length of the valid prefix, and the length of
      the bad sequence, or `None` when the input ends in the middle of one. */
  datatype Utf8Error = Utf8Error(validUpTo: nat, errorLen: Option<nat>)

  /** The outcome of reading one sequence at the start of the input. */
  datatype Step = Char(c: char, len: nat) | Bad(errorLen: Option<nat>)

  predicate IsCont(x: Byte) { 0x80 <= x < 0xC0 }

  /** How many bytes a sequence with this first byte spans; zero when no
      sequence starts with it. */
  function Width(b0: Byte): nat {
    if b0 < 0x80 then 1
    else if 0xC2 <= b0 <= 0xDF then 2
    else if 0xE0 <= b0 <= 0xEF then 3
    else if 0xF0 <= b0 <= 0xF4 then 4
    else 0
  }

  /** The bytes allowed second after a multi-byte first byte; the narrowed
      ranges after E0, ED, F0 and F4 exclude overlong forms, surrogates and
      values above U+10FFFF. */
  predicate SecondOk(b0: Byte, b1: Byte) {
    if b0 == 0xE0 then 0xA0 <= b1 <= 0xBF
    else if b0 == 0xED then 0x80 <= b1 <= 0x9F
    else if b0 == 0xF0 then 0x90 <= b1 <= 0xBF
    else if b0 == 0xF4 then 0x80 <= b1 <= 0x8F
    else IsCont(b1)
  }

  function Char2(b0: Byte, b1: Byte): char
    requires 0xC2 <= b0 <= 0xDF && IsCont(b1)
  {
    ((b0 - 0xC0) * 64 + (b1 - 0x80)) as char
  }

  function Char3(b0: Byte, b1: Byte, b2: Byte): char
    requires 0xE0 <= b0 <= 0xEF && SecondOk(b0, b1) && IsCont(b2)
  {
    var v := (b0 - 0xE0) * 4096 + (b1 - 0x80) * 64 + (b2 - 0x80);
    assert 0x800 <= v < 0xD800 || 0xE000 <= v < 0x10000;
    v as char
  }

  function Char4(b0: Byte, b1: Byte, b2: Byte, b3: Byte): char
    requires 0xF0 <= b0 <= 0xF4 && SecondOk(b0, b1) && IsCont(b2) && IsCont(b3)
  {
    var v := (b0 - 0xF0) * 262144 + (b1 - 0x80) * 4096 + (b2 - 0x80) * 64 + (b3 - 0x80);
    assert 0x10000 <= v < 0x110000;
    v as char
  }

  /** Reads one sequence in the order the library checks its bytes: the
      first byte, then the second against its narrowed range, then each
      continuation byte; running out of input is reported without a
      length. */
  function ReadOne(b: seq<Byte>): (r: Step)
    requires |b| > 0
    ensures r.Char? ==> 1 <= r.len <= |b| && r.len == Width(b[0])
    ensures r.Bad? ==> r.errorLen.None? || 1 <= r.errorLen.value <= 3
  {
    var w := Width(b[0]);
    if w == 1 then Char(b[0] as char, 1)
    else if w == 0 then Bad(Some(1))
    else if |b| < 2 then Bad(None)
    else if !SecondOk(b[0], b[1]) then Bad(Some(1))
    else if w == 2 then Char(Char2(b[0], b[1]), 2)
    else if |b| < 3 then Bad(None)
    else if !IsCont(b[2]) then Bad(Some(2))
    else if w == 3 then Char(Char3(b[0], b[1], b[2]), 3)
    else if |b| < 4 then Bad(None)
    else if !IsCont(b[3]) then Bad(Some(3))
    else Char(Char4(b[0], b[1], b[2], b[3]), 4)
  }

  /** `String::from_utf8`: the text, or the position and length of the
      first ill-formed sequence. */
  function Decode(b: seq<Byte>): (r: Result<string, Utf8Error>)
    ensures r.Ok? ==> |r.value| <= |b|
    ensures r.Err? ==> r.error.validUpTo < |b|
    decreases |b|
  {
    if b == [] then Ok([])
    else
      match ReadOne(b)
      case Bad(n) => Err(Utf8Error(0, n))
      case Char(c, n) =>
        match Decode(b[n..])
        case Ok(rest) => Ok([c] + rest)
        case Err(e) => Err(Utf8Error(e.validUpTo + n, e.errorLen))
  }

  /** The `Display` text of the library's error. */
  function ErrorText(e: Utf8Error): (r: string)
    ensures |r| > 0
  {
    match e.errorLen
    case Some(n) =>
      "invalid utf-8 sequence of " + Text.NatToString(n) + " bytes from index "
      + Text.NatToString(e.validUpTo)
    case None => "incomplete utf-8 byte sequence from index " + Text.NatToString(e.validUpTo)
  }

  /** Base-64 digits of a scalar value, as the encoder splits it. */
  lemma Digits(v: nat)
    ensures v == 64 * (v / 64) + v % 64 && 0 <= v % 64 < 64
    ensures v / 4096 == v / 64 / 64 && v / 262144 == v / 64 / 64 / 64
  {
  }

  /** Every encoded scalar value reads back as itself, whatever follows. */
  lemma ReadEncodeChar(c: char, rest: seq<Byte>)
    ensures ReadOne(EncodeChar(c) + rest) == Char(c, |EncodeChar(c)|)
  {
    var v := c as int;
    if v < 0x80 {
    } else if v < 0x800 {
      ReadEncode2(c, rest);
    } else if v < 0x10000 {
      ReadEncode3(c, rest);
    } else {
      ReadEncode4(c, rest);
    }
  }

  lemma ReadEncode2(c: char, rest: seq<Byte>)
    requires 0x80 <= c as int < 0x800
    ensures ReadOne(EncodeChar(c) + rest) == Char(c, 2)
  {
    var v := c as int;
    Digits(v);
    var b := EncodeChar(c) + rest;
    assert b[0] as int == 0xC0 + v / 64 && b[1] as int == 0x80 + v % 64;
  }

  lemma ReadEncode3(c: char, rest: seq<Byte>)
    requires 0x800 <= c as int < 0x10000
    ensures ReadOne(EncodeChar(c) + rest) == Char(c, 3)
  {
    var v := c as int;
    Digits(v);
    Digits(v / 64);
    var q1, r0 := v / 64, v % 64;
    var q2, r1 := q1 / 64, q1 % 64;
    assert v == 4096 * q2 + 64 * r1 + r0;
    var b := EncodeChar(c) + rest;
    assert b[0] as int == 0xE0 + q2 && b[1] as int == 0x80 + r1 && b[2] as int == 0x80 + r0;
    assert Width(b[0]) == 3;
    assert SecondOk(b[0], b[1]);
  }

  lemma ReadEncode4(c: char, rest: seq<Byte>)
    requires 0x10000 <= c as int
    ensures ReadOne(EncodeChar(c) + rest) == Char(c, 4)
  {
    var v := c as int;
    Digits(v);
    Digits(v / 64);
    Digits(v / 64 / 64);
    var q1, r0 := v / 64, v % 64;
    var q2, r1 := q1 / 64, q1 % 64;
    var q3, r2 := q2 / 64, q2 % 64;
    assert v == 262144 * q3 + 4096 * r2 + 64 * r1 + r0;
    var b := EncodeChar(c) + rest;
    assert b[0] as int == 0xF0 + q3 && b[1] as int == 0x80 + r2;
    assert b[2] as int == 0x80 + r1 && b[3] as int == 0x80 + r0;
    assert Width(b[0]) == 4;
    assert SecondOk(b[0], b[1]);
  }

  /** What a successful read consumed is the encoding of what it read. */
  lemma ReadOneCanonical(b: seq<Byte>)
    requires |b| > 0 && ReadOne(b).Char?
    ensures EncodeChar(ReadOne(b).c) == b[..ReadOne(b).len]
  {
    var r := ReadOne(b);
    if r.len == 1 {
      assert b[..1] == [b[0]];
    } else if r.len == 2 {
      Canonical2(b[0], b[1]);
      assert b[..2] == [b[0], b[1]];
    } else if r.len == 3 {
      Canonical3(b[0], b[1], b[2]);
      assert b[..3] == [b[0], b[1], b[2]];
    } else {
      Canonical4(b[0], b[1], b[2], b[3]);
      assert b[..4] == [b[0], b[1], b[2], b[3]];
    }
  }

  lemma Canonical2(b0: Byte, b1: Byte)
    requires 0xC2 <= b0 <= 0xDF && IsCont(b1)
    ensures EncodeChar(Char2(b0, b1)) == [b0, b1]
  {
    var v := Char2(b0, b1) as int;
    assert v == (b0 - 0xC0) * 64 + (b1 - 0x80);
    Digits(v);
  }

  lemma Canonical3(b0: Byte, b1: Byte, b2: Byte)
    requires 0xE0 <= b0 <= 0xEF && SecondOk(b0, b1) && IsCont(b2)
    ensures EncodeChar(Char3(b0, b1, b2)) == [b0, b1, b2]
  {
    var v := Char3(b0, b1, b2) as int;
    var x0, x1, x2 := b0 - 0xE0, b1 - 0x80, b2 - 0x80;
    assert v == x0 * 4096 + x1 * 64 + x2;
    Digits(v);
    Digits(v / 64);
    assert v / 64 == x0 * 64 + x1;
    assert v / 64 / 64 == x0;
  }

  lemma Canonical4(b0: Byte, b1: Byte, b2: Byte, b3: Byte)
    requires 0xF0 <= b0 <= 0xF4 && SecondOk(b0, b1) && IsCont(b2) && IsCont(b3)
    ensures EncodeChar(Char4(b0, b1, b2, b3)) == [b0, b1, b2, b3]
  {
    var v := Char4(b0, b1, b2, b3) as int;
    var x0, x1, x2, x3 := b0 - 0xF0, b1 - 0x80, b2 - 0x80, b3 - 0x80;
    assert v == x0 * 262144 + x1 * 4096 + x2 * 64 + x3;
    Digits(v);
    Digits(v / 64);
    Digits(v / 64 / 64);
    assert v / 64 == x0 * 4096 + x1 * 64 + x2;
    assert v / 64 / 64 == x0 * 64 + x1;
    assert v / 64 / 64 / 64 == x0;
  }

  /** Round trip: the bytes of a string decode to that string
      (`String::from_utf8(s.into_bytes()) == Ok(s)`). */
  lemma {:induction false} DecodeEncode(s: string)
    ensures Decode(Encode(s)) == Ok(s)
  {
    if s != [] {
      var e, t := EncodeChar(s[0]), Encode(s[1..]);
      ReadEncodeChar(s[0], t);
      assert (e + t)[|e|..] == t;
      DecodeEncode(s[1..]);
      assert [s[0]] + s[1..] == s;
    }
  }

  /** Canonicity: bytes that decode are exactly the encoding of their text. */
  lemma {:induction false} EncodeDecode(b: seq<Byte>)
    requires Decode(b).Ok?
    ensures Encode(Decode(b).value) == b
    decreases |b|
  {
    if b != [] {
      var r := ReadOne(b);
      ReadOneCanonical(b);
      EncodeDecode(b[r.len..]);
      assert Decode(b).value == [r.c] + Decode(b[r.len..]).value;
      assert b[..r.len] + b[r.len..] == b;
    }
  }

  /** Failure locates the error: the bytes before `valid_up_to` decode. */
  lemma {:induction false} ValidPrefix(b: seq<Byte>)
    requires Decode(b).Err?
    ensures Decode(b[..Decode(b).error.validUpTo]).Ok?
    decreases |b|
  {
    var r := ReadOne(b);
    if r.Char? {
      var n := r.len;
      ValidPrefix(b[n..]);
      var k := Decode(b[n..]).error.validUpTo;
      var p := b[..n + k];
      assert p[..n] == b[..n] && p[n..] == b[n..][..k];
      ReadOnePrefix(b, n + k);
    }
  }

  /** Reading one sequence looks only at the bytes it consumes. */
  lemma ReadOnePrefix(b: seq<Byte>, m: nat)
    requires |b| > 0 && ReadOne(b).Char? && ReadOne(b).len <= m <= |b|
    ensures ReadOne(b[..m]) == ReadOne(b)
  {
  }
}
