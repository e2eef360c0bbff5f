/** UTF-8 as defined in section 3 of RFC 3629: the encoding Python's
    `str.encode()` uses by default, and therefore the byte length that the
    72-byte password ceiling is measured in.

    A Dafny `char` is a Unicode scalar value (surrogates excluded), which is
    exactly the domain RFC 3629 encodes. */
module Utf8 {
  import opened Wrappers

  type Byte = b: int | 0 <= b < 256

  /** Number of octets the table of section 3 assigns to one scalar value. */
  function ScalarLength(c: char): nat
  {
    var v := c as int;
    if v < 0x80 then 1
    else if v < 0x800 then 2
    else if v < 0x1_0000 then 3
    else 4
  }

  /** The byte length of a string: the sum of its scalars' octet counts. */
  function ByteLength(s: string): nat
  {
    if |s| == 0 then 0 else ScalarLength(s[0]) + ByteLength(s[1..])
  }

  predicate IsContinuation(b: Byte) {
    0x80 <= b < 0xC0
  }

  /** The six payload bits of a continuation octet. */
  function Payload(b: Byte): int {
    b as int - 0x80
  }

  /** The octet sequence of one scalar value: a lead octet carrying the
      high-order bits and 6 bits per continuation octet. */
  function EncodeScalar(c: char): (bs: seq<Byte>)
    ensures |bs| == ScalarLength(c)
    ensures bs[0] < 0x80 || 0xC0 <= bs[0] < 0xF8
    ensures forall i :: 1 <= i < |bs| ==> IsContinuation(bs[i])
  {
    var v := c as int;
    var q1, r1 := v / 64, v % 64;
    var q2, r2 := q1 / 64, q1 % 64;
    var q3, r3 := q2 / 64, q2 % 64;
    if v < 0x80 then [v]
    else if v < 0x800 then [0xC0 + q1, 0x80 + r1]
    else if v < 0x1_0000 then [0xE0 + q2, 0x80 + r2, 0x80 + r1]
    else [0xF0 + q3, 0x80 + r3, 0x80 + r2, 0x80 + r1]
  }

  /** `s.encode("utf-8")`. */
  function Encode(s: string): seq<Byte>
  {
    if |s| == 0 then [] else EncodeScalar(s[0]) + Encode(s[1..])
  }

  /** A decoded value becomes a scalar only if it is in the range its octet
      count is reserved for (no overlong forms) and is not a surrogate. */
  function ScalarIn(v: int, least: int, n: nat): Option<(char, nat)>
  {
    if 0 <= v && least <= v <= 0x10_FFFF && !(0xD800 <= v < 0xE000) then Some((v as char, n))
    else None
  }

  /** Decodes the scalar at the head of `bs`, with the number of octets used. */
  function DecodeFirst(bs: seq<Byte>): (r: Option<(char, nat)>)
    requires |bs| > 0
    ensures r.Some? ==> 1 <= r.value.1 <= |bs|
  {
    var b0: int := bs[0];
    if b0 < 0x80 then
      Some((b0 as char, 1))
    else if 0xC0 <= b0 < 0xE0 && |bs| >= 2 && IsContinuation(bs[1]) then
      ScalarIn((b0 - 0xC0) * 64 + Payload(bs[1]), 0x80, 2)
    else if 0xE0 <= b0 < 0xF0 && |bs| >= 3 && IsContinuation(bs[1]) && IsContinuation(bs[2]) then
      ScalarIn(((b0 - 0xE0) * 64 + Payload(bs[1])) * 64 + Payload(bs[2]), 0x800, 3)
    else if 0xF0 <= b0 < 0xF8 && |bs| >= 4 && IsContinuation(bs[1]) && IsContinuation(bs[2])
            && IsContinuation(bs[3]) then
      ScalarIn((((b0 - 0xF0) * 64 + Payload(bs[1])) * 64 + Payload(bs[2])) * 64 + Payload(bs[3]),
               0x1_0000, 4)
    else
      None
  }

  /** `bs.decode("utf-8")`; `None` for an ill-formed sequence. */
  function Decode(bs: seq<Byte>): Option<string>
    decreases |bs|
  {
    if |bs| == 0 then Some([])
    else
      match DecodeFirst(bs)
      case None => None
      case Some((c, n)) =>
        match Decode(bs[n..])
        case None => None
        case Some(rest) => Some([c] + rest)
  }

  /** The encoding's length is the byte length the table predicts. */
  lemma {:induction false} EncodeLength(s: string)
    ensures |Encode(s)| == ByteLength(s)
  {
    if |s| > 0 {
      EncodeLength(s[1..]);
    }
  }

  /** Every scalar takes between one and four octets, so a string's byte
      length is at least its character count and at most four times it. */
  lemma {:induction false} ByteLengthBounds(s: string)
    ensures |s| <= ByteLength(s) <= 4 * |s|
  {
    if |s| > 0 {
      ByteLengthBounds(s[1..]);
    }
  }

  /** Byte length is additive over concatenation. */
  lemma {:induction false} ByteLengthAppend(a: string, b: string)
    ensures ByteLength(a + b) == ByteLength(a) + ByteLength(b)
  {
    if |a| == 0 {
      assert a + b == b;
    } else {
      assert (a + b)[1..] == a[1..] + b;
      ByteLengthAppend(a[1..], b);
    }
  }

  /** Encoding distributes over concatenation. */
  lemma {:induction false} EncodeAppend(a: string, b: string)
    ensures Encode(a + b) == Encode(a) + Encode(b)
  {
    if |a| == 0 {
      assert a + b == b;
    } else {
      assert (a + b)[0] == a[0];
      assert (a + b)[1..] == a[1..] + b;
      EncodeAppend(a[1..], b);
    }
  }

  /** Decoding the head of an encoded scalar recovers it, whatever follows. */
  lemma DecodeFirstEncodeScalar(c: char, rest: seq<Byte>)
    ensures DecodeFirst(EncodeScalar(c) + rest) == Some((c, ScalarLength(c)))
  {
    var v := c as int;
    var q1, r1 := v / 64, v % 64;
    var q2, r2 := q1 / 64, q1 % 64;
    var q3, r3 := q2 / 64, q2 % 64;
    var bs := EncodeScalar(c) + rest;
    assert v == q1 * 64 + r1;
    assert q1 == q2 * 64 + r2;
    assert q2 == q3 * 64 + r3;
    if v < 0x80 {
    } else if v < 0x800 {
      assert bs[0] == 0xC0 + q1 && bs[1] == 0x80 + r1;
    } else if v < 0x1_0000 {
      assert bs[0] == 0xE0 + q2 && bs[1] == 0x80 + r2 && bs[2] == 0x80 + r1;
    } else {
      assert bs[0] == 0xF0 + q3 && bs[1] == 0x80 + r3 && bs[2] == 0x80 + r2 && bs[3] == 0x80 + r1;
    }
  }

  /** Round trip: decoding an encoding gives back the string. */
  lemma {:induction false} DecodeEncode(s: string)
    ensures Decode(Encode(s)) == Some(s)
  {
    if |s| > 0 {
      var e := Encode(s);
      var head := EncodeScalar(s[0]);
      assert e == head + Encode(s[1..]);
      DecodeFirstEncodeScalar(s[0], Encode(s[1..]));
      assert e[|head|..] == Encode(s[1..]);
      DecodeEncode(s[1..]);
      assert [s[0]] + s[1..] == s;
    }
  }

  /** Distinct strings have distinct encodings. */
  lemma EncodeInjective(s: string, t: string)
    requires Encode(s) == Encode(t)
    ensures s == t
  {
    DecodeEncode(s);
    DecodeEncode(t);
  }
}
