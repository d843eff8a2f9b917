/**
  Rust's `&str` is a borrowed slice of bytes that is always well-formed UTF-8,
  and `str::chars()` yields the Unicode scalar values it encodes.  This module
  models both: `Str` is the type of well-formed byte sequences, `Chars` decodes
  one, and `Encode` is its inverse.  The well-formedness table is the one of
  section 4 of RFC 3629 (no overlong forms, no surrogates, nothing above
  U+10FFFF).
*/
module Utf8 {
  import opened Wrappers

  /** One octet of an encoded string. */
  newtype byte = x: int | 0 <= x < 0x100

  predicate IsContinuation(b: byte) {
    0x80 <= b < 0xC0
  }

  /** The bytes that encode one scalar value (section 3 of RFC 3629). */
  function EncodeChar(c: char): (bs: seq<byte>)
    ensures 1 <= |bs| <= 4
  {
    var cp := c as int;
    if cp < 0x80 then
      [cp as byte]
    else if cp < 0x800 then
      [(0xC0 + cp / 0x40) as byte, (0x80 + cp % 0x40) as byte]
    else if cp < 0x1_0000 then
      [(0xE0 + cp / 0x1000) as byte, (0x80 + cp / 0x40 % 0x40) as byte, (0x80 + cp % 0x40) as byte]
    else
      [(0xF0 + cp / 0x4_0000) as byte, (0x80 + cp / 0x1000 % 0x40) as byte,
       (0x80 + cp / 0x40 % 0x40) as byte, (0x80 + cp % 0x40) as byte]
  }

  /** Which second bytes may follow the lead byte `b0` of a three- or four-byte form. */
  predicate SecondByteOk(b0: byte, b1: byte) {
    if b0 == 0xE0 then 0xA0 <= b1 < 0xC0        // no overlong three-byte form
    else if b0 == 0xED then 0x80 <= b1 < 0xA0   // no surrogate
    else if b0 == 0xF0 then 0x90 <= b1 < 0xC0   // no overlong four-byte form
    else if b0 == 0xF4 then 0x80 <= b1 < 0x90   // nothing above U+10FFFF
    else IsContinuation(b1)
  }

  /**
    Decodes the scalar value at the head of `bs`, with the number of bytes it
    takes, or None when `bs` does not start with a well-formed encoding.
  */
  function DecodeChar(bs: seq<byte>): (r: Option<(char, nat)>)
    ensures r.Some? ==> 1 <= r.value.1 <= |bs|
  {
    if |bs| == 0 then None
    else
      var b0 := bs[0];
      if b0 < 0x80 then
        Some((b0 as int as char, 1))
      else if 0xC2 <= b0 < 0xE0 then
        if |bs| < 2 || !IsContinuation(bs[1]) then None
        else Some((((b0 as int - 0xC0) * 0x40 + (bs[1] as int - 0x80)) as char, 2))
      else if 0xE0 <= b0 < 0xF0 then
        if |bs| < 3 || !SecondByteOk(b0, bs[1]) || !IsContinuation(bs[2]) then None
        else Some((((b0 as int - 0xE0) * 0x1000 + (bs[1] as int - 0x80) * 0x40
                    + (bs[2] as int - 0x80)) as char, 3))
      else if 0xF0 <= b0 < 0xF5 then
        if |bs| < 4 || !SecondByteOk(b0, bs[1]) || !IsContinuation(bs[2]) || !IsContinuation(bs[3]) then None
        else Some((((b0 as int - 0xF0) * 0x4_0000 + (bs[1] as int - 0x80) * 0x1000
                    + (bs[2] as int - 0x80) * 0x40 + (bs[3] as int - 0x80)) as char, 4))
      else
        None
  }

  /** Decodes a whole byte sequence, or None when it is not well-formed UTF-8. */
  function Decode(bs: seq<byte>): (r: Option<string>)
    ensures r.Some? ==> |r.value| <= |bs| <= 4 * |r.value|
    decreases |bs|
  {
    if bs == [] then Some([])
    else
      match DecodeChar(bs)
      case None => None
      case Some((c, n)) =>
        match Decode(bs[n..])
        case None => None
        case Some(s) => Some([c] + s)
  }

  predicate WellFormed(bs: seq<byte>) {
    Decode(bs).Some?
  }

  /** A Rust `&str`: bytes that are well-formed UTF-8 by construction. */
  type Str = bs: seq<byte> | WellFormed(bs) witness []

  lemma EncodeCharDecodes(c: char, rest: seq<byte>)
    ensures DecodeChar(EncodeChar(c) + rest) == Some((c, |EncodeChar(c)|))
  {
    var cp := c as int;
    if cp < 0x80 {
    } else if cp < 0x800 {
      EncodeTwoDecodes(c, rest);
    } else if cp < 0x1_0000 {
      EncodeThreeDecodes(c, rest);
    } else {
      EncodeFourDecodes(c, rest);
    }
  }

  // One lemma per encoded length keeps each of the proofs below small.

  lemma EncodeTwoDecodes(c: char, rest: seq<byte>)
    requires 0x80 <= c as int < 0x800
    ensures DecodeChar(EncodeChar(c) + rest) == Some((c, 2))
  {
  }

  lemma EncodeThreeDecodes(c: char, rest: seq<byte>)
    requires 0x800 <= c as int < 0x1_0000
    ensures DecodeChar(EncodeChar(c) + rest) == Some((c, 3))
  {
  }

  lemma EncodeFourDecodes(c: char, rest: seq<byte>)
    requires 0x1_0000 <= c as int
    ensures DecodeChar(EncodeChar(c) + rest) == Some((c, 4))
  {
  }

  /** A decoded head is exactly the encoding of the scalar value it decodes to. */
  lemma DecodeCharEncodes(bs: seq<byte>)
    requires DecodeChar(bs).Some?
    ensures bs[..DecodeChar(bs).value.1] == EncodeChar(DecodeChar(bs).value.0)
  {
    var b0 := bs[0] as int;
    if b0 < 0x80 {
    } else if b0 < 0xE0 {
      DecodeTwoEncodes(bs);
    } else if b0 < 0xF0 {
      DecodeThreeEncodes(bs);
    } else {
      DecodeFourEncodes(bs);
    }
  }

  // As above, one lemma per encoded length.

  lemma DecodeTwoEncodes(bs: seq<byte>)
    requires DecodeChar(bs).Some? && 0x80 <= bs[0] < 0xE0
    ensures bs[..2] == EncodeChar(DecodeChar(bs).value.0)
  {
  }

  lemma DecodeThreeEncodes(bs: seq<byte>)
    requires DecodeChar(bs).Some? && 0xE0 <= bs[0] < 0xF0
    ensures bs[..3] == EncodeChar(DecodeChar(bs).value.0)
  {
  }

  lemma DecodeFourEncodes(bs: seq<byte>)
    requires DecodeChar(bs).Some? && 0xF0 <= bs[0]
    ensures bs[..4] == EncodeChar(DecodeChar(bs).value.0)
  {
    var cp := DecodeChar(bs).value.0 as int;
    var top, hi, mid, lo := bs[0] as int - 0xF0, bs[1] as int - 0x80, bs[2] as int - 0x80, bs[3] as int - 0x80;
    assert cp == top * 0x4_0000 + hi * 0x1000 + mid * 0x40 + lo;
    assert 0 <= hi < 0x40 && 0 <= mid < 0x40 && 0 <= lo < 0x40;
    assert cp / 0x40 == top * 0x1000 + hi * 0x40 + mid && cp % 0x40 == lo;
    assert cp / 0x1000 == top * 0x40 + hi;
    assert cp / 0x4_0000 == top;
    assert 0x1_0000 <= cp;
  }

  /** The bytes of a string: the encodings of its scalar values, in order. */
  function Encode(s: string): (bs: seq<byte>)
    ensures Decode(bs) == Some(s)
  {
    if s == [] then []
    else
      var head, tail := EncodeChar(s[0]), Encode(s[1..]);
      EncodeCharDecodes(s[0], tail);
      assert (head + tail)[|head|..] == tail;
      assert [s[0]] + s[1..] == s;
      head + tail
  }

  /** Well-formed bytes are the encoding of what they decode to. */
  lemma {:induction false} DecodeEncodes(bs: seq<byte>)
    requires WellFormed(bs)
    ensures Encode(Decode(bs).value) == bs
    decreases |bs|
  {
    if bs != [] {
      var c, n := DecodeChar(bs).value.0, DecodeChar(bs).value.1;
      var s := Decode(bs[n..]).value;
      assert Decode(bs).value == [c] + s;
      assert ([c] + s)[0] == c && ([c] + s)[1..] == s;
      assert Encode([c] + s) == EncodeChar(c) + Encode(s);
      DecodeCharEncodes(bs);
      DecodeEncodes(bs[n..]);
      assert bs == bs[..n] + bs[n..];
    }
  }

  /** Models `str::chars()`: the scalar values a `&str` holds, in order. */
  function Chars(s: Str): (r: string)
    ensures Encode(r) == s
  {
    DecodeEncodes(s);
    Decode(s).value
  }

  /** Encoding a concatenation concatenates the encodings. */
  lemma {:induction false} EncodeAppend(a: string, b: string)
    ensures Encode(a + b) == Encode(a) + Encode(b)
  {
    if a != [] {
      assert (a + b)[0] == a[0] && (a + b)[1..] == a[1..] + b;
      EncodeAppend(a[1..], b);
      assert Encode(a + b) == EncodeChar(a[0]) + (Encode(a[1..]) + Encode(b));
    } else {
      assert a + b == b;
    }
  }

  /** Decoding the encoding of a string gives the string back. */
  lemma CharsOfEncode(s: string)
    ensures WellFormed(Encode(s)) && Chars(Encode(s)) == s
  {
  }
}
