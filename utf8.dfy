/**
  UTF-8, the character encoding of every string on the wire (the server's
  `getBytes("UTF-8")` and `new String(bytes, "UTF-8")`).

  A Dafny `char` is a Unicode scalar value, so a `string` here is a sequence of
  code points rather than of UTF-16 units.
 */
module Utf8 {

  type Byte = b: int | 0 <= b < 0x100

  /** U+FFFD, what a decoder produces for a malformed byte. */
  const Replacement: char := '�'

  /** The one to four bytes that encode one code point. */
  function EncodeChar(c: char): (r: seq<Byte>)
    ensures 1 <= |r| <= 4
    ensures |r| == 1 <==> (c as int) < 0x80
  {
    var v := c as int;
    if v < 0x80 then [v]
    else if v < 0x800 then [0xC0 + v / 0x40, 0x80 + v % 0x40]
    else if v < 0x1_0000 then [0xE0 + v / 0x1000, 0x80 + v / 0x40 % 0x40, 0x80 + v % 0x40]
    else [0xF0 + v / 0x4_0000, 0x80 + v / 0x1000 % 0x40, 0x80 + v / 0x40 % 0x40, 0x80 + v % 0x40]
  }

  function Encode(s: string): seq<Byte>
  {
    if s == [] then [] else EncodeChar(s[0]) + Encode(s[1..])
  }

  predicate IsContinuation(b: Byte) { 0x80 <= b < 0xC0 }

  /**
    The code point at the start of `b` and the number of bytes it occupies.
    Only shortest-form encodings of scalar values are accepted; any other lead
    byte decodes to U+FFFD and consumes one byte.
   */
  function DecodeChar(b: seq<Byte>): (r: (char, nat))
    requires |b| > 0
    ensures 1 <= r.1 <= |b|
  {
    var b0 := b[0] as int;
    if b0 < 0x80 then
      (b0 as char, 1)
    else if 0xC2 <= b0 < 0xE0 && |b| >= 2 && IsContinuation(b[1]) then
      (((b0 - 0xC0) * 0x40 + (b[1] as int - 0x80)) as char, 2)
    else if 0xE0 <= b0 < 0xF0 && |b| >= 3 && IsContinuation(b[1]) && IsContinuation(b[2]) then
      var v := (b0 - 0xE0) * 0x1000 + (b[1] as int - 0x80) * 0x40 + (b[2] as int - 0x80);
      if 0x800 <= v && !(0xD800 <= v < 0xE000) then (v as char, 3) else (Replacement, 1)
    else if 0xF0 <= b0 < 0xF5 && |b| >= 4 && IsContinuation(b[1]) && IsContinuation(b[2]) && IsContinuation(b[3]) then
      var v := (b0 - 0xF0) * 0x4_0000 + (b[1] as int - 0x80) * 0x1000 + (b[2] as int - 0x80) * 0x40 + (b[3] as int - 0x80);
      if 0x1_0000 <= v < 0x11_0000 then (v as char, 4) else (Replacement, 1)
    else
      (Replacement, 1)
  }

  function Decode(b: seq<Byte>): string
    decreases |b|
  {
    if b == [] then [] else
      var (c, n) := DecodeChar(b);
      [c] + Decode(b[n..])
  }

  lemma EncodeAppend(s: string, t: string)
    ensures Encode(s + t) == Encode(s) + Encode(t)
  {
    if s == [] {
      assert s + t == t;
    } else {
      assert (s + t)[1..] == s[1..] + t;
      EncodeAppend(s[1..], t);
    }
  }

  /** Decoding reads back exactly the code point that EncodeChar wrote. */
  lemma DecodeEncodeChar(c: char, rest: seq<Byte>)
    ensures DecodeChar(EncodeChar(c) + rest) == (c, |EncodeChar(c)|)
  {
    var v := c as int;
    if v < 0x80 {
    } else if v < 0x800 {
      DecodeTwo(c, rest);
    } else if v < 0x1_0000 {
      DecodeThree(c, rest);
    } else {
      DecodeFour(c, rest);
    }
  }

  lemma DecodeTwo(c: char, rest: seq<Byte>)
    requires 0x80 <= c as int < 0x800
    ensures DecodeChar(EncodeChar(c) + rest) == (c, 2)
  {
    var v := c as int;
    var b0, b1 := 0xC0 + v / 0x40, 0x80 + v % 0x40;
    assert EncodeChar(c) + rest == [b0, b1] + rest;
    assert (b0 - 0xC0) * 0x40 + (b1 - 0x80) == v;
  }

  lemma DecodeThree(c: char, rest: seq<Byte>)
    requires 0x800 <= c as int < 0x1_0000
    ensures DecodeChar(EncodeChar(c) + rest) == (c, 3)
  {
    var v := c as int;
    var q := v / 0x40;
    assert v / 0x1000 == q / 0x40;
    var b0, b1, b2 := 0xE0 + q / 0x40, 0x80 + q % 0x40, 0x80 + v % 0x40;
    assert EncodeChar(c) + rest == [b0, b1, b2] + rest;
    assert (b0 - 0xE0) * 0x1000 + (b1 - 0x80) * 0x40 + (b2 - 0x80) == v;
  }

  lemma DecodeFour(c: char, rest: seq<Byte>)
    requires 0x1_0000 <= c as int
    ensures DecodeChar(EncodeChar(c) + rest) == (c, 4)
  {
    var v := c as int;
    var q := v / 0x40;
    var p := q / 0x40;
    assert v / 0x1000 == p;
    assert v / 0x4_0000 == p / 0x40;
    var b0, b1, b2, b3 := 0xF0 + p / 0x40, 0x80 + p % 0x40, 0x80 + q % 0x40, 0x80 + v % 0x40;
    assert EncodeChar(c) + rest == [b0, b1, b2, b3] + rest;
    assert (b0 - 0xF0) * 0x4_0000 + (b1 - 0x80) * 0x1000 + (b2 - 0x80) * 0x40 + (b3 - 0x80) == v;
  }

  /** What the server decodes from a payload is what the sender encoded. */
  lemma {:induction false} DecodeEncode(s: string)
    ensures Decode(Encode(s)) == s
  {
    if s != [] {
      var e := EncodeChar(s[0]);
      DecodeEncodeChar(s[0], Encode(s[1..]));
      assert (e + Encode(s[1..]))[|e|..] == Encode(s[1..]);
      DecodeEncode(s[1..]);
    }
  }

  /**
    The byte count of a string is at least its character count, and equals it
    exactly when every character is ASCII.
   */
  lemma {:induction false} EncodedLength(s: string)
    ensures |Encode(s)| >= |s|
    ensures |Encode(s)| == |s| <==> forall i :: 0 <= i < |s| ==> (s[i] as int) < 0x80
  {
    if s != [] {
      EncodedLength(s[1..]);
      assert forall i :: 1 <= i < |s| ==> s[i] == s[1..][i - 1];
    }
  }

  /** At most four bytes per character. */
  lemma {:induction false} EncodedLengthAtMost(s: string)
    ensures |Encode(s)| <= 4 * |s|
  {
    if s != [] {
      EncodedLengthAtMost(s[1..]);
    }
  }
}
