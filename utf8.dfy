/**
 * Strict UTF-8, as Python's "UTF-8" codec decodes it (RFC 3629): no overlong
 * forms, no encoded surrogates, nothing above U+10FFFF.  The client decodes
 * the first frame of every message with it to obtain the topic name.
 */
module Utf8 {
  import opened Wrappers

  newtype Byte = x: int | 0 <= x < 256

  predicate IsContinuation(b: Byte) {
    0x80 <= b <= 0xBF
  }

  /** The scalar value that starts `b` and the number of bytes it occupies, or
      None when `b` does not start with a well-formed sequence. */
  function DecodeFirst(b: seq<Byte>): (r: Option<(char, nat)>)
    requires |b| > 0
    ensures r.Some? ==> 1 <= r.value.1 <= 4 && r.value.1 <= |b|
  {
    var b0 := b[0] as int;
    if b0 < 0x80 then
      Some((b0 as char, 1))
    else if 0xC2 <= b0 <= 0xDF then
      if |b| >= 2 && IsContinuation(b[1]) then
        Some((((b0 - 0xC0) * 64 + (b[1] as int - 0x80)) as char, 2))
      else None
    else if 0xE0 <= b0 <= 0xEF then
      var lo := if b0 == 0xE0 then 0xA0 else 0x80;
      var hi := if b0 == 0xED then 0x9F else 0xBF;
      if |b| >= 3 && lo <= b[1] as int <= hi && IsContinuation(b[2]) then
        Some((((b0 - 0xE0) * 4096 + (b[1] as int - 0x80) * 64 + (b[2] as int - 0x80)) as char, 3))
      else None
    else if 0xF0 <= b0 <= 0xF4 then
      var lo := if b0 == 0xF0 then 0x90 else 0x80;
      var hi := if b0 == 0xF4 then 0x8F else 0xBF;
      if |b| >= 4 && lo <= b[1] as int <= hi && IsContinuation(b[2]) && IsContinuation(b[3]) then
        Some((((b0 - 0xF0) * 262144 + (b[1] as int - 0x80) * 4096
               + (b[2] as int - 0x80) * 64 + (b[3] as int - 0x80)) as char, 4))
      else None
    else
      None
  }

  /** Decodes a whole byte string; None is Python's UnicodeDecodeError. */
  function Decode(b: seq<Byte>): Option<string>
    decreases |b|
  {
    if b == [] then Some([])
    else
      match DecodeFirst(b)
      case None => None
      case Some((c, n)) =>
        match Decode(b[n..])
        case None => None
        case Some(s) => Some([c] + s)
  }

  /** The UTF-8 encoding of one scalar value. */
  function EncodeChar(c: char): (r: seq<Byte>)
    ensures 1 <= |r| <= 4
  {
    var n := c as int;
    if n < 0x80 then
      [n as Byte]
    else if n < 0x800 then
      [(0xC0 + n / 64) as Byte, (0x80 + n % 64) as Byte]
    else if n < 0x10000 then
      [(0xE0 + n / 4096) as Byte, (0x80 + (n / 64) % 64) as Byte, (0x80 + n % 64) as Byte]
    else
      [(0xF0 + n / 262144) as Byte, (0x80 + (n / 4096) % 64) as Byte,
       (0x80 + (n / 64) % 64) as Byte, (0x80 + n % 64) as Byte]
  }

  function Encode(s: string): seq<Byte>
  {
    if s == [] then [] else EncodeChar(s[0]) + Encode(s[1..])
  }

  /** Decoding the encoding of one character gives that character back,
      whatever bytes follow it. */
  lemma DecodeFirstEncodeChar(c: char, rest: seq<Byte>)
    ensures DecodeFirst(EncodeChar(c) + rest) == Some((c, |EncodeChar(c)|))
  {
    var n := c as int;
    if n < 0x80 {
    } else if n < 0x800 {
      DecodeTwo(c, rest);
    } else if n < 0x10000 {
      DecodeThree(c, rest);
    } else {
      DecodeFour(c, rest);
    }
  }

  lemma DecodeTwo(c: char, rest: seq<Byte>)
    requires 0x80 <= c as int < 0x800
    ensures DecodeFirst(EncodeChar(c) + rest) == Some((c, 2))
  {
    var n := c as int;
    var b := EncodeChar(c) + rest;
    assert b[0] as int == 0xC0 + n / 64 && b[1] as int == 0x80 + n % 64;
    assert (n / 64) * 64 + n % 64 == n;
  }

  lemma DecodeThree(c: char, rest: seq<Byte>)
    requires 0x800 <= c as int < 0x10000
    ensures DecodeFirst(EncodeChar(c) + rest) == Some((c, 3))
  {
    var n := c as int;
    var b := EncodeChar(c) + rest;
    var q := n / 64;
    assert b[0] as int == 0xE0 + q / 64 && b[1] as int == 0x80 + q % 64 && b[2] as int == 0x80 + n % 64 by {
      assert n / 4096 == q / 64;
    }
    assert (q / 64) * 4096 + (q % 64) * 64 + n % 64 == n by {
      assert q * 64 + n % 64 == n;
      assert (q / 64) * 64 + q % 64 == q;
    }
  }

  lemma DecodeFour(c: char, rest: seq<Byte>)
    requires 0x10000 <= c as int
    ensures DecodeFirst(EncodeChar(c) + rest) == Some((c, 4))
  {
    var n := c as int;
    var b := EncodeChar(c) + rest;
    var q := n / 64;
    var q2 := q / 64;
    assert n / 4096 == q2 && n / 262144 == q2 / 64;
    assert b[0] as int == 0xF0 + q2 / 64 && b[1] as int == 0x80 + q2 % 64;
    assert b[2] as int == 0x80 + q % 64 && b[3] as int == 0x80 + n % 64;
    assert (q2 / 64) * 262144 + (q2 % 64) * 4096 + (q % 64) * 64 + n % 64 == n by {
      assert q * 64 + n % 64 == n;
      assert q2 * 64 + q % 64 == q;
      assert (q2 / 64) * 64 + q2 % 64 == q2;
    }
  }

  /** Decoding inverts encoding. */
  lemma {:induction false} DecodeEncode(s: string)
    ensures Decode(Encode(s)) == Some(s)
  {
    if s != [] {
      var e := EncodeChar(s[0]);
      DecodeFirstEncodeChar(s[0], Encode(s[1..]));
      assert (e + Encode(s[1..]))[|e|..] == Encode(s[1..]);
      DecodeEncode(s[1..]);
      assert [s[0]] + s[1..] == s;
    }
  }

  /** Decoding the encoding of a character followed by anything decodes the
      character, then the rest. */
  lemma DecodeAfterChar(c: char, tail: seq<Byte>)
    ensures Decode(EncodeChar(c) + tail) == match Decode(tail) case None => None case Some(s) => Some([c] + s)
  {
    DecodeFirstEncodeChar(c, tail);
    assert (EncodeChar(c) + tail)[|EncodeChar(c)|..] == tail;
  }

  /** When the bytes start with the encoding of `p` and decode to `s`, then
      `s` starts with `p`: a prefix filter on bytes is a prefix filter on text. */
  lemma {:induction false} DecodeEncodedPrefix(p: string, rest: seq<Byte>)
    requires Decode(Encode(p) + rest).Some?
    ensures Decode(rest).Some?
    ensures Decode(Encode(p) + rest).value == p + Decode(rest).value
  {
    if p != [] {
      assert Encode(p) + rest == EncodeChar(p[0]) + (Encode(p[1..]) + rest);
      DecodeAfterChar(p[0], Encode(p[1..]) + rest);
      DecodeEncodedPrefix(p[1..], rest);
      ConsAppend(p, Decode(rest).value);
    } else {
      assert Encode(p) + rest == rest;
    }
  }

  lemma ConsAppend(p: string, t: string)
    requires p != []
    ensures [p[0]] + (p[1..] + t) == p + t
  {
    assert p == [p[0]] + p[1..];
  }

  /** A lone continuation byte never starts a character. */
  lemma ContinuationFirstRejected(b: seq<Byte>)
    requires |b| > 0 && IsContinuation(b[0])
    ensures Decode(b).None?
  {
  }
}
