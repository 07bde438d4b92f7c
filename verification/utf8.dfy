/** UTF-8 (RFC 3629) between Unicode scalar values and octets: the part of
    `System.Text.Encoding.UTF8` that `Util.Base64Encode` and
    `Util.Base64Decode` rely on. */
module Utf8 {
  import opened Wrappers
  import opened Bytes

  /** U+FFFD, what the decoder substitutes for an ill-formed octet. */
  const Replacement: char := '\U{FFFD}'

  predicate IsContinuation(b: Byte) {
    0x80 <= b < 0xC0
  }

  /** The octets of one scalar value (table in section 3 of RFC 3629). */
  function EncodeScalar(c: char): (r: seq<Byte>)
    ensures 1 <= |r| <= 4
    ensures |r| == 1 <==> c as int < 0x80
    ensures forall i :: 1 <= i < |r| ==> IsContinuation(r[i])
  {
    var n := c as int;
    if n < 0x80 then
      [n]
    else if n < 0x800 then
      [0xC0 + n / 64, 0x80 + n % 64]
    else if n < 0x10000 then
      [0xE0 + n / 4096, 0x80 + (n / 64) % 64, 0x80 + n % 64]
    else
      [0xF0 + n / 262144, 0x80 + (n / 4096) % 64, 0x80 + (n / 64) % 64, 0x80 + n % 64]
  }

  /** The octets of a whole string, scalar by scalar. */
  function Encode(s: string): (r: seq<Byte>)
    ensures |s| <= |r| <= 4 * |s|
  {
    if s == [] then [] else EncodeScalar(s[0]) + Encode(s[1..])
  }

  predicate IsScalar(n: int) {
    0 <= n < 0xD800 || 0xE000 <= n < 0x11_0000
  }

  /** The scalar value encoded by the well-formed sequence at the front of `b`
      and the number of octets it takes, or None when `b` does not start with
      a well-formed sequence: a stray continuation octet, a truncated
      sequence, an overlong form, a surrogate or a value past U+10FFFF. */
  function DecodeFirst(b: seq<Byte>): (r: Option<(char, nat)>)
    ensures r.Some? ==> 1 <= r.value.1 <= |b| && r.value.1 <= 4
  {
    if |b| == 0 then None
    else if b[0] < 0x80 then
      Some((b[0] as char, 1))
    else if 0xC0 <= b[0] < 0xE0 then
      if |b| < 2 || !IsContinuation(b[1]) then None
      else
        var n := (b[0] as int - 0xC0) * 64 + (b[1] as int - 0x80);
        if n < 0x80 then None else Some((n as char, 2))
    else if 0xE0 <= b[0] < 0xF0 then
      if |b| < 3 || !IsContinuation(b[1]) || !IsContinuation(b[2]) then None
      else
        var n := (b[0] as int - 0xE0) * 4096 + (b[1] as int - 0x80) * 64 + (b[2] as int - 0x80);
        if n < 0x800 || !IsScalar(n) then None else Some((n as char, 3))
    else if 0xF0 <= b[0] < 0xF8 then
      if |b| < 4 || !IsContinuation(b[1]) || !IsContinuation(b[2]) || !IsContinuation(b[3]) then None
      else
        var n := (b[0] as int - 0xF0) * 262144 + (b[1] as int - 0x80) * 4096 + (b[2] as int - 0x80) * 64 + (b[3] as int - 0x80);
        if n < 0x1_0000 || !IsScalar(n) then None else Some((n as char, 4))
    else
      None
  }

  /** Octets to text. Total: an octet that does not start a well-formed
      sequence becomes U+FFFD and decoding resumes at the next octet. */
  function Decode(b: seq<Byte>): (r: string)
    ensures |r| <= |b|
    decreases |b|
  {
    if |b| == 0 then ""
    else
      match DecodeFirst(b)
      case Some((c, k)) => [c] + Decode(b[k..])
      case None => [Replacement] + Decode(b[1..])
  }

  /** Splitting a value into 6-bit groups and joining them again is the identity. */
  lemma Digits2(n: nat)
    ensures (n / 64) * 64 + n % 64 == n
  {
  }

  lemma Digits3(n: nat)
    ensures (n / 4096) * 4096 + ((n / 64) % 64) * 64 + n % 64 == n
  {
    var q := n / 64;
    Digits2(n);
    Digits2(q);
    assert q / 64 == n / 4096;
  }

  lemma Digits4(n: nat)
    ensures (n / 262144) * 262144 + ((n / 4096) % 64) * 4096 + ((n / 64) % 64) * 64 + n % 64 == n
  {
    var q := n / 64;
    Digits3(q);
    assert q / 4096 == n / 262144;
    assert q / 64 == n / 4096;
  }

  /** The encoding of one scalar is the well-formed sequence the decoder reads back. */
  lemma DecodeFirstEncodeScalar(c: char, rest: seq<Byte>)
    ensures DecodeFirst(EncodeScalar(c) + rest) == Some((c, |EncodeScalar(c)|))
  {
    var n := c as int;
    var b := EncodeScalar(c) + rest;
    if n < 0x80 {
    } else if n < 0x800 {
      Digits2(n);
      assert b[0] as int - 0xC0 == n / 64 && b[1] as int - 0x80 == n % 64;
    } else if n < 0x10000 {
      Digits3(n);
      assert b[0] as int - 0xE0 == n / 4096;
      assert b[1] as int - 0x80 == (n / 64) % 64 && b[2] as int - 0x80 == n % 64;
    } else {
      Digits4(n);
      assert b[0] as int - 0xF0 == n / 262144 && b[1] as int - 0x80 == (n / 4096) % 64;
      assert b[2] as int - 0x80 == (n / 64) % 64 && b[3] as int - 0x80 == n % 64;
    }
  }

  /** Round trip: decoding the UTF-8 encoding of any string gives the string back. */
  lemma {:induction false} DecodeEncode(s: string)
    ensures Decode(Encode(s)) == s
  {
    if s != [] {
      var head := EncodeScalar(s[0]);
      var tail := Encode(s[1..]);
      DecodeFirstEncodeScalar(s[0], tail);
      assert (head + tail)[|head|..] == tail;
      DecodeEncode(s[1..]);
    }
  }
}
