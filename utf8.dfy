/**
 * The UTF-8 encoding of RFC 3629, section 3, as far as the client needs it:
 * `isValidStringSizeInUTF8` measures a topic by the length of
 * `string.getBytes("UTF-8")`. A Dafny `char` is a Unicode scalar value, so
 * every string here is well-formed UTF-16 on the Java side.
 */
module Utf8 {
  import opened Common

  /** Number of octets RFC 3629 uses for the scalar value `c`. */
  function Width(c: char): (n: nat)
    ensures 1 <= n <= 4
  {
    if c as int < 0x80 then 1
    else if c as int < 0x800 then 2
    else if c as int < 0x10000 then 3
    else 4
  }

  /** The octet is of the form 10xxxxxx. */
  predicate IsContinuation(b: byte) {
    0x80 <= b < 0xC0
  }

  /** The octet may start a sequence of `n` octets (RFC 3629, section 4, UTF8-1 .. UTF8-4). */
  predicate IsLead(b: byte, n: nat) {
    match n
    case 1 => b < 0x80
    case 2 => 0xC2 <= b < 0xE0
    case 3 => 0xE0 <= b < 0xF0
    case 4 => 0xF0 <= b <= 0xF4
    case _ => false
  }

  /** The octets that encode one scalar value. */
  function EncodeScalar(c: char): (bytes: seq<byte>)
    ensures |bytes| == Width(c)
    ensures IsLead(bytes[0], |bytes|)
    ensures forall i | 1 <= i < |bytes| :: IsContinuation(bytes[i])
  {
    var v := c as int;
    if v < 0x80 then
      [v as byte]
    else if v < 0x800 then
      [(0xC0 + v / 0x40) as byte, (0x80 + v % 0x40) as byte]
    else if v < 0x10000 then
      [(0xE0 + v / 0x1000) as byte, (0x80 + v / 0x40 % 0x40) as byte, (0x80 + v % 0x40) as byte]
    else
      [(0xF0 + v / 0x40000) as byte, (0x80 + v / 0x1000 % 0x40) as byte,
       (0x80 + v / 0x40 % 0x40) as byte, (0x80 + v % 0x40) as byte]
  }

  /** The scalar value that a well-formed sequence of one to four octets stands for. */
  function DecodeScalar(bytes: seq<byte>): int
    requires 1 <= |bytes| <= 4
  {
    var n := |bytes|;
    if n == 1 then bytes[0] as int
    else if n == 2 then (bytes[0] as int - 0xC0) * 0x40 + (bytes[1] as int - 0x80)
    else if n == 3 then
      (bytes[0] as int - 0xE0) * 0x1000 + (bytes[1] as int - 0x80) * 0x40 + (bytes[2] as int - 0x80)
    else
      (bytes[0] as int - 0xF0) * 0x40000 + (bytes[1] as int - 0x80) * 0x1000
        + (bytes[2] as int - 0x80) * 0x40 + (bytes[3] as int - 0x80)
  }

  /** Encoding one scalar value loses nothing: decoding gives the value back. */
  lemma DecodeEncodeScalar(c: char)
    ensures DecodeScalar(EncodeScalar(c)) == c as int
  {
    var v := c as int;
    assert v == v / 0x40 * 0x40 + v % 0x40;
    assert v / 0x40 == v / 0x1000 * 0x40 + v / 0x40 % 0x40;
    assert v / 0x1000 == v / 0x40000 * 0x40 + v / 0x1000 % 0x40;
  }

  /** The number of octets of the UTF-8 encoding of `s`: a sum over its scalar values. */
  function Length(s: string): nat {
    if s == [] then 0 else Width(s[0]) + Length(s[1..])
  }

  /** `s.getBytes("UTF-8")`. */
  function Encode(s: string): (bytes: seq<byte>)
    ensures |bytes| == Length(s)
  {
    if s == [] then [] else EncodeScalar(s[0]) + Encode(s[1..])
  }

  lemma {:induction false} LengthAppend(a: string, b: string)
    ensures Length(a + b) == Length(a) + Length(b)
  {
    if a != [] {
      assert (a + b)[0] == a[0];
      assert (a + b)[1..] == a[1..] + b;
      LengthAppend(a[1..], b);
    } else {
      assert a + b == b;
    }
  }

  /** Every scalar value takes between one and four octets. */
  lemma {:induction false} LengthBounds(s: string)
    ensures |s| <= Length(s) <= 4 * |s|
  {
    if s != [] {
      LengthBounds(s[1..]);
    }
  }

  /** A string of ASCII characters takes one octet per character. */
  lemma {:induction false} LengthOfAscii(s: string)
    requires forall i | 0 <= i < |s| :: s[i] as int < 0x80
    ensures Length(s) == |s|
  {
    if s != [] {
      LengthOfAscii(s[1..]);
    }
  }
}
