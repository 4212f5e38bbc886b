/** Bytes and the UTF-8 encoding of text.  Go strings are byte strings, and
    the browser turns text into bytes with UTF-8 before percent-encoding it. */
module Utf8 {

  newtype byte = x: int | 0 <= x < 256

  type Bytes = seq<byte>

  /** A trailing byte of a multi-byte UTF-8 sequence. */
  predicate IsContinuation(b: byte) {
    0x80 <= b < 0xC0
  }

  /** The code point a multi-byte sequence carries: the low bits of its lead
      byte followed by six bits from each continuation byte. */
  function Payload(bs: Bytes): int
    requires 2 <= |bs| <= 4
  {
    var low := bs[|bs| - 1] as int - 0x80;
    if |bs| == 2 then (bs[0] as int - 0xC0) * 64 + low
    else if |bs| == 3 then ((bs[0] as int - 0xE0) * 64 + (bs[1] as int - 0x80)) * 64 + low
    else (((bs[0] as int - 0xF0) * 64 + (bs[1] as int - 0x80)) * 64 + (bs[2] as int - 0x80)) * 64 + low
  }

  /** The UTF-8 bytes of one Unicode scalar value. */
  function EncodeChar(c: char): (bs: Bytes)
    ensures 1 <= |bs| <= 4
    ensures |bs| == 1 <==> c as int < 0x80
    ensures |bs| == 1 ==> bs[0] as int == c as int
    ensures |bs| > 1 ==> 0xC0 <= bs[0]
    ensures forall i :: 1 <= i < |bs| ==> IsContinuation(bs[i])
  {
    var n := c as int;
    if n < 0x80 then
      [n as byte]
    else if n < 0x800 then
      [(0xC0 + n / 64) as byte, (0x80 + n % 64) as byte]
    else if n < 0x10000 then
      [(0xE0 + n / 4096) as byte, (0x80 + n / 64 % 64) as byte, (0x80 + n % 64) as byte]
    else
      [(0xF0 + n / 262144) as byte, (0x80 + n / 4096 % 64) as byte,
       (0x80 + n / 64 % 64) as byte, (0x80 + n % 64) as byte]
  }

  /** The lead byte gives the length of a multi-byte sequence, and the
      sequence's bits are the code point: the encoding loses nothing. */
  lemma EncodeCharPayload(c: char)
    ensures var bs := EncodeChar(c);
            && (|bs| == 2 ==> bs[0] < 0xE0 && Payload(bs) == c as int)
            && (|bs| == 3 ==> 0xE0 <= bs[0] < 0xF0 && Payload(bs) == c as int)
            && (|bs| == 4 ==> 0xF0 <= bs[0] < 0xF8 && Payload(bs) == c as int)
  {
    var n := c as int;
    if n >= 0x80 {
      assert n == n / 64 * 64 + n % 64;
      if n >= 0x800 {
        assert n / 64 == n / 4096 * 64 + n / 64 % 64;
        if n >= 0x10000 {
          assert n / 4096 == n / 262144 * 64 + n / 4096 % 64;
        }
      }
    }
  }

  /** The UTF-8 bytes of a string. */
  function Encode(s: string): (bs: Bytes)
    ensures |bs| >= |s|
    ensures bs == [] <==> s == []
  {
    if s == [] then [] else EncodeChar(s[0]) + Encode(s[1..])
  }

  /** Encoding distributes over concatenation. */
  lemma {:induction false} EncodeConcat(a: string, b: string)
    ensures Encode(a + b) == Encode(a) + Encode(b)
  {
    if a == [] {
      assert a + b == b;
    } else {
      assert (a + b)[0] == a[0];
      assert (a + b)[1..] == a[1..] + b;
      EncodeConcat(a[1..], b);
    }
  }

  /** An ASCII string is encoded byte for byte. */
  lemma {:induction false} EncodeAscii(s: string)
    requires forall i :: 0 <= i < |s| ==> s[i] as int < 0x80
    ensures |Encode(s)| == |s|
    ensures forall i :: 0 <= i < |s| ==> Encode(s)[i] as int == s[i] as int
  {
    if s != [] {
      EncodeAscii(s[1..]);
      assert Encode(s) == [s[0] as int as byte] + Encode(s[1..]);
    }
  }
}
