/** The browser's `application/x-www-form-urlencoded` serializer, which
    `URLSearchParams.toString()` applies: each name and value is turned into
    UTF-8 and every byte is written as itself, as `+` (a space) or as `%XY`;
    pairs are written `name=value` and joined with `&`. */
module FormUrlEncoded {
  import opened Utf8
  import opened Strings

  /** Bytes written as themselves: ASCII letters and digits and `*-._`. */
  predicate Unreserved(b: byte) {
    || b == 0x2A || b == 0x2D || b == 0x2E || b == 0x5F
    || (0x30 <= b <= 0x39) || (0x41 <= b <= 0x5A) || (0x61 <= b <= 0x7A)
  }

  /** Characters that can appear in a serialized query: ASCII, and none of
      the separators of a URL's query. */
  predicate QuerySafe(c: char) {
    c as int < 0x80 && c != '&' && c != '=' && c != ';' && c != '?' && c != '#'
  }

  predicate AllQuerySafe(s: string) {
    forall i :: 0 <= i < |s| ==> QuerySafe(s[i])
  }

  /** An upper-case hexadecimal digit. */
  function HexDigit(d: int): (c: char)
    requires 0 <= d < 16
    ensures ('0' <= c <= '9' || 'A' <= c <= 'F') && QuerySafe(c)
  {
    if d < 10 then ('0' as int + d) as char else ('A' as int + d - 10) as char
  }

  function EncodeByte(b: byte): (s: string)
    ensures 1 <= |s| <= 3 && AllQuerySafe(s)
  {
    if b == 0x20 then "+"
    else if Unreserved(b) then [b as int as char]
    else ['%', HexDigit(b as int / 16), HexDigit(b as int % 16)]
  }

  function EncodeBytes(bs: Bytes): (s: string)
    ensures AllQuerySafe(s)
    ensures |s| >= |bs|
  {
    if bs == [] then "" else EncodeByte(bs[0]) + EncodeBytes(bs[1..])
  }

  /** The serialized form of one name or value. */
  function Encode(s: string): (r: string)
    ensures AllQuerySafe(r)
    ensures r == [] <==> s == []
  {
    EncodeBytes(Utf8.Encode(s))
  }

  function SerializePair(p: (string, string)): string {
    Encode(p.0) + "=" + Encode(p.1)
  }

  /** `URLSearchParams.toString()`: the pairs, in insertion order.  Only an
      empty list serializes to the empty string, since every pair has its `=`. */
  function Serialize(pairs: seq<(string, string)>): (s: string)
    ensures s == [] <==> pairs == []
  {
    var parts := seq(|pairs|, i requires 0 <= i < |pairs| => SerializePair(pairs[i]));
    JoinEmpty(parts, "&");
    assert parts != [] ==> |parts[0]| > 0;
    Join(parts, "&")
  }
}
