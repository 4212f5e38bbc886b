/** How the server reads a request's query string: Go's `url.ParseQuery`
    splits at `&`, skips pieces that hold `;` or are empty, splits each piece
    at its first `=`, and unescapes name and value (`+` is a space, `%XY` a
    byte, a malformed `%` drops the piece); `Values.Get` returns the first
    value of a name, or the empty string. */
module QueryString {
  import opened Wrappers
  import opened Utf8
  import FormUrlEncoded

  const Ampersand: byte := 0x26
  const Equals: byte := 0x3D
  const Semicolon: byte := 0x3B
  const QuestionMark: byte := 0x3F
  const Percent: byte := 0x25
  const Plus: byte := 0x2B
  const Space: byte := 0x20

  /** `strings.Cut`: the bytes before the first `sep` and those after it;
      without a `sep`, the whole input and nothing. */
  function Cut(s: Bytes, sep: byte): (r: (Bytes, Bytes))
    ensures sep !in r.0
    ensures sep in s ==> s == r.0 + [sep] + r.1
    ensures sep !in s ==> r == (s, [])
  {
    if s == [] then ([], [])
    else if s[0] == sep then ([], s[1..])
    else
      var r := Cut(s[1..], sep);
      assert s == [s[0]] + s[1..];
      assert sep in s ==> sep in s[1..];
      assert sep in s ==> [s[0]] + (r.0 + [sep] + r.1) == ([s[0]] + r.0) + [sep] + r.1;
      ([s[0]] + r.0, r.1)
  }

  /** Cutting at the separator that follows a separator-free prefix. */
  lemma {:induction false} CutAfter(a: Bytes, sep: byte, b: Bytes)
    requires sep !in a
    ensures Cut(a + [sep] + b, sep) == (a, b)
  {
    var s := a + [sep] + b;
    if a != [] {
      assert s[0] == a[0] && s[1..] == a[1..] + [sep] + b;
      CutAfter(a[1..], sep, b);
      assert [a[0]] + a[1..] == a;
    } else {
      assert s == [sep] + b;
    }
  }

  predicate IsHex(b: byte) {
    (0x30 <= b <= 0x39) || (0x41 <= b <= 0x46) || (0x61 <= b <= 0x66)
  }

  function HexValue(b: byte): (v: nat)
    requires IsHex(b)
    ensures v < 16
  {
    if b <= 0x39 then b as int - 0x30
    else if b <= 0x46 then b as int - 0x41 + 10
    else b as int - 0x61 + 10
  }

  function Cons(b: byte, r: Option<Bytes>): Option<Bytes> {
    match r
    case Some(bs) => Some([b] + bs)
    case None => None
  }

  /** `url.QueryUnescape`: fails on a `%` not followed by two hex digits;
      each escape shrinks the text, and text without `%` always decodes, to
      as many bytes as it has. */
  function Unescape(s: Bytes): (r: Option<Bytes>)
    ensures r.Some? ==> |r.value| <= |s|
    ensures Percent !in s ==> r.Some? && |r.value| == |s|
  {
    if s == [] then Some([])
    else if s[0] == Percent then
      if |s| >= 3 && IsHex(s[1]) && IsHex(s[2]) then
        Cons((16 * HexValue(s[1]) + HexValue(s[2])) as byte, Unescape(s[3..]))
      else
        None
    else
      assert Percent !in s ==> Percent !in s[1..];
      if s[0] == Plus then Cons(Space, Unescape(s[1..]))
      else Cons(s[0], Unescape(s[1..]))
  }

  /** The decoded name/value pairs of a query, in order. */
  type Values = seq<(Bytes, Bytes)>

  /** One `&`-separated piece of a query: skipped when it is empty, holds a
      `;` or fails to unescape, otherwise one pair cut at its first `=`. */
  function ParsePiece(piece: Bytes): (vs: Values)
    ensures |vs| <= 1
    ensures vs != [] ==> piece != [] && Semicolon !in piece
    ensures piece != [] && Semicolon !in piece && Percent !in piece ==> |vs| == 1
  {
    if Semicolon in piece || piece == [] then []
    else
      var (name, value) := Cut(piece, Equals);
      assert Percent !in piece ==> Percent !in name && Percent !in value;
      match (Unescape(name), Unescape(value))
      case (Some(n), Some(v)) => [(n, v)]
      case _ => []
  }

  /** `url.ParseQuery`, keeping the pairs it accepts: at most one per piece. */
  function ParseQuery(q: Bytes): (vs: Values)
    ensures |vs| <= |q|
    decreases |q|
  {
    if q == [] then []
    else
      var (piece, rest) := Cut(q, Ampersand);
      ParsePiece(piece) + ParseQuery(rest)
  }

  /** `v` is what a lookup of `name` in `vs` must give: the value of the
      first pair named `name`, or empty when there is none. */
  predicate FirstValue(vs: Values, name: Bytes, v: Bytes) {
    && ((forall i :: 0 <= i < |vs| ==> vs[i].0 != name) ==> v == [])
    && ((exists i :: 0 <= i < |vs| && vs[i].0 == name) ==>
          exists i :: 0 <= i < |vs| && vs[i] == (name, v) && forall j :: 0 <= j < i ==> vs[j].0 != name)
  }

  /** `Values.Get`: the first value given for `name`, or empty. */
  function Get(vs: Values, name: Bytes): (v: Bytes)
    ensures FirstValue(vs, name, v)
  {
    if vs == [] then []
    else if vs[0].0 == name then vs[0].1
    else
      var v := Get(vs[1..], name);
      assert forall i :: 0 <= i < |vs[1..]| ==> vs[1..][i] == vs[i + 1];
      v
  }

  /** The raw query of a request target: what follows its first `?`, and
      nothing when there is no `?`. */
  function RawQuery(target: Bytes): (q: Bytes)
    ensures QuestionMark !in target ==> q == []
    ensures QuestionMark in target ==>
              var k := |target| - |q| - 1;
              0 <= k && target[k] == QuestionMark && QuestionMark !in target[..k] && target[k + 1..] == q
  {
    var (path, query) := Cut(target, QuestionMark);
    assert QuestionMark in target ==> target[..|path|] == path && target[|path| + 1..] == query;
    query
  }

  // ---------------------------------------------------------------------
  // Reading back what the browser serialized

  /** The bytes the browser sends for a string. */
  function Wire(s: string): Bytes {
    Utf8.Encode(s)
  }

  /** Separators never occur in the bytes of a serialized name or value. */
  lemma WireSafe(s: string)
    requires FormUrlEncoded.AllQuerySafe(s)
    ensures Ampersand !in Wire(s) && Equals !in Wire(s)
    ensures Semicolon !in Wire(s) && QuestionMark !in Wire(s)
    ensures |Wire(s)| == |s|
  {
    EncodeAscii(s);
    var w := Wire(s);
    forall i | 0 <= i < |w|
      ensures w[i] != Ampersand && w[i] != Equals && w[i] != Semicolon && w[i] != QuestionMark
    {
      assert FormUrlEncoded.QuerySafe(s[i]);
    }
  }

  lemma HexDigitRead(d: int)
    requires 0 <= d < 16
    ensures var c := FormUrlEncoded.HexDigit(d) as int as byte; IsHex(c) && HexValue(c) == d
  {
  }

  /** Unescaping the wire form of one encoded byte gives back that byte. */
  lemma UnescapeByte(b: byte, rest: Bytes)
    ensures Unescape(Wire(FormUrlEncoded.EncodeByte(b)) + rest) == Cons(b, Unescape(rest))
  {
    var e := FormUrlEncoded.EncodeByte(b);
    EncodeAscii(e);
    var s := Wire(e) + rest;
    if b == 0x20 {
      assert s[0] == Plus && s[1..] == rest;
    } else if FormUrlEncoded.Unreserved(b) {
      assert s[0] == b && s[1..] == rest;
    } else {
      HexDigitRead(b as int / 16);
      HexDigitRead(b as int % 16);
      assert s[0] == Percent && s[3..] == rest;
      assert s[1] == FormUrlEncoded.HexDigit(b as int / 16) as int as byte;
      assert s[2] == FormUrlEncoded.HexDigit(b as int % 16) as int as byte;
    }
  }

  /** Unescaping undoes the serializer's escaping, byte for byte. */
  lemma {:induction false} UnescapeEncoded(bs: Bytes)
    ensures Unescape(Wire(FormUrlEncoded.EncodeBytes(bs))) == Some(bs)
  {
    if bs != [] {
      var head := FormUrlEncoded.EncodeByte(bs[0]);
      var tail := FormUrlEncoded.EncodeBytes(bs[1..]);
      EncodeConcat(head, tail);
      UnescapeByte(bs[0], Wire(tail));
      UnescapeEncoded(bs[1..]);
      assert [bs[0]] + bs[1..] == bs;
    }
  }

  /** What the server decodes a name or value back to. */
  function Decoded(pairs: seq<(string, string)>): Values {
    seq(|pairs|, i requires 0 <= i < |pairs| => (Utf8.Encode(pairs[i].0), Utf8.Encode(pairs[i].1)))
  }

  lemma ParseSerializedPair(p: (string, string))
    ensures ParsePiece(Wire(FormUrlEncoded.SerializePair(p))) == [(Utf8.Encode(p.0), Utf8.Encode(p.1))]
    ensures ParseQuery(Wire(FormUrlEncoded.SerializePair(p))) == [(Utf8.Encode(p.0), Utf8.Encode(p.1))]
    ensures Ampersand !in Wire(FormUrlEncoded.SerializePair(p))
    ensures Semicolon !in Wire(FormUrlEncoded.SerializePair(p))
    ensures QuestionMark !in Wire(FormUrlEncoded.SerializePair(p))
  {
    var n, v := FormUrlEncoded.Encode(p.0), FormUrlEncoded.Encode(p.1);
    EncodeConcat(n, "=");
    EncodeConcat(n + "=", v);
    WireSafe(n);
    WireSafe(v);
    var w := Wire(n) + [Equals] + Wire(v);
    assert Wire(n + "=" + v) == w;
    assert Semicolon !in w && Ampersand !in w && QuestionMark !in w;
    CutAfter(Wire(n), Equals, Wire(v));
    UnescapeEncoded(Utf8.Encode(p.0));
    UnescapeEncoded(Utf8.Encode(p.1));
    assert ParsePiece(w) == [(Utf8.Encode(p.0), Utf8.Encode(p.1))];
  }

  lemma SerializeCons(pairs: seq<(string, string)>)
    requires |pairs| > 1
    ensures FormUrlEncoded.Serialize(pairs) ==
            FormUrlEncoded.SerializePair(pairs[0]) + "&" + FormUrlEncoded.Serialize(pairs[1..])
  {
    var parts := seq(|pairs|, i requires 0 <= i < |pairs| => FormUrlEncoded.SerializePair(pairs[i]));
    var rest := pairs[1..];
    assert parts[1..] == seq(|rest|, i requires 0 <= i < |rest| => FormUrlEncoded.SerializePair(rest[i]));
  }

  lemma WireJoin(head: string, tail: string)
    ensures Wire(head + "&" + tail) == Wire(head) + [Ampersand] + Wire(tail)
  {
    EncodeConcat(head, "&");
    EncodeConcat(head + "&", tail);
  }

  lemma ParseQueryCons(piece: Bytes, rest: Bytes)
    requires Ampersand !in piece
    ensures ParseQuery(piece + [Ampersand] + rest) == ParsePiece(piece) + ParseQuery(rest)
  {
    CutAfter(piece, Ampersand, rest);
  }

  /** The server reads back exactly the pairs the browser serialized, in order. */
  lemma {:induction false} ParseSerialized(pairs: seq<(string, string)>)
    ensures ParseQuery(Wire(FormUrlEncoded.Serialize(pairs))) == Decoded(pairs)
    ensures QuestionMark !in Wire(FormUrlEncoded.Serialize(pairs))
  {
    if |pairs| == 1 {
      ParseSerializedPair(pairs[0]);
    } else if |pairs| > 1 {
      var head := FormUrlEncoded.SerializePair(pairs[0]);
      var tail := FormUrlEncoded.Serialize(pairs[1..]);
      SerializeCons(pairs);
      WireJoin(head, tail);
      ParseSerializedPair(pairs[0]);
      ParseSerialized(pairs[1..]);
      ParseQueryCons(Wire(head), Wire(tail));
      DecodedCons(pairs);
    }
  }

  lemma DecodedCons(pairs: seq<(string, string)>)
    requires pairs != []
    ensures Decoded(pairs) == [(Utf8.Encode(pairs[0].0), Utf8.Encode(pairs[0].1))] + Decoded(pairs[1..])
  {
  }
}
