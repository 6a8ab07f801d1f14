/** `decodeURIComponent`, following the Decode operation of section 19.2.6.5
    of ECMA-262 with an empty reserved set, and `encodeURIComponent`, its
    inverse. Strings are sequences of Unicode scalar values. */
module UriComponent {
  import opened Wrappers

  predicate IsHexDigit(c: char) {
    '0' <= c <= '9' || 'a' <= c <= 'f' || 'A' <= c <= 'F'
  }

  function HexValue(c: char): (d: nat)
    requires IsHexDigit(c)
    ensures d < 16
  {
    if '0' <= c <= '9' then c as int - '0' as int
    else if 'a' <= c <= 'f' then c as int - 'a' as int + 10
    else c as int - 'A' as int + 10
  }

  /** The code point `v` can stand as one character. */
  predicate IsScalarValue(v: int) {
    0 <= v < 0xD800 || 0xE000 <= v < 0x11_0000
  }

  /** A well-formed escape `%XY` starts at index `i` of `s`. */
  predicate EscapeAt(s: string, i: nat) {
    i + 2 < |s| && s[i] == '%' && IsHexDigit(s[i + 1]) && IsHexDigit(s[i + 2])
  }

  /** The octet written by the escape at index `k`, if one is there. */
  function EscapedOctet(s: string, k: nat): (r: Option<nat>)
    ensures r.Some? <==> EscapeAt(s, k)
    ensures r.Some? ==> r.value < 256
  {
    if EscapeAt(s, k) then Some(16 * HexValue(s[k + 1]) + HexValue(s[k + 2])) else None
  }

  /** The `count` octets written by consecutive escapes from index `k` on.
      Every `%` in the span they cover starts a well-formed escape. */
  function EscapedOctets(s: string, k: nat, count: nat): (r: Option<seq<nat>>)
    requires k <= |s|
    ensures r.Some? ==> |r.value| == count && k + 3 * count <= |s|
    ensures r.Some? ==> forall j :: 0 <= j < count ==> r.value[j] < 256
    ensures r.Some? ==> forall i :: k <= i < k + 3 * count && s[i] == '%' ==> EscapeAt(s, i)
    decreases count
  {
    if count == 0 then Some([])
    else
      match EscapedOctet(s, k)
      case None => None
      case Some(b) =>
        match EscapedOctets(s, k + 3, count - 1)
        case None => None
        case Some(bs) => Some([b] + bs)
  }

  /** The number of leading 1 bits of `b` as the length of a UTF-8 sequence:
      1 for an ASCII octet, 2 to 4 for a lead octet, 0 when `b` cannot start
      a sequence (one leading 1 bit, or more than four). */
  function SequenceLength(b: nat): (n: nat)
    ensures n <= 4
  {
    if b < 0x80 then 1
    else if b < 0xC0 then 0
    else if b < 0xE0 then 2
    else if b < 0xF0 then 3
    else if b < 0xF8 then 4
    else 0
  }

  predicate IsContinuation(b: nat) {
    0x80 <= b < 0xC0
  }

  /** The code point a multi-octet UTF-8 sequence encodes, or None when the
      sequence is not a valid encoding: a bad continuation octet, an
      overlong form, a surrogate, or a value beyond U+10FFFF. */
  function Utf8CodePoint(octets: seq<nat>): (r: Option<nat>)
    requires 2 <= |octets| <= 4
    requires SequenceLength(octets[0]) == |octets|
    ensures r.Some? ==> IsScalarValue(r.value) && r.value >= 0x80
  {
    if !(forall i | 1 <= i < |octets| :: IsContinuation(octets[i])) then None
    else if |octets| == 2 then
      var v := (octets[0] - 0xC0) * 64 + (octets[1] - 0x80);
      if v < 0x80 then None else Some(v)
    else if |octets| == 3 then
      var v := (octets[0] - 0xE0) * 4096 + (octets[1] - 0x80) * 64 + (octets[2] - 0x80);
      if v < 0x800 || 0xD800 <= v < 0xE000 then None else Some(v)
    else
      var v := (octets[0] - 0xF0) * 262144 + (octets[1] - 0x80) * 4096
        + (octets[2] - 0x80) * 64 + (octets[3] - 0x80);
      if v < 0x1_0000 || v >= 0x11_0000 then None else Some(v)
  }

  /** Decodes the character at the head of `s`: the character and the number
      of input characters it spans, or None when the head is a malformed
      escape. Every `%` inside the span starts a well-formed escape. */
  function DecodeHead(s: string): (r: Option<(char, nat)>)
    requires |s| > 0
    ensures r.Some? ==> 1 <= r.value.1 <= |s|
    ensures r.Some? ==> forall i :: 0 <= i < r.value.1 && s[i] == '%' ==> EscapeAt(s, i)
    ensures s[0] != '%' ==> r == Some((s[0], 1))
  {
    if s[0] != '%' then Some((s[0], 1))
    else
      match EscapedOctet(s, 0)
      case None => None
      case Some(b) =>
        var n := SequenceLength(b);
        if n == 0 then None
        else if n == 1 then Some((b as char, 3))
        else
          match EscapedOctets(s, 3, n - 1)
          case None => None
          case Some(tail) =>
            match Utf8CodePoint([b] + tail)
            case None => None
            case Some(v) => Some((v as char, 3 * n))
  }

  /** `decodeURIComponent(s)`, None where it throws URIError. A string with
      no `%` decodes to itself, and decoding never lengthens a string. */
  function DecodeUriComponent(s: string): (r: Option<string>)
    ensures '%' !in s ==> r == Some(s)
    ensures r.Some? ==> |r.value| <= |s|
    decreases |s|
  {
    if |s| == 0 then Some("")
    else
      match DecodeHead(s)
      case None => None
      case Some((c, len)) =>
        assert '%' !in s ==> '%' !in s[len..] by {
          if '%' !in s {
            forall i | 0 <= i < |s[len..]| ensures s[len..][i] != '%' {
              assert s[len..][i] == s[len + i];
            }
          }
        }
        match DecodeUriComponent(s[len..])
        case None => None
        case Some(t) =>
          assert '%' !in s ==> [c] + t == s by {
            if '%' !in s {
              assert s == [s[0]] + s[1..];
            }
          }
          Some([c] + t)
  }

  /** One `%` that does not start a well-formed escape makes the whole
      decoding fail, wherever it stands. */
  lemma {:induction false} MalformedEscapeFails(s: string, i: nat)
    requires i < |s| && s[i] == '%' && !EscapeAt(s, i)
    ensures DecodeUriComponent(s) == None
    decreases |s|
  {
    match DecodeHead(s)
    case None =>
    case Some((c, len)) =>
      assert i >= len;
      var t := s[len..];
      assert t[i - len] == s[i];
      assert EscapeAt(t, i - len) == EscapeAt(s, i) by {
        if i - len + 2 < |t| {
          assert t[i - len + 1] == s[i + 1] && t[i - len + 2] == s[i + 2];
        }
      }
      MalformedEscapeFails(t, i - len);
  }

  // ---- encodeURIComponent ----

  /** The characters `encodeURIComponent` leaves as they are. */
  predicate IsUnreserved(c: char) {
    'A' <= c <= 'Z' || 'a' <= c <= 'z' || '0' <= c <= '9' || c in "-_.!~*'()"
  }

  /** Upper-case hexadecimal digit for `d`. */
  function HexChar(d: nat): (c: char)
    requires d < 16
    ensures IsHexDigit(c) && HexValue(c) == d
  {
    if d < 10 then ('0' as int + d) as char else ('A' as int + d - 10) as char
  }

  /** The UTF-8 encoding of scalar value `v`. */
  function Utf8Encode(v: nat): (octets: seq<nat>)
    requires IsScalarValue(v)
    ensures 1 <= |octets| <= 4 && SequenceLength(octets[0]) == |octets|
    ensures forall j :: 0 <= j < |octets| ==> octets[j] < 256
  {
    if v < 0x80 then [v]
    else if v < 0x800 then [0xC0 + v / 64, 0x80 + v % 64]
    else if v < 0x1_0000 then [0xE0 + v / 64 / 64, 0x80 + v / 64 % 64, 0x80 + v % 64]
    else [0xF0 + v / 64 / 64 / 64, 0x80 + v / 64 / 64 % 64, 0x80 + v / 64 % 64, 0x80 + v % 64]
  }

  /** `%XY` escapes for each octet, in order. */
  function Escape(octets: seq<nat>): (s: string)
    requires forall j :: 0 <= j < |octets| ==> octets[j] < 256
    ensures |s| == 3 * |octets|
    ensures forall i :: 0 <= i < |s| ==> s[i] == '%' || IsHexDigit(s[i])
    decreases |octets|
  {
    if |octets| == 0 then ""
    else ['%', HexChar(octets[0] / 16), HexChar(octets[0] % 16)] + Escape(octets[1..])
  }

  /** How `encodeURIComponent` writes one character. */
  function EncodeChar(c: char): (s: string)
    ensures 1 <= |s|
    ensures forall i :: 0 <= i < |s| ==> IsUnreserved(s[i]) || s[i] == '%' || IsHexDigit(s[i])
  {
    if IsUnreserved(c) then [c] else Escape(Utf8Encode(c as int))
  }

  /** `encodeURIComponent(s)`. The result has only unreserved characters,
      `%` and hexadecimal digits; in particular no `&` and no `=`. */
  function EncodeUriComponent(s: string): (r: string)
    ensures forall i :: 0 <= i < |r| ==> IsUnreserved(r[i]) || r[i] == '%' || IsHexDigit(r[i])
    ensures '&' !in r && '=' !in r
    decreases |s|
  {
    if |s| == 0 then "" else EncodeChar(s[0]) + EncodeUriComponent(s[1..])
  }

  // ---- the round trip ----

  lemma {:induction false} EscapedOctetsOfEscape(prefix: string, octets: seq<nat>, rest: string)
    requires forall j :: 0 <= j < |octets| ==> octets[j] < 256
    ensures EscapedOctets(prefix + Escape(octets) + rest, |prefix|, |octets|) == Some(octets)
    decreases |octets|
  {
    if |octets| > 0 {
      var b := octets[0];
      var s := prefix + Escape(octets) + rest;
      var head := ['%', HexChar(b / 16), HexChar(b % 16)];
      assert Escape(octets) == head + Escape(octets[1..]);
      assert s == (prefix + head) + Escape(octets[1..]) + rest;
      assert s[|prefix|] == '%' && s[|prefix| + 1] == HexChar(b / 16) && s[|prefix| + 2] == HexChar(b % 16);
      assert EscapedOctet(s, |prefix|) == Some(b);
      EscapedOctetsOfEscape(prefix + head, octets[1..], rest);
      assert [b] + octets[1..] == octets;
    }
  }

  lemma Utf8RoundTrip2(v: nat)
    requires 0x80 <= v < 0x800
    ensures Utf8CodePoint(Utf8Encode(v)) == Some(v)
  {
    var hi, lo := v / 64, v % 64;
    assert v == hi * 64 + lo;
    assert Utf8Encode(v) == [0xC0 + hi, 0x80 + lo];
  }

  lemma Utf8RoundTrip3(v: nat)
    requires 0x800 <= v < 0x1_0000 && IsScalarValue(v)
    ensures Utf8CodePoint(Utf8Encode(v)) == Some(v)
  {
    var q, lo := v / 64, v % 64;
    assert v == q * 64 + lo;
    var hi, mid := q / 64, q % 64;
    assert q == hi * 64 + mid;
    assert Utf8Encode(v) == [0xE0 + hi, 0x80 + mid, 0x80 + lo];
    assert hi * 4096 + mid * 64 + lo == v;
  }

  lemma Utf8RoundTrip4(v: nat)
    requires 0x1_0000 <= v < 0x11_0000
    ensures Utf8CodePoint(Utf8Encode(v)) == Some(v)
  {
    var q1, lo := v / 64, v % 64;
    assert v == q1 * 64 + lo;
    var q2, mid := q1 / 64, q1 % 64;
    assert q1 == q2 * 64 + mid;
    var top, hi := q2 / 64, q2 % 64;
    assert q2 == top * 64 + hi;
    assert Utf8Encode(v) == [0xF0 + top, 0x80 + hi, 0x80 + mid, 0x80 + lo];
    assert top * 262144 + hi * 4096 + mid * 64 + lo == v;
  }

  /** Decoding the UTF-8 encoding of a non-ASCII scalar value gives it back. */
  lemma Utf8RoundTrip(v: nat)
    requires IsScalarValue(v) && v >= 0x80
    ensures Utf8CodePoint(Utf8Encode(v)) == Some(v)
  {
    if v < 0x800 {
      Utf8RoundTrip2(v);
    } else if v < 0x1_0000 {
      Utf8RoundTrip3(v);
    } else {
      Utf8RoundTrip4(v);
    }
  }

  /** Decoding the encoding of one character yields that character and
      consumes exactly its encoding. */
  lemma DecodeHeadOfEncodedChar(c: char, rest: string)
    ensures DecodeHead(EncodeChar(c) + rest) == Some((c, |EncodeChar(c)|))
  {
    if !IsUnreserved(c) {
      var octets := Utf8Encode(c as int);
      if |octets| == 1 {
        DecodeHeadOfEscapedOctet(c, rest);
      } else {
        DecodeHeadOfEscapedSequence(c, rest);
      }
    }
  }

  lemma DecodeHeadOfEscapedOctet(c: char, rest: string)
    requires |Utf8Encode(c as int)| == 1
    ensures DecodeHead(Escape(Utf8Encode(c as int)) + rest) == Some((c, 3))
  {
    var octets := Utf8Encode(c as int);
    var s := Escape(octets) + rest;
    EscapedOctetsOfEscape([], octets, rest);
    assert s == [] + Escape(octets) + rest;
    assert EscapedOctet(s, 0) == Some(octets[0]);
  }

  lemma DecodeHeadOfEscapedSequence(c: char, rest: string)
    requires |Utf8Encode(c as int)| > 1
    ensures DecodeHead(Escape(Utf8Encode(c as int)) + rest) == Some((c, 3 * |Utf8Encode(c as int)|))
  {
    var octets := Utf8Encode(c as int);
    var s := Escape(octets) + rest;
    EscapedOctetsOfEscape([], octets, rest);
    assert s == [] + Escape(octets) + rest;
    assert EscapedOctet(s, 0) == Some(octets[0]);
    assert EscapedOctets(s, 3, |octets| - 1) == Some(octets[1..]);
    assert [octets[0]] + octets[1..] == octets;
    Utf8RoundTrip(c as int);
  }

  /** One step of the decoder: the decoded head followed by the decoded rest. */
  lemma DecodeStep(s: string, c: char, len: nat, t: string)
    requires |s| > 0 && DecodeHead(s) == Some((c, len))
    requires DecodeUriComponent(s[len..]) == Some(t)
    ensures DecodeUriComponent(s) == Some([c] + t)
  {
  }

  /** `decodeURIComponent(encodeURIComponent(s)) == s` for every string. */
  lemma {:induction false} DecodeEncode(s: string)
    ensures DecodeUriComponent(EncodeUriComponent(s)) == Some(s)
    decreases |s|
  {
    if |s| > 0 {
      var e := EncodeChar(s[0]);
      var rest := EncodeUriComponent(s[1..]);
      var whole := e + rest;
      assert EncodeUriComponent(s) == whole;
      DecodeHeadOfEncodedChar(s[0], rest);
      assert whole[|e|..] == rest;
      DecodeEncode(s[1..]);
      DecodeStep(whole, s[0], |e|, s[1..]);
      assert [s[0]] + s[1..] == s;
    }
  }
}
