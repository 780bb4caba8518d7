/**
 * `encodeURIComponent` as defined in section 19.2.6 of ECMA-262 (URI Handling
 * Functions), with the percent-encoding of section 2.1 of RFC 3986, and
 * `decodeURIComponent` as its inverse.
 *
 * A Dafny `char` is a Unicode scalar value, so every character here has a code
 * point and a UTF-8 encoding of one to four bytes.
 */
module UriComponent {
  import opened Wrappers

  type Byte = b: int | 0 <= b < 256

  /** The characters `encodeURIComponent` copies unchanged: uriAlpha, DecimalDigit and uriMark. */
  predicate IsUnreserved(c: char) {
    ('a' <= c <= 'z') || ('A' <= c <= 'Z') || ('0' <= c <= '9') ||
    c == '-' || c == '_' || c == '.' || c == '!' || c == '~' || c == '*' || c == '\'' || c == '(' || c == ')'
  }

  predicate IsUpperHexDigit(c: char) {
    ('0' <= c <= '9') || ('A' <= c <= 'F')
  }

  predicate IsHexDigit(c: char) {
    IsUpperHexDigit(c) || ('a' <= c <= 'f')
  }

  /** The characters an encoded component can consist of. */
  predicate InEncodedAlphabet(c: char) {
    IsUnreserved(c) || c == '%' || IsUpperHexDigit(c)
  }

  function HexValue(c: char): (d: nat)
    requires IsHexDigit(c)
    ensures d < 16
  {
    if '0' <= c <= '9' then c as int - '0' as int
    else if 'A' <= c <= 'F' then c as int - 'A' as int + 10
    else c as int - 'a' as int + 10
  }

  /** The upper-case hexadecimal digit of `d`; `HexValue` undoes it. */
  function HexDigit(d: nat): (c: char)
    requires d < 16
    ensures IsUpperHexDigit(c) && HexValue(c) == d
  {
    if d < 10 then ('0' as int + d) as char else ('A' as int + d - 10) as char
  }

  /** `%XX` for one octet, upper-case hexadecimal. */
  function PercentByte(b: Byte): (t: string)
    ensures |t| == 3 && t[0] == '%'
    ensures IsUpperHexDigit(t[1]) && IsUpperHexDigit(t[2])
    ensures HexValue(t[1]) * 16 + HexValue(t[2]) == b
  {
    ['%', HexDigit(b / 16), HexDigit(b % 16)]
  }

  /** The escapes of a sequence of octets, one after the other. */
  function Percents(bs: seq<Byte>): (t: string)
    ensures |t| == 3 * |bs|
    ensures forall i :: 0 <= i < |t| ==> t[i] == '%' || IsUpperHexDigit(t[i])
  {
    if bs == [] then [] else PercentByte(bs[0]) + Percents(bs[1..])
  }

  predicate IsContinuation(b: Byte) {
    0x80 <= b < 0xC0
  }

  /** The number of octets a UTF-8 sequence starting with `b` has, or 0 if `b` cannot start one. */
  function Utf8SeqLength(b: Byte): (n: nat)
    ensures n <= 4
  {
    if b < 0x80 then 1
    else if 0xC2 <= b < 0xE0 then 2
    else if 0xE0 <= b < 0xF0 then 3
    else if 0xF0 <= b <= 0xF4 then 4
    else 0
  }

  /** The UTF-8 encoding of one code point (RFC 3629), as `encodeURIComponent` takes it. */
  function Utf8(c: char): (bs: seq<Byte>)
    ensures 1 <= |bs| <= 4
    ensures Utf8SeqLength(bs[0]) == |bs|
    ensures forall i :: 1 <= i < |bs| ==> IsContinuation(bs[i])
    ensures |bs| == 1 <==> (c as int) < 0x80
  {
    var cp := c as int;
    if cp < 0x80 then [cp]
    else if cp < 0x800 then [0xC0 + cp / 64, 0x80 + cp % 64]
    else if cp < 0x10000 then [0xE0 + cp / 64 / 64, 0x80 + cp / 64 % 64, 0x80 + cp % 64]
    else [0xF0 + cp / 64 / 64 / 64, 0x80 + cp / 64 / 64 % 64, 0x80 + cp / 64 % 64, 0x80 + cp % 64]
  }

  /** The code point a complete, well-formed UTF-8 sequence stands for. */
  function Utf8DecodeChar(bs: seq<Byte>): Option<char> {
    if |bs| == 1 then
      if bs[0] < 0x80 then Some(bs[0] as char) else None
    else if |bs| == 2 then
      var b0, b1 := bs[0] as int, bs[1] as int;
      if 0xC2 <= b0 < 0xE0 && IsContinuation(b1)
      then Some(((b0 - 0xC0) * 64 + (b1 - 0x80)) as char)
      else None
    else if |bs| == 3 then
      var b0, b1, b2 := bs[0] as int, bs[1] as int, bs[2] as int;
      if 0xE0 <= b0 < 0xF0 && IsContinuation(b1) && IsContinuation(b2) then
        var cp := ((b0 - 0xE0) * 64 + (b1 - 0x80)) * 64 + (b2 - 0x80);
        if 0x800 <= cp && !(0xD800 <= cp < 0xE000) then Some(cp as char) else None
      else None
    else if |bs| == 4 then
      var b0, b1, b2, b3 := bs[0] as int, bs[1] as int, bs[2] as int, bs[3] as int;
      if 0xF0 <= b0 <= 0xF4 && IsContinuation(b1) && IsContinuation(b2) && IsContinuation(b3) then
        var cp := (((b0 - 0xF0) * 64 + (b1 - 0x80)) * 64 + (b2 - 0x80)) * 64 + (b3 - 0x80);
        if 0x10000 <= cp <= 0x10FFFF then Some(cp as char) else None
      else None
    else None
  }

  /** One character as `encodeURIComponent` writes it. */
  function EncodeChar(c: char): (t: string)
    ensures IsUnreserved(c) <==> t == [c]
    ensures !IsUnreserved(c) ==> |t| == 3 * |Utf8(c)| && t[0] == '%'
  {
    if IsUnreserved(c) then [c] else Percents(Utf8(c))
  }

  /** `encodeURIComponent(s)`. */
  function EncodeURIComponent(s: string): (r: string)
    ensures |r| >= |s|
  {
    if s == [] then [] else EncodeChar(s[0]) + EncodeURIComponent(s[1..])
  }

  /** Every `%` in `t` starts an escape: it is followed by two upper-case hexadecimal digits. */
  predicate EscapesWellFormed(t: string) {
    forall i :: 0 <= i < |t| && t[i] == '%' ==> i + 2 < |t| && IsUpperHexDigit(t[i + 1]) && IsUpperHexDigit(t[i + 2])
  }

  /** Well-formed escapes survive concatenation. */
  lemma EscapesConcat(u: string, v: string)
    requires EscapesWellFormed(u) && EscapesWellFormed(v)
    ensures EscapesWellFormed(u + v)
  {
    var t := u + v;
    forall i | 0 <= i < |t| && t[i] == '%'
      ensures i + 2 < |t| && IsUpperHexDigit(t[i + 1]) && IsUpperHexDigit(t[i + 2])
    {
      if i < |u| {
        assert u[i] == t[i];
        assert t[i + 1] == u[i + 1] && t[i + 2] == u[i + 2];
      } else {
        assert v[i - |u|] == t[i];
        assert t[i + 1] == v[i + 1 - |u|] && t[i + 2] == v[i + 2 - |u|];
      }
    }
  }

  /** The escapes written for a byte sequence are well formed. */
  lemma {:induction false} PercentsEscapes(bs: seq<Byte>)
    ensures EscapesWellFormed(Percents(bs))
  {
    if bs != [] {
      PercentsEscapes(bs[1..]);
      var head := PercentByte(bs[0]);
      assert EscapesWellFormed(head);
      EscapesConcat(head, Percents(bs[1..]));
    }
  }

  /** An escaped character is exactly the upper-case `%XX` escapes of its UTF-8 bytes: reading them back gives those bytes. */
  lemma EncodeCharEscapes(c: char)
    requires !IsUnreserved(c)
    ensures EscapesWellFormed(EncodeChar(c))
    ensures EscapedBytes(EncodeChar(c), |Utf8(c)|) == Some(Utf8(c))
  {
    PercentsEscapes(Utf8(c));
    EscapedBytesOfPercents(Utf8(c), []);
    assert Percents(Utf8(c)) + [] == Percents(Utf8(c));
  }

  /** Every `%` in an encoded component is followed by two upper-case hexadecimal digits, so no escape is written in lower case. */
  lemma {:induction false} EscapesUpperCase(s: string)
    ensures EscapesWellFormed(EncodeURIComponent(s))
  {
    if s != [] {
      EscapesUpperCase(s[1..]);
      if !IsUnreserved(s[0]) {
        EncodeCharEscapes(s[0]);
      }
      EscapesConcat(EncodeChar(s[0]), EncodeURIComponent(s[1..]));
    }
  }

  /** Every character of an encoded component is unreserved, `%` or an upper-case hexadecimal digit. */
  lemma {:induction false} EncodedAlphabet(s: string)
    ensures forall i :: 0 <= i < |EncodeURIComponent(s)| ==> InEncodedAlphabet(EncodeURIComponent(s)[i])
  {
    if s != [] {
      EncodedAlphabet(s[1..]);
      var head, tail := EncodeChar(s[0]), EncodeURIComponent(s[1..]);
      forall i | 0 <= i < |head + tail| ensures InEncodedAlphabet((head + tail)[i]) {
        if i >= |head| {
          assert (head + tail)[i] == tail[i - |head|];
        }
      }
    }
  }

  function Prepend(c: char, r: Option<string>): Option<string> {
    match r
    case None => None
    case Some(t) => Some([c] + t)
  }

  /** The octets of `n` escapes `%XX` at the start of `s`, if it starts with `n` of them. */
  function EscapedBytes(s: string, n: nat): Option<seq<Byte>>
    decreases n
  {
    if n == 0 then Some([])
    else if |s| < 3 || s[0] != '%' || !IsHexDigit(s[1]) || !IsHexDigit(s[2]) then None
    else
      match EscapedBytes(s[3..], n - 1)
      case None => None
      case Some(rest) => Some([HexValue(s[1]) * 16 + HexValue(s[2])] + rest)
  }

  /**
   * `decodeURIComponent(s)`: None where the JavaScript function throws URIError
   * (a stray `%`, a bad hex digit, an ill-formed or overlong UTF-8 sequence).
   */
  function DecodeURIComponent(s: string): Option<string>
    decreases |s|
  {
    if s == [] then Some([])
    else if s[0] != '%' then Prepend(s[0], DecodeURIComponent(s[1..]))
    else if |s| < 3 || !IsHexDigit(s[1]) || !IsHexDigit(s[2]) then None
    else
      var n := Utf8SeqLength(HexValue(s[1]) * 16 + HexValue(s[2]));
      if n == 0 || |s| < 3 * n then None
      else
        match EscapedBytes(s, n)
        case None => None
        case Some(bs) =>
          match Utf8DecodeChar(bs)
          case None => None
          case Some(c) => Prepend(c, DecodeURIComponent(s[3 * n..]))
  }

  lemma {:induction false} EscapedBytesOfPercents(bs: seq<Byte>, rest: string)
    ensures EscapedBytes(Percents(bs) + rest, |bs|) == Some(bs)
  {
    if bs != [] {
      var s := Percents(bs) + rest;
      var head := PercentByte(bs[0]);
      assert s == head + (Percents(bs[1..]) + rest);
      assert s[3..] == Percents(bs[1..]) + rest;
      EscapedBytesOfPercents(bs[1..], rest);
      assert [bs[0]] + bs[1..] == bs;
    }
  }

  /** UTF-8 decoding undoes UTF-8 encoding. */
  lemma Utf8RoundTrip(c: char)
    ensures Utf8DecodeChar(Utf8(c)) == Some(c)
  {
  }

  lemma DecodeEncodeChar(c: char, rest: string)
    ensures DecodeURIComponent(EncodeChar(c) + rest) == Prepend(c, DecodeURIComponent(rest))
  {
    var s := EncodeChar(c) + rest;
    if IsUnreserved(c) {
      assert s[0] == c && s[1..] == rest;
    } else {
      var bs := Utf8(c);
      var n := |bs|;
      assert s == PercentByte(bs[0]) + (Percents(bs[1..]) + rest);
      assert HexValue(s[1]) * 16 + HexValue(s[2]) == bs[0];
      EscapedBytesOfPercents(bs, rest);
      Utf8RoundTrip(c);
      assert s[3 * n..] == rest;
    }
  }

  /** `decodeURIComponent(encodeURIComponent(s)) === s`. */
  lemma {:induction false} DecodeEncode(s: string)
    ensures DecodeURIComponent(EncodeURIComponent(s)) == Some(s)
  {
    if s != [] {
      var tail := EncodeURIComponent(s[1..]);
      assert EncodeURIComponent(s) == EncodeChar(s[0]) + tail;
      DecodeEncodeChar(s[0], tail);
      DecodeEncode(s[1..]);
      assert [s[0]] + s[1..] == s;
    }
  }

  /** Two names with the same encoding are the same name. */
  lemma EncodeInjective(s: string, t: string)
    requires EncodeURIComponent(s) == EncodeURIComponent(t)
    ensures s == t
  {
    DecodeEncode(s);
    DecodeEncode(t);
  }

  /** A name made only of unreserved characters is its own encoding. */
  lemma {:induction false} EncodeUnreservedUnchanged(s: string)
    requires forall i :: 0 <= i < |s| ==> IsUnreserved(s[i])
    ensures EncodeURIComponent(s) == s
  {
    if s != [] {
      EncodeUnreservedUnchanged(s[1..]);
      assert [s[0]] + s[1..] == s;
    }
  }

  /** A `/` never survives encoding, so the result is always a single path segment. */
  lemma SlashAlwaysEscaped(s: string)
    ensures '/' !in EncodeURIComponent(s)
  {
    EncodedAlphabet(s);
  }

  /** `encodeURIComponent` of a one-character string is that character's encoding. */
  lemma EncodeSingle(c: char)
    ensures EncodeURIComponent([c]) == EncodeChar(c)
  {
    assert [c][1..] == [];
  }

  /** Encoding works character by character, so it distributes over concatenation. */
  lemma {:induction false} EncodeAppend(s: string, t: string)
    ensures EncodeURIComponent(s + t) == EncodeURIComponent(s) + EncodeURIComponent(t)
  {
    if s != [] {
      assert (s + t)[0] == s[0] && (s + t)[1..] == s[1..] + t;
      EncodeAppend(s[1..], t);
    } else {
      assert s + t == t;
    }
  }

  /** A space becomes `%20`; the rest of the name is unreserved and kept. */
  lemma EncodeSpaceExample()
    ensures EncodeURIComponent("a b.png") == "a%20b.png"
  {
  }
}
