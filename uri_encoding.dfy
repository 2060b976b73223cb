/** ECMAScript's `encodeURIComponent` and, as its partner, `decodeURIComponent`
    (the Encode and Decode operations of ECMA-262, section 19.2.6, with an empty
    reserved set). A character outside the unescaped set is written as the
    UTF-8 octets of its code point, each as `%XX` with upper-case hex digits
    (section 2.1 of RFC 3986). Dafny's `char` is a Unicode scalar value, so the
    lone surrogates on which `encodeURIComponent` throws cannot occur. */
module UriEncoding {
  import opened Wrappers

  type Byte = b: int | 0 <= b < 256

  /** The characters `encodeURIComponent` leaves as they are:
      `A-Z a-z 0-9 - _ . ! ~ * ' ( )`. */
  predicate IsUnreserved(c: char) {
    ('A' <= c <= 'Z') || ('a' <= c <= 'z') || ('0' <= c <= '9') ||
    c == '-' || c == '_' || c == '.' || c == '!' || c == '~' ||
    c == '*' || c == '\'' || c == '(' || c == ')'
  }

  /** The upper-case hex digit of `d`. */
  function HexDigit(d: int): (c: char)
    requires 0 <= d < 16
    ensures IsUnreserved(c) && IsUpperHex(c)
  {
    if d < 10 then ('0' as int + d) as char else ('A' as int + d - 10) as char
  }

  /** The value of a hex digit of either case. */
  function HexValue(c: char): (r: Option<int>)
    ensures r.Some? ==> 0 <= r.value < 16
  {
    if '0' <= c <= '9' then Some(c as int - '0' as int)
    else if 'A' <= c <= 'F' then Some(c as int - 'A' as int + 10)
    else if 'a' <= c <= 'f' then Some(c as int - 'a' as int + 10)
    else None
  }

  /** The UTF-8 octets of a code point (RFC 3629, section 3). */
  function Utf8(c: char): (bs: seq<Byte>)
    ensures 1 <= |bs| <= 4
  {
    var cp := c as int;
    if cp < 0x80 then [cp]
    else if cp < 0x800 then [0xC0 + cp / 64, 0x80 + cp % 64]
    else if cp < 0x10000 then [0xE0 + cp / 4096, 0x80 + cp / 64 % 64, 0x80 + cp % 64]
    else [0xF0 + cp / 0x40000, 0x80 + cp / 4096 % 64, 0x80 + cp / 64 % 64, 0x80 + cp % 64]
  }

  /** One octet as a `%XX` triplet. */
  function PercentByte(b: Byte): string {
    ['%', HexDigit(b / 16), HexDigit(b % 16)]
  }

  function PercentBytes(bs: seq<Byte>): (t: string)
    ensures |t| == 3 * |bs|
    ensures forall i :: 0 <= i < |t| ==> IsUnreserved(t[i]) || t[i] == '%'
  {
    if bs == [] then [] else PercentByte(bs[0]) + PercentBytes(bs[1..])
  }

  function EncodeChar(c: char): (t: string)
    ensures forall i :: 0 <= i < |t| ==> IsUnreserved(t[i]) || t[i] == '%'
  {
    if IsUnreserved(c) then [c] else PercentBytes(Utf8(c))
  }

  /** `encodeURIComponent(s)`. Its result holds nothing but unreserved
      characters and `%`, so in particular no brace and no `$`. */
  function EncodeUriComponent(s: string): (t: string)
    ensures forall i :: 0 <= i < |t| ==> IsUnreserved(t[i]) || t[i] == '%'
  {
    if s == [] then [] else EncodeChar(s[0]) + EncodeUriComponent(s[1..])
  }

  /** The shape of a percent-encoded string: unreserved characters and
      `%XX` triplets with upper-case hex digits, nothing else. */
  predicate IsPercentEncoded(t: string)
    decreases |t|
  {
    t == [] ||
    (IsUnreserved(t[0]) && IsPercentEncoded(t[1..])) ||
    (|t| >= 3 && t[0] == '%' && IsUpperHex(t[1]) && IsUpperHex(t[2]) && IsPercentEncoded(t[3..]))
  }

  predicate IsUpperHex(c: char) {
    ('0' <= c <= '9') || ('A' <= c <= 'F')
  }

  // ---------------------------------------------------------------------------
  // Decoding

  /** The octet written as a `%XX` triplet at the start of `t`. */
  function ReadByte(t: string): Option<Byte> {
    if |t| >= 3 && t[0] == '%' then
      match (HexValue(t[1]), HexValue(t[2]))
      case (Some(h), Some(l)) => Some(h * 16 + l)
      case _ => None
    else None
  }

  /** The `n` octets written as `n` consecutive triplets at the start of `t`. */
  function ReadBytes(t: string, n: nat): (r: Option<seq<Byte>>)
    decreases n
    ensures r.Some? ==> |r.value| == n && 3 * n <= |t|
  {
    if n == 0 then Some([])
    else match ReadByte(t)
      case None => None
      case Some(b) =>
        match ReadBytes(t[3..], n - 1)
        case None => None
        case Some(bs) => Some([b] + bs)
  }

  /** How many octets a UTF-8 sequence with leading octet `b` has; 0 when `b`
      cannot lead a sequence. */
  function Utf8Length(b: Byte): nat {
    if b < 0x80 then 1
    else if 0xC0 <= b < 0xE0 then 2
    else if 0xE0 <= b < 0xF0 then 3
    else if 0xF0 <= b < 0xF8 then 4
    else 0
  }

  predicate IsContinuation(b: Byte) {
    0x80 <= b < 0xC0
  }

  /** The code point a complete UTF-8 sequence stands for; `None` for an
      invalid, overlong, surrogate or out-of-range sequence. */
  function Utf8Scalar(bs: seq<Byte>): Option<char> {
    if |bs| == 1 then
      if bs[0] < 0x80 then Some(bs[0] as char) else None
    else if |bs| == 2 then
      if Utf8Length(bs[0]) != 2 || !IsContinuation(bs[1]) then None
      else
        var cp := (bs[0] as int - 0xC0) * 64 + (bs[1] as int - 0x80);
        if cp < 0x80 then None else Some(cp as char)
    else if |bs| == 3 then
      if Utf8Length(bs[0]) != 3 || !IsContinuation(bs[1]) || !IsContinuation(bs[2]) then None
      else
        var cp := (bs[0] as int - 0xE0) * 4096 + (bs[1] as int - 0x80) * 64 + (bs[2] as int - 0x80);
        if cp < 0x800 || (0xD800 <= cp < 0xE000) then None else Some(cp as char)
    else if |bs| == 4 then
      if Utf8Length(bs[0]) != 4 || !IsContinuation(bs[1]) || !IsContinuation(bs[2]) || !IsContinuation(bs[3]) then None
      else
        var cp := (bs[0] as int - 0xF0) * 0x40000 + (bs[1] as int - 0x80) * 4096 + (bs[2] as int - 0x80) * 64 + (bs[3] as int - 0x80);
        if cp < 0x10000 || cp >= 0x110000 then None else Some(cp as char)
    else None
  }

  function Prepend(c: char, r: Option<string>): Option<string> {
    match r
    case None => None
    case Some(s) => Some([c] + s)
  }

  /** `decodeURIComponent(t)`; `None` where JavaScript throws `URIError`. */
  function DecodeUriComponent(t: string): Option<string>
    decreases |t|
  {
    if t == [] then Some([])
    else if t[0] != '%' then Prepend(t[0], DecodeUriComponent(t[1..]))
    else match ReadByte(t)
      case None => None
      case Some(b0) =>
        var n := Utf8Length(b0);
        if n == 0 then None
        else match ReadBytes(t, n)
          case None => None
          case Some(bs) =>
            match Utf8Scalar(bs)
            case None => None
            case Some(c) => Prepend(c, DecodeUriComponent(t[3 * n..]))
  }

  // ---------------------------------------------------------------------------
  // Properties

  lemma HexRoundTrip(d: int)
    requires 0 <= d < 16
    ensures HexValue(HexDigit(d)) == Some(d)
  {
  }

  lemma ReadPercentByte(b: Byte, u: string)
    ensures ReadByte(PercentByte(b) + u) == Some(b)
  {
    HexRoundTrip(b / 16);
    HexRoundTrip(b % 16);
  }

  lemma {:induction false} ReadPercentBytes(bs: seq<Byte>, u: string)
    ensures ReadBytes(PercentBytes(bs) + u, |bs|) == Some(bs)
  {
    if bs != [] {
      var t := PercentBytes(bs) + u;
      ReadPercentByte(bs[0], PercentBytes(bs[1..]) + u);
      assert t == PercentByte(bs[0]) + (PercentBytes(bs[1..]) + u);
      assert t[3..] == PercentBytes(bs[1..]) + u;
      ReadPercentBytes(bs[1..], u);
      assert [bs[0]] + bs[1..] == bs;
    }
  }

  /** Decoding the UTF-8 octets of a code point gives the code point back,
      and the leading octet announces the length of the sequence. */
  lemma Utf8RoundTrip(c: char)
    ensures Utf8Length(Utf8(c)[0]) == |Utf8(c)|
    ensures Utf8Scalar(Utf8(c)) == Some(c)
  {
    var cp := c as int;
    if cp < 0x80 {
    } else if cp < 0x800 {
      SixBits(cp);
    } else if cp < 0x10000 {
      SixBits(cp);
      SixBits(cp / 64);
      assert cp / 64 / 64 == cp / 4096;
    } else {
      SixBits(cp);
      SixBits(cp / 64);
      SixBits(cp / 4096);
      assert cp / 64 / 64 == cp / 4096;
      assert cp / 4096 / 64 == cp / 0x40000;
    }
  }

  lemma SixBits(x: int)
    requires 0 <= x
    ensures x == (x / 64) * 64 + x % 64 && 0 <= x % 64 < 64
  {
  }

  /** Decoding consumes exactly the encoding of one character. */
  lemma DecodeEncodedChar(c: char, u: string)
    ensures DecodeUriComponent(EncodeChar(c) + u) == Prepend(c, DecodeUriComponent(u))
  {
    if IsUnreserved(c) {
      var t := [c] + u;
      assert t[0] == c && t[1..] == u;
    } else {
      DecodePercentChar(c, u);
    }
  }

  /** A character sent as `%XX` triplets is read back from them. */
  lemma DecodePercentChar(c: char, u: string)
    requires !IsUnreserved(c)
    ensures DecodeUriComponent(PercentBytes(Utf8(c)) + u) == Prepend(c, DecodeUriComponent(u))
  {
    var bs := Utf8(c);
    var t := PercentBytes(bs) + u;
    assert t[0] == '%' && ReadByte(t) == Some(bs[0]) by {
      assert t == PercentByte(bs[0]) + (PercentBytes(bs[1..]) + u);
      ReadPercentByte(bs[0], PercentBytes(bs[1..]) + u);
    }
    assert t[3 * |bs|..] == u;
    Utf8RoundTrip(c);
    ReadPercentBytes(bs, u);
  }

  /** `decodeURIComponent(encodeURIComponent(s)) === s`. */
  lemma {:induction false} DecodeEncode(s: string)
    ensures DecodeUriComponent(EncodeUriComponent(s)) == Some(s)
  {
    if s != [] {
      DecodeEncodedChar(s[0], EncodeUriComponent(s[1..]));
      DecodeEncode(s[1..]);
      assert [s[0]] + s[1..] == s;
    }
  }

  /** Every encoded value has the shape of unreserved characters and `%XX` triplets. */
  lemma {:induction false} EncodedShape(s: string)
    ensures IsPercentEncoded(EncodeUriComponent(s))
  {
    if s != [] {
      EncodedShape(s[1..]);
      EncodedCharShape(s[0], EncodeUriComponent(s[1..]));
    }
  }

  lemma EncodedCharShape(c: char, u: string)
    requires IsPercentEncoded(u)
    ensures IsPercentEncoded(EncodeChar(c) + u)
  {
    if IsUnreserved(c) {
      assert ([c] + u)[1..] == u;
    } else {
      PercentBytesShape(Utf8(c), u);
    }
  }

  lemma {:induction false} PercentBytesShape(bs: seq<Byte>, u: string)
    requires IsPercentEncoded(u)
    ensures IsPercentEncoded(PercentBytes(bs) + u)
  {
    if bs != [] {
      var head, rest := PercentByte(bs[0]), PercentBytes(bs[1..]);
      PercentBytesShape(bs[1..], u);
      TripletShape(bs[0], rest + u);
      assert PercentBytes(bs) + u == head + (rest + u) by {
        assert PercentBytes(bs) == head + rest;
        assert head + rest + u == head + (rest + u);
      }
    } else {
      assert PercentBytes(bs) + u == u;
    }
  }

  lemma TripletShape(b: Byte, v: string)
    requires IsPercentEncoded(v)
    ensures IsPercentEncoded(PercentByte(b) + v)
  {
    var t := PercentByte(b) + v;
    assert t[3..] == v;
  }

  /** A value made of unreserved characters only is sent as it is. */
  lemma {:induction false} EncodeUnreserved(x: string)
    requires forall i :: 0 <= i < |x| ==> IsUnreserved(x[i])
    ensures EncodeUriComponent(x) == x
  {
    if x != [] {
      EncodeUnreserved(x[1..]);
      assert [x[0]] + x[1..] == x;
    }
  }

  /** The scenario of a value with a space: `a b` is sent as `a%20b`. */
  lemma EncodeSpace()
    ensures EncodeUriComponent("a b") == "a%20b"
  {
    assert EncodeChar(' ') == "%20";
    assert EncodeUriComponent("b") == "b";
    assert EncodeUriComponent(" b") == "%20b";
  }
}
