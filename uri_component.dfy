/**
 * JavaScript's `encodeURIComponent` (section 19.2.6.5 of ECMA-262): characters outside the
 * unreserved set are written as the UTF-8 octets of the character, each as `%` and two
 * upper-case hexadecimal digits.  `PercentDecode` is an independent inverse, used to show
 * that the encoding loses nothing.
 */
module UriComponent {
  import opened Optional

  /** Characters `encodeURIComponent` copies unchanged: letters, digits and `-_.!~*'()`. */
  predicate IsUnreserved(c: char) {
    || ('A' <= c <= 'Z') || ('a' <= c <= 'z') || ('0' <= c <= '9')
    || c == '-' || c == '_' || c == '.' || c == '!' || c == '~' || c == '*' || c == '\'' || c == '(' || c == ')'
  }

  predicate IsHexDigit(c: char) {
    ('0' <= c <= '9') || ('A' <= c <= 'F')
  }

  /** The UTF-8 encoding of one Unicode scalar value. */
  function Utf8(c: char): (octets: seq<nat>)
    ensures 1 <= |octets| <= 4
    ensures forall i :: 0 <= i < |octets| ==> octets[i] < 256
  {
    var n := c as int;
    if n < 0x80 then [n]
    else if n < 0x800 then [0xC0 + n / 64, 0x80 + n % 64]
    else if n < 0x1_0000 then [0xE0 + n / 64 / 64, 0x80 + n / 64 % 64, 0x80 + n % 64]
    else [0xF0 + n / 64 / 64 / 64, 0x80 + n / 64 / 64 % 64, 0x80 + n / 64 % 64, 0x80 + n % 64]
  }

  /** The upper-case hexadecimal digit for `d`. */
  function HexDigit(d: nat): (c: char)
    requires d < 16
    ensures IsHexDigit(c)
  {
    if d < 10 then ('0' as int + d) as char else ('A' as int + d - 10) as char
  }

  /** One octet written as `%XY`. */
  function Escape(octet: nat): string
    requires octet < 256
  {
    ['%', HexDigit(octet / 16), HexDigit(octet % 16)]
  }

  function EscapeAll(octets: seq<nat>): (r: string)
    requires forall i :: 0 <= i < |octets| ==> octets[i] < 256
    ensures |r| == 3 * |octets|
    ensures forall i :: 0 <= i < |r| ==> r[i] == '%' || IsHexDigit(r[i])
  {
    if octets == [] then [] else Escape(octets[0]) + EscapeAll(octets[1..])
  }

  function EncodeChar(c: char): (r: string)
    ensures forall i :: 0 <= i < |r| ==> IsUnreserved(r[i]) || r[i] == '%' || IsHexDigit(r[i])
  {
    if IsUnreserved(c) then [c] else EscapeAll(Utf8(c))
  }

  /** `encodeURIComponent(s)`. */
  function EncodeURIComponent(s: string): (r: string)
    ensures forall i :: 0 <= i < |r| ==> IsUnreserved(r[i]) || r[i] == '%' || IsHexDigit(r[i])
  {
    if s == [] then [] else EncodeChar(s[0]) + EncodeURIComponent(s[1..])
  }

  /** Text made of unreserved characters only (decimal digits among them) is not changed. */
  lemma {:induction false} EncodeKeepsUnreserved(s: string)
    requires forall i :: 0 <= i < |s| ==> IsUnreserved(s[i])
    ensures EncodeURIComponent(s) == s
  {
    if s != [] {
      EncodeKeepsUnreserved(s[1..]);
    }
  }

  // ---- the inverse ----

  function HexValue(c: char): Option<nat> {
    if '0' <= c <= '9' then Some(c as int - '0' as int)
    else if 'A' <= c <= 'F' then Some(c as int - 'A' as int + 10)
    else if 'a' <= c <= 'f' then Some(c as int - 'a' as int + 10)
    else None
  }

  /** The octet written as `%XY` at index `i` of `s`, if there is one. */
  function OctetAt(s: string, i: nat): (r: Option<nat>)
    ensures r.Some? ==> i + 3 <= |s| && r.value < 256
  {
    if i + 3 <= |s| && s[i] == '%' && HexValue(s[i + 1]).Some? && HexValue(s[i + 2]).Some? then
      Some(HexValue(s[i + 1]).value * 16 + HexValue(s[i + 2]).value)
    else None
  }

  /** Reads `remaining` continuation octets (`10xxxxxx`), starting with the `k`-th escape of `s`. */
  function Continuation(s: string, k: nat, acc: nat, remaining: nat): (r: Option<nat>)
    ensures r.Some? && remaining > 0 ==> 3 * (k + remaining) <= |s|
    decreases remaining
  {
    if remaining == 0 then Some(acc)
    else match OctetAt(s, 3 * k)
      case Some(o) =>
        if 0x80 <= o < 0xC0 then Continuation(s, k + 1, acc * 64 + (o - 0x80), remaining - 1) else None
      case None => None
  }

  predicate IsScalarValue(n: int) {
    (0 <= n < 0xD800) || (0xE000 <= n < 0x11_0000)
  }

  /** Decodes the UTF-8 sequence escaped at the front of `s`: the character and the length used. */
  function DecodeEscapes(s: string): (r: Option<(char, nat)>)
    ensures r.Some? ==> 3 <= r.value.1 <= |s|
  {
    match OctetAt(s, 0)
    case None => None
    case Some(lead) =>
      var n := if lead < 0x80 then 1 else if 0xC0 <= lead < 0xE0 then 2
               else if 0xE0 <= lead < 0xF0 then 3 else if 0xF0 <= lead < 0xF8 then 4 else 0;
      if n == 0 then None
      else
        var first := if n == 1 then lead else if n == 2 then lead - 0xC0 else if n == 3 then lead - 0xE0 else lead - 0xF0;
        match Continuation(s, 1, first, n - 1)
        case Some(code) => if IsScalarValue(code) then Some((code as char, 3 * n)) else None
        case None => None
  }

  /** Undoes percent-encoding: `%XY` escapes are read as UTF-8, other characters are kept. */
  function PercentDecode(s: string): Option<string>
    decreases |s|
  {
    if s == [] then Some([])
    else if s[0] != '%' then
      match PercentDecode(s[1..])
      case Some(t) => Some([s[0]] + t)
      case None => None
    else
      match DecodeEscapes(s)
      case Some((c, used)) =>
        (match PercentDecode(s[used..])
         case Some(t) => Some([c] + t)
         case None => None)
      case None => None
  }

  lemma HexDigitValue(d: nat)
    requires d < 16
    ensures HexValue(HexDigit(d)) == Some(d)
  {
  }

  /** The `k`-th escape of `EscapeAll(octets)` holds `octets[k]`, whatever follows. */
  lemma {:induction false} OctetOfEscapes(octets: seq<nat>, rest: string, k: nat)
    requires forall i :: 0 <= i < |octets| ==> octets[i] < 256
    requires k < |octets|
    ensures OctetAt(EscapeAll(octets) + rest, 3 * k) == Some(octets[k])
  {
    var s := EscapeAll(octets) + rest;
    if k == 0 {
      var o := octets[0];
      assert s[..3] == Escape(o);
      HexDigitValue(o / 16);
      HexDigitValue(o % 16);
    } else {
      OctetOfEscapes(octets[1..], rest, k - 1);
      assert s == Escape(octets[0]) + (EscapeAll(octets[1..]) + rest);
      assert s[3..] == EscapeAll(octets[1..]) + rest;
    }
  }

  /** Decoding the escapes of one character yields that character and consumes exactly them. */
  lemma DecodeEscapesOfChar(c: char, rest: string)
    requires !IsUnreserved(c)
    ensures DecodeEscapes(EscapeAll(Utf8(c)) + rest) == Some((c, |EscapeAll(Utf8(c))|))
  {
    var octets := Utf8(c);
    var s := EscapeAll(octets) + rest;
    var n := c as int;
    OctetOfEscapes(octets, rest, 0);
    if n < 0x80 {
    } else if n < 0x800 {
      OctetOfEscapes(octets, rest, 1);
      DecodeTwoOctets(s, n);
    } else if n < 0x1_0000 {
      OctetOfEscapes(octets, rest, 1);
      OctetOfEscapes(octets, rest, 2);
      DecodeThreeOctets(s, n);
    } else {
      OctetOfEscapes(octets, rest, 1);
      OctetOfEscapes(octets, rest, 2);
      OctetOfEscapes(octets, rest, 3);
      DecodeFourOctets(s, n);
    }
    assert n as char == c;
  }

  lemma DecodeTwoOctets(s: string, n: int)
    requires 0x80 <= n < 0x800
    requires OctetAt(s, 0) == Some(0xC0 + n / 64) && OctetAt(s, 3) == Some(0x80 + n % 64)
    ensures DecodeEscapes(s) == Some((n as char, 6))
  {
    assert Continuation(s, 2, n, 0) == Some(n);
    assert Continuation(s, 1, n / 64, 1) == Some(n);
  }

  lemma DecodeThreeOctets(s: string, n: int)
    requires 0x800 <= n < 0x1_0000 && IsScalarValue(n)
    requires OctetAt(s, 0) == Some(0xE0 + n / 64 / 64)
    requires OctetAt(s, 3) == Some(0x80 + n / 64 % 64) && OctetAt(s, 6) == Some(0x80 + n % 64)
    ensures DecodeEscapes(s) == Some((n as char, 9))
  {
    assert Continuation(s, 3, n, 0) == Some(n);
    assert Continuation(s, 2, n / 64, 1) == Some(n);
    assert Continuation(s, 1, n / 64 / 64, 2) == Some(n);
  }

  lemma DecodeFourOctets(s: string, n: int)
    requires 0x1_0000 <= n < 0x11_0000
    requires OctetAt(s, 0) == Some(0xF0 + n / 64 / 64 / 64) && OctetAt(s, 3) == Some(0x80 + n / 64 / 64 % 64)
    requires OctetAt(s, 6) == Some(0x80 + n / 64 % 64) && OctetAt(s, 9) == Some(0x80 + n % 64)
    ensures DecodeEscapes(s) == Some((n as char, 12))
  {
    assert Continuation(s, 4, n, 0) == Some(n);
    assert Continuation(s, 3, n / 64, 1) == Some(n);
    assert Continuation(s, 2, n / 64 / 64, 2) == Some(n);
    assert Continuation(s, 1, n / 64 / 64 / 64, 3) == Some(n);
  }

  /** Decoding after one encoded character yields that character, then the rest. */
  lemma DecodeAfterChar(c: char, rest: string, tail: string)
    requires PercentDecode(rest) == Some(tail)
    ensures PercentDecode(EncodeChar(c) + rest) == Some([c] + tail)
  {
    var s := EncodeChar(c) + rest;
    if IsUnreserved(c) {
      assert s[1..] == rest;
    } else {
      var e := EscapeAll(Utf8(c));
      DecodeEscapesOfChar(c, rest);
      assert s[0] == e[0] == '%';
      assert s[|e|..] == rest;
    }
  }

  /** Round trip: `PercentDecode` undoes `EncodeURIComponent`. */
  lemma {:induction false} DecodeEncode(s: string)
    ensures PercentDecode(EncodeURIComponent(s)) == Some(s)
  {
    if s != [] {
      DecodeEncode(s[1..]);
      DecodeAfterChar(s[0], EncodeURIComponent(s[1..]), s[1..]);
      assert [s[0]] + s[1..] == s;
    }
  }

  /** Different inputs have different encodings. */
  lemma EncodeInjective(a: string, b: string)
    requires EncodeURIComponent(a) == EncodeURIComponent(b)
    ensures a == b
  {
    DecodeEncode(a);
    DecodeEncode(b);
  }
}
