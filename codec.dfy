/** Token obfuscation: UTF-8 (Python's str.encode()/bytes.decode(), strict) followed by
    base64 with the standard alphabet and '=' padding of RFC 4648, section 4. */
module Codec {
  import opened Text

  newtype byte = x: int | 0 <= x < 256

  // ---------------------------------------------------------------- UTF-8

  /** The UTF-8 encoding of one Unicode scalar value. */
  function EncodeChar(c: char): (bs: seq<byte>)
    ensures 1 <= |bs| <= 4
  {
    var n := c as int;
    if n < 0x80 then [n as byte]
    else if n < 0x800 then [(0xC0 + n / 64) as byte, (0x80 + n % 64) as byte]
    else if n < 0x1_0000 then
      [(0xE0 + n / 4096) as byte, (0x80 + (n / 64) % 64) as byte, (0x80 + n % 64) as byte]
    else
      [(0xF0 + n / 262144) as byte, (0x80 + (n / 4096) % 64) as byte,
       (0x80 + (n / 64) % 64) as byte, (0x80 + n % 64) as byte]
  }

  /** str.encode("utf-8"). */
  function Utf8Encode(s: string): (bs: seq<byte>)
    ensures |s| <= |bs| <= 4 * |s|
  {
    if s == [] then [] else EncodeChar(s[0]) + Utf8Encode(s[1..])
  }

  predicate IsCont(b: byte) { 0x80 <= b <= 0xBF }

  /** The first character of a strict UTF-8 byte string and the number of bytes it takes:
      no overlong forms, no surrogates, nothing above U+10FFFF. */
  function DecodeFirst(bs: seq<byte>): (r: Option<(char, nat)>)
    ensures r.Some? ==> 1 <= r.value.1 <= |bs| && r.value.1 <= 4
  {
    if bs == [] then None
    else
      var b0 := bs[0] as int;
      if b0 < 0x80 then Some((b0 as char, 1))
      else if 0xC2 <= b0 <= 0xDF then
        if |bs| < 2 || !IsCont(bs[1]) then None
        else Some((((b0 - 0xC0) * 64 + (bs[1] as int - 0x80)) as char, 2))
      else if 0xE0 <= b0 <= 0xEF then
        if |bs| < 3 || !IsCont(bs[1]) || !IsCont(bs[2]) then None
        else if b0 == 0xE0 && bs[1] < 0xA0 then None
        else if b0 == 0xED && bs[1] > 0x9F then None
        else
          var cp := (b0 - 0xE0) * 4096 + (bs[1] as int - 0x80) * 64 + (bs[2] as int - 0x80);
          Some((cp as char, 3))
      else if 0xF0 <= b0 <= 0xF4 then
        if |bs| < 4 || !IsCont(bs[1]) || !IsCont(bs[2]) || !IsCont(bs[3]) then None
        else if b0 == 0xF0 && bs[1] < 0x90 then None
        else if b0 == 0xF4 && bs[1] > 0x8F then None
        else
          var cp := (b0 - 0xF0) * 262144 + (bs[1] as int - 0x80) * 4096
                    + (bs[2] as int - 0x80) * 64 + (bs[3] as int - 0x80);
          Some((cp as char, 4))
      else None
  }

  /** bytes.decode("utf-8") in strict mode; None stands for the UnicodeDecodeError. */
  function Utf8Decode(bs: seq<byte>): Option<string>
    decreases |bs|
  {
    if bs == [] then Some([])
    else match DecodeFirst(bs)
      case None => None
      case Some((c, k)) =>
        match Utf8Decode(bs[k..])
        case None => None
        case Some(rest) => Some([c] + rest)
  }

  lemma DecodeEncodedChar(c: char, rest: seq<byte>)
    ensures DecodeFirst(EncodeChar(c) + rest) == Some((c, |EncodeChar(c)|))
  {
    var n := c as int;
    if n < 0x80 {
    } else if n < 0x800 {
      DecodeTwo(c, rest);
    } else if n < 0x1_0000 {
      DecodeThree(c, rest);
    } else {
      DecodeFour(c, rest);
    }
  }

  lemma DecodeTwo(c: char, rest: seq<byte>)
    requires 0x80 <= c as int < 0x800
    ensures DecodeFirst(EncodeChar(c) + rest) == Some((c, 2))
  {
    var n := c as int;
    var bs := EncodeChar(c) + rest;
    var hi, lo := n / 64, n % 64;
    assert 2 <= hi < 32 && n == hi * 64 + lo;
    assert bs[0] as int == 0xC0 + hi && bs[1] as int == 0x80 + lo;
    var cp := (bs[0] as int - 0xC0) * 64 + (bs[1] as int - 0x80);
    assert cp == n;
  }

  lemma DecodeThree(c: char, rest: seq<byte>)
    requires 0x800 <= c as int < 0x1_0000
    ensures DecodeFirst(EncodeChar(c) + rest) == Some((c, 3))
  {
    var n := c as int;
    var bs := EncodeChar(c) + rest;
    var q := n / 64;
    var h, m, l := n / 4096, (n / 64) % 64, n % 64;
    assert n == q * 64 + l && q == h * 64 + m by {
      assert n / 4096 == (n / 64) / 64;
    }
    assert h < 16 && m < 64 && l < 64;
    assert bs[0] as int == 0xE0 + h && bs[1] as int == 0x80 + m && bs[2] as int == 0x80 + l;
    assert h == 0 ==> m >= 32;
    assert h == 13 ==> m < 32;
    var cp := (bs[0] as int - 0xE0) * 4096 + (bs[1] as int - 0x80) * 64 + (bs[2] as int - 0x80);
    assert cp == h * 4096 + m * 64 + l == n;
  }

  lemma DecodeFour(c: char, rest: seq<byte>)
    requires 0x1_0000 <= c as int
    ensures DecodeFirst(EncodeChar(c) + rest) == Some((c, 4))
  {
    var n := c as int;
    var bs := EncodeChar(c) + rest;
    var q1, q2 := n / 64, n / 4096;
    var h, m1, m2, l := n / 262144, (n / 4096) % 64, (n / 64) % 64, n % 64;
    assert n == q1 * 64 + l && q1 == q2 * 64 + m2 && q2 == h * 64 + m1 by {
      assert n / 4096 == (n / 64) / 64;
      assert n / 262144 == (n / 4096) / 64;
    }
    assert n <= 0x10_FFFF;
    assert h <= 4 && m1 < 64 && m2 < 64 && l < 64;
    assert bs[0] as int == 0xF0 + h && bs[1] as int == 0x80 + m1;
    assert bs[2] as int == 0x80 + m2 && bs[3] as int == 0x80 + l;
    assert h == 0 ==> m1 >= 16;
    assert h == 4 ==> m1 < 16;
    var cp := (bs[0] as int - 0xF0) * 262144 + (bs[1] as int - 0x80) * 4096
              + (bs[2] as int - 0x80) * 64 + (bs[3] as int - 0x80);
    assert cp == h * 262144 + m1 * 4096 + m2 * 64 + l == n;
  }

  /** Decoding what str.encode() produced gives back the string. */
  lemma {:induction false} Utf8RoundTrip(s: string)
    ensures Utf8Decode(Utf8Encode(s)) == Some(s)
  {
    if s != [] {
      var head := EncodeChar(s[0]);
      var tail := Utf8Encode(s[1..]);
      DecodeEncodedChar(s[0], tail);
      assert (head + tail)[|head|..] == tail;
      Utf8RoundTrip(s[1..]);
      assert [s[0]] + s[1..] == s;
    }
  }

  // ---------------------------------------------------------------- base64

  /** The base64 alphabet of RFC 4648, section 4, table 1. */
  function B64Char(i: nat): (c: char)
    requires i < 64
  {
    if i < 26 then ('A' as int + i) as char
    else if i < 52 then ('a' as int + i - 26) as char
    else if i < 62 then ('0' as int + i - 52) as char
    else if i == 62 then '+' else '/'
  }

  predicate IsB64Char(c: char) {
    'A' <= c <= 'Z' || 'a' <= c <= 'z' || '0' <= c <= '9' || c == '+' || c == '/'
  }

  function B64Value(c: char): (i: nat)
    requires IsB64Char(c)
    ensures i < 64 && B64Char(i) == c
  {
    if 'A' <= c <= 'Z' then c as int - 'A' as int
    else if 'a' <= c <= 'z' then c as int - 'a' as int + 26
    else if '0' <= c <= '9' then c as int - '0' as int + 52
    else if c == '+' then 62 else 63
  }

  lemma B64CharValue(i: nat)
    requires i < 64
    ensures IsB64Char(B64Char(i)) && B64Value(B64Char(i)) == i
  {
  }

  /** The four characters for three bytes: each carries six of their 24 bits. */
  function EncodeGroup(b0: byte, b1: byte, b2: byte): string {
    [B64Char(b0 as int / 4), B64Char((b0 as int % 4) * 16 + b1 as int / 16),
     B64Char((b1 as int % 16) * 4 + b2 as int / 64), B64Char(b2 as int % 64)]
  }

  /** base64.b64encode: full groups, then a final group padded with '='. */
  function B64Encode(bs: seq<byte>): (s: string)
    ensures |s| % 4 == 0
    ensures |s| == 0 <==> |bs| == 0
  {
    if |bs| >= 3 then EncodeGroup(bs[0], bs[1], bs[2]) + B64Encode(bs[3..])
    else if |bs| == 2 then EncodeGroup(bs[0], bs[1], 0)[..3] + "="
    else if |bs| == 1 then EncodeGroup(bs[0], 0, 0)[..2] + "=="
    else ""
  }

  /** The bytes of a final group that carries n of them (n = 1, 2, 3). */
  function DecodeGroup(c0: char, c1: char, c2: char, c3: char, n: nat): (bs: seq<byte>)
    requires IsB64Char(c0) && IsB64Char(c1) && IsB64Char(c2) && IsB64Char(c3)
    requires 1 <= n <= 3
    ensures |bs| == n
  {
    Octets(B64Value(c0), B64Value(c1), B64Value(c2), B64Value(c3))[..n]
  }

  /** The three octets that four six-bit values carry. */
  function Octets(v0: nat, v1: nat, v2: nat, v3: nat): (bs: seq<byte>)
    requires v0 < 64 && v1 < 64 && v2 < 64 && v3 < 64
    ensures |bs| == 3
  {
    [(v0 * 4 + v1 / 16) as byte, ((v1 % 16) * 16 + v2 / 4) as byte, ((v2 % 4) * 64 + v3) as byte]
  }

  /** base64.b64decode for well-formed input: length a multiple of four, alphabet characters,
      '=' only as the padding of the last group. Bits beyond the last byte are dropped, as
      Python does. None stands for binascii.Error. */
  function B64Decode(s: string): (r: Option<seq<byte>>)
    ensures r.Some? ==> |s| % 4 == 0 && |r.value| <= |s| / 4 * 3
    decreases |s|
  {
    if s == [] then Some([])
    else if |s| < 4 then None
    else if !IsB64Char(s[0]) || !IsB64Char(s[1]) then None
    else if |s| == 4 && s[2] == '=' && s[3] == '=' then Some(DecodeGroup(s[0], s[1], 'A', 'A', 1))
    else if !IsB64Char(s[2]) then None
    else if |s| == 4 && s[3] == '=' then Some(DecodeGroup(s[0], s[1], s[2], 'A', 2))
    else if !IsB64Char(s[3]) then None
    else
      match B64Decode(s[4..])
      case None => None
      case Some(rest) =>
        QuarterStep(|s|);
        Some(DecodeGroup(s[0], s[1], s[2], s[3], 3) + rest)
  }

  /** One group of four characters more: three bytes more room, and the same remainder. */
  lemma QuarterStep(m: int)
    requires m >= 4
    ensures (m - 4) / 4 * 3 + 3 == m / 4 * 3 && (m - 4) % 4 == m % 4
  {
  }

  lemma SplitSixteen(a: int, b: int)
    requires 0 <= b < 16
    ensures (a * 16 + b) / 16 == a && (a * 16 + b) % 16 == b
  {
  }

  lemma SplitFour(a: int, b: int)
    requires 0 <= b < 4
    ensures (a * 4 + b) / 4 == a && (a * 4 + b) % 4 == b
  {
  }

  /** The four six-bit values cut from three octets put the octets back together. */
  lemma SixBitsRejoin(b0: byte, b1: byte, b2: byte)
    ensures var x0, x1, x2 := b0 as int, b1 as int, b2 as int;
            Octets(x0 / 4, (x0 % 4) * 16 + x1 / 16, (x1 % 16) * 4 + x2 / 64, x2 % 64) == [b0, b1, b2]
  {
    var x0, x1, x2 := b0 as int, b1 as int, b2 as int;
    SplitSixteen(x0 % 4, x1 / 16);
    SplitFour(x1 % 16, x2 / 64);
  }

  /** The six-bit values of the four characters EncodeGroup writes for three octets. */
  lemma SixBits(b0: byte, b1: byte, b2: byte) returns (v0: nat, v1: nat, v2: nat, v3: nat)
    ensures v0 < 64 && v1 < 64 && v2 < 64 && v3 < 64
    ensures EncodeGroup(b0, b1, b2) == [B64Char(v0), B64Char(v1), B64Char(v2), B64Char(v3)]
    ensures Octets(v0, v1, v2, v3) == [b0, b1, b2]
  {
    var x0, x1, x2 := b0 as int, b1 as int, b2 as int;
    v0, v1, v2, v3 := x0 / 4, (x0 % 4) * 16 + x1 / 16, (x1 % 16) * 4 + x2 / 64, x2 % 64;
    SixBitsRejoin(b0, b1, b2);
  }

  lemma DecodeEncodedGroup(b0: byte, b1: byte, b2: byte, n: nat)
    requires 1 <= n <= 3
    ensures var g := EncodeGroup(b0, b1, b2);
            IsB64Char(g[0]) && IsB64Char(g[1]) && IsB64Char(g[2]) && IsB64Char(g[3]) &&
            DecodeGroup(g[0], g[1], g[2], g[3], n) == [b0, b1, b2][..n]
  {
    var v0, v1, v2, v3 := SixBits(b0, b1, b2);
    DecodeOfChars(v0, v1, v2, v3, n);
  }

  /** The characters of four six-bit values decode to the octets those values carry. */
  lemma DecodeOfChars(v0: nat, v1: nat, v2: nat, v3: nat, n: nat)
    requires v0 < 64 && v1 < 64 && v2 < 64 && v3 < 64 && 1 <= n <= 3
    ensures IsB64Char(B64Char(v0)) && IsB64Char(B64Char(v1)) && IsB64Char(B64Char(v2)) && IsB64Char(B64Char(v3))
    ensures DecodeGroup(B64Char(v0), B64Char(v1), B64Char(v2), B64Char(v3), n) == Octets(v0, v1, v2, v3)[..n]
  {
    B64CharValue(v0); B64CharValue(v1); B64CharValue(v2); B64CharValue(v3);
  }

  lemma DecodeFullGroup(g: string, rest: string)
    requires |g| == 4 && IsB64Char(g[0]) && IsB64Char(g[1]) && IsB64Char(g[2]) && IsB64Char(g[3])
    ensures B64Decode(g + rest) ==
      match B64Decode(rest)
      case None => None
      case Some(r) => Some(DecodeGroup(g[0], g[1], g[2], g[3], 3) + r)
  {
    var s := g + rest;
    assert s[0] == g[0] && s[1] == g[1] && s[2] == g[2] && s[3] == g[3];
    assert s[4..] == rest;
  }

  lemma DecodeGroupIgnoresLater(c0: char, c1: char, c2: char, c3: char)
    requires IsB64Char(c0) && IsB64Char(c1) && IsB64Char(c2) && IsB64Char(c3)
    ensures DecodeGroup(c0, c1, c2, c3, 2) == DecodeGroup(c0, c1, c2, 'A', 2)
    ensures DecodeGroup(c0, c1, c2, c3, 1) == DecodeGroup(c0, c1, 'A', 'A', 1)
  {
  }

  /** Decoding what b64encode produced gives back the bytes. */
  lemma {:induction false} B64RoundTrip(bs: seq<byte>)
    ensures B64Decode(B64Encode(bs)) == Some(bs)
    decreases |bs|
  {
    if |bs| >= 3 {
      B64RoundTrip(bs[3..]);
      RoundTripFull(bs);
    } else if |bs| == 2 {
      RoundTripTwo(bs[0], bs[1]);
      assert bs == [bs[0], bs[1]];
    } else if |bs| == 1 {
      RoundTripOne(bs[0]);
      assert bs == [bs[0]];
    }
  }

  lemma RoundTripFull(bs: seq<byte>)
    requires |bs| >= 3 && B64Decode(B64Encode(bs[3..])) == Some(bs[3..])
    ensures B64Decode(B64Encode(bs)) == Some(bs)
  {
    EncodeCons(bs);
    DecodeConsEncoded(bs[0], bs[1], bs[2], B64Encode(bs[3..]), bs[3..]);
    SplitThree(bs);
  }

  lemma EncodeCons(bs: seq<byte>)
    requires |bs| >= 3
    ensures B64Encode(bs) == EncodeGroup(bs[0], bs[1], bs[2]) + B64Encode(bs[3..])
  {
  }

  lemma SplitThree(bs: seq<byte>)
    requires |bs| >= 3
    ensures [bs[0], bs[1], bs[2]] + bs[3..] == bs
  {
  }

  lemma DecodeConsEncoded(b0: byte, b1: byte, b2: byte, rest: string, tail: seq<byte>)
    requires B64Decode(rest) == Some(tail)
    ensures B64Decode(EncodeGroup(b0, b1, b2) + rest) == Some([b0, b1, b2] + tail)
  {
    var g := EncodeGroup(b0, b1, b2);
    DecodeEncodedGroup(b0, b1, b2, 3);
    assert DecodeGroup(g[0], g[1], g[2], g[3], 3) == [b0, b1, b2];
    DecodeFullGroup(g, rest);
  }

  lemma RoundTripTwo(b0: byte, b1: byte)
    ensures B64Decode(B64Encode([b0, b1])) == Some([b0, b1])
  {
    var g := EncodeGroup(b0, b1, 0);
    DecodeEncodedGroup(b0, b1, 0, 2);
    DecodeGroupIgnoresLater(g[0], g[1], g[2], g[3]);
    var s := g[..3] + "=";
    assert B64Encode([b0, b1]) == s;
    assert s[0] == g[0] && s[1] == g[1] && s[2] == g[2] && s[3] == '=';
    assert [b0, b1, 0][..2] == [b0, b1];
    assert B64Decode(s) == Some(DecodeGroup(s[0], s[1], s[2], 'A', 2));
  }

  lemma RoundTripOne(b0: byte)
    ensures B64Decode(B64Encode([b0])) == Some([b0])
  {
    var g := EncodeGroup(b0, 0, 0);
    DecodeEncodedGroup(b0, 0, 0, 1);
    DecodeGroupIgnoresLater(g[0], g[1], g[2], g[3]);
    var s := g[..2] + "==";
    assert B64Encode([b0]) == s;
    assert s[0] == g[0] && s[1] == g[1] && s[2] == '=' && s[3] == '=';
    assert [b0, 0, 0][..1] == [b0];
    assert B64Decode(s) == Some(DecodeGroup(s[0], s[1], 'A', 'A', 1));
  }

  // ------------------------------------------------------------ obfuscation

  /** _obfuscate: the base64 text of the string's UTF-8 bytes. */
  function Obfuscate(s: string): (o: string)
    ensures |o| % 4 == 0
    ensures o == [] <==> s == []
  {
    B64Encode(Utf8Encode(s))
  }

  /** _deobfuscate in its strict form: base64 decoding, then strict UTF-8 decoding.
      None stands for the binascii.Error or UnicodeDecodeError it raises. */
  function Deobfuscate(o: string): (r: Option<string>)
    ensures r.Some? ==> |o| % 4 == 0
  {
    match B64Decode(o)
    case None => None
    case Some(bs) => Utf8Decode(bs)
  }

  /** Deobfuscating what was obfuscated gives back the original string. */
  lemma ObfuscateRoundTrip(s: string)
    ensures Deobfuscate(Obfuscate(s)) == Some(s)
  {
    B64RoundTrip(Utf8Encode(s));
    Utf8RoundTrip(s);
  }

  function Repeat(c: char, n: nat): (r: string)
    ensures |r| == n && forall i :: 0 <= i < n ==> r[i] == c
  {
    seq(n, _ => c)
  }

  /** The padding repair of the lenient _deobfuscate: as many '=' as the length lacks to
      a multiple of four. */
  function PadToQuad(s: string): (p: string)
    ensures |p| % 4 == 0 && |p| == |s| + (4 - |s| % 4) % 4
    ensures p[..|s|] == s && forall i :: |s| <= i < |p| ==> p[i] == '='
    ensures |s| % 4 == 0 ==> p == s
  {
    var missing := |s| % 4;
    if missing != 0 then s + Repeat('=', 4 - missing) else s
  }

  /** The lenient _deobfuscate: decode the repaired text; if that fails, give back the
      repaired text itself (not the argument). */
  function RepairingDeobfuscate(s: string): (r: string)
    ensures Deobfuscate(PadToQuad(s)).None? && |s| % 4 != 0 ==>
              r != s && |r| > |s| && r[..|s|] == s && r[|r| - 1] == '='
  {
    var p := PadToQuad(s);
    match Deobfuscate(p)
    case Some(plain) => plain
    case None => p
  }

  /** The lenient _deobfuscate as the source writes it: it pads its argument in place
      and catches every decoding failure. */
  method DeobfuscateRepairing(data: string) returns (r: string)
    ensures r == RepairingDeobfuscate(data)
  {
    var d := data;
    var missing := |d| % 4;
    if missing != 0 {
      d := d + Repeat('=', 4 - missing);
    }
    var decoded := Deobfuscate(d);
    if decoded.Some? {
      r := decoded.value;
    } else {
      r := d;
    }
  }

  /** The lenient decoder still inverts _obfuscate: obfuscated text needs no padding. */
  lemma RepairingRoundTrip(s: string)
    ensures RepairingDeobfuscate(Obfuscate(s)) == s
  {
    ObfuscateRoundTrip(s);
  }
}
