/**
  Bytes and the byte-level codecs the core relies on: big-endian integers
  (`int.from_bytes(b, 'big')`, `n.to_bytes(k, 'big')`), hexadecimal text
  (`bytes.fromhex`, `bytes.hex`) and Base64 (section 4 of RFC 4648).
*/
module Bytes {
  import opened Wrappers

  newtype byte = x: int | 0 <= x < 256

  /** 256^n, the number of values an n-byte big-endian field can hold. */
  function Pow256(n: nat): (r: nat)
    ensures r >= 1
  {
    if n == 0 then 1 else 256 * Pow256(n - 1)
  }

  /** `int.from_bytes(s, 'big')`. */
  function FromBigEndian(s: seq<byte>): nat
  {
    if s == [] then 0 else FromBigEndian(s[..|s| - 1]) * 256 + s[|s| - 1] as nat
  }

  /** An n-byte field holds a value below 256^n. */
  lemma {:induction false} FromBigEndianBound(s: seq<byte>)
    ensures FromBigEndian(s) < Pow256(|s|)
  {
    if s != [] {
      FromBigEndianBound(s[..|s| - 1]);
    }
  }

  /** `v.to_bytes(len, 'big')`; Python raises OverflowError when v does not fit. */
  function ToBigEndian(v: nat, len: nat): (s: seq<byte>)
    requires v < Pow256(len)
    ensures |s| == len
  {
    if len == 0 then [] else ToBigEndian(v / 256, len - 1) + [(v % 256) as byte]
  }

  /** Decoding an encoded integer gives the integer back. */
  lemma {:induction false} FromToBigEndian(v: nat, len: nat)
    requires v < Pow256(len)
    ensures FromBigEndian(ToBigEndian(v, len)) == v
  {
    if len > 0 {
      var s := ToBigEndian(v, len);
      assert s[..len - 1] == ToBigEndian(v / 256, len - 1);
      FromToBigEndian(v / 256, len - 1);
    }
  }

  /** Encoding a decoded field at its own width gives the field back. */
  lemma {:induction false} ToFromBigEndian(s: seq<byte>)
    ensures FromBigEndian(s) < Pow256(|s|)
    ensures ToBigEndian(FromBigEndian(s), |s|) == s
  {
    FromBigEndianBound(s);
    if s != [] {
      var init := s[..|s| - 1];
      var v := FromBigEndian(s);
      assert v / 256 == FromBigEndian(init);
      assert v % 256 == s[|s| - 1] as nat;
      ToFromBigEndian(init);
      assert s == init + [s[|s| - 1]];
    }
  }

  /** The big-endian encoding at a fixed width is injective. */
  lemma ToBigEndianInjective(v: nat, w: nat, len: nat)
    requires v < Pow256(len) && w < Pow256(len)
    ensures ToBigEndian(v, len) == ToBigEndian(w, len) <==> v == w
  {
    if ToBigEndian(v, len) == ToBigEndian(w, len) {
      FromToBigEndian(v, len);
      FromToBigEndian(w, len);
    }
  }

  // ---------------------------------------------------------------------------
  // Hexadecimal text

  /** The characters `bytes.fromhex` skips between byte pairs (ASCII whitespace). */
  predicate IsAsciiSpace(c: char)
  {
    c == ' ' || c == '\t' || c == '\n' || c == '\r' || c == '\U{B}' || c == '\U{C}'
  }

  function HexValue(c: char): (r: Option<nat>)
    ensures r.Some? ==> r.value < 16
  {
    if '0' <= c <= '9' then Some(c as int - '0' as int)
    else if 'a' <= c <= 'f' then Some(c as int - 'a' as int + 10)
    else if 'A' <= c <= 'F' then Some(c as int - 'A' as int + 10)
    else None
  }

  /** The lower-case hexadecimal digit of a value below 16. */
  function HexDigit(v: nat): (c: char)
    requires v < 16
    ensures HexValue(c) == Some(v)
  {
    if v < 10 then ('0' as int + v) as char else ('a' as int + v - 10) as char
  }

  /**
    `bytes.fromhex(s)`: pairs of hexadecimal digits (either case), each pair
    optionally preceded by whitespace; anything else raises ValueError (None).
  */
  function FromHex(s: string): (r: Option<seq<byte>>)
    decreases |s|
  {
    if s == [] then Some([])
    else if IsAsciiSpace(s[0]) then FromHex(s[1..])
    else if |s| >= 2 && HexValue(s[0]).Some? && HexValue(s[1]).Some? then
      match FromHex(s[2..])
      case None => None
      case Some(rest) => Some([(HexValue(s[0]).value * 16 + HexValue(s[1]).value) as byte] + rest)
    else None
  }

  /** `b.hex()`: two lower-case digits per byte, no separators. */
  function ToHex(b: seq<byte>): (s: string)
    ensures |s| == 2 * |b|
  {
    if b == [] then "" else [HexDigit(b[0] as nat / 16), HexDigit(b[0] as nat % 16)] + ToHex(b[1..])
  }

  /** Hex text produced by `bytes.hex` decodes back to the same bytes. */
  lemma {:induction false} FromHexToHex(b: seq<byte>)
    ensures FromHex(ToHex(b)) == Some(b)
  {
    if b != [] {
      var s := ToHex(b);
      assert s[2..] == ToHex(b[1..]);
      FromHexToHex(b[1..]);
      assert HexValue(s[0]).value * 16 + HexValue(s[1]).value == b[0] as nat;
      assert b == [b[0]] + b[1..];
    }
  }

  /** An odd number of hexadecimal digits with no whitespace is always rejected. */
  lemma {:induction false} FromHexOddLength(s: string)
    requires forall i :: 0 <= i < |s| ==> !IsAsciiSpace(s[i])
    requires |s| % 2 == 1
    ensures FromHex(s) == None
  {
    if |s| >= 3 && HexValue(s[0]).Some? && HexValue(s[1]).Some? {
      FromHexOddLength(s[2..]);
    }
  }

  // ---------------------------------------------------------------------------
  // Base64, standard alphabet with '=' padding (section 4 of RFC 4648)

  function Base64Char(v: nat): (c: char)
    requires v < 64
  {
    if v < 26 then ('A' as int + v) as char
    else if v < 52 then ('a' as int + v - 26) as char
    else if v < 62 then ('0' as int + v - 52) as char
    else if v == 62 then '+' else '/'
  }

  function Base64Value(c: char): (r: Option<nat>)
    ensures r.Some? ==> r.value < 64
  {
    if 'A' <= c <= 'Z' then Some(c as int - 'A' as int)
    else if 'a' <= c <= 'z' then Some(c as int - 'a' as int + 26)
    else if '0' <= c <= '9' then Some(c as int - '0' as int + 52)
    else if c == '+' then Some(62)
    else if c == '/' then Some(63)
    else None
  }

  lemma Base64ValueOfChar(v: nat)
    requires v < 64
    ensures Base64Value(Base64Char(v)) == Some(v)
  {
  }

  /** Encodes one group of one to three bytes as four characters. */
  function Base64Group(b: seq<byte>): (s: string)
    requires 1 <= |b| <= 3
    ensures |s| == 4
  {
    var b0 := b[0] as nat;
    var b1 := if |b| > 1 then b[1] as nat else 0;
    var b2 := if |b| > 2 then b[2] as nat else 0;
    [Base64Char(b0 / 4), Base64Char((b0 % 4) * 16 + b1 / 16)]
    + (if |b| > 1 then [Base64Char((b1 % 16) * 4 + b2 / 64)] else "=")
    + (if |b| > 2 then [Base64Char(b2 % 64)] else "=")
  }

  /** `base64.b64encode(b)`. */
  function Base64Encode(b: seq<byte>): (s: string)
    ensures |s| == 4 * ((|b| + 2) / 3)
    decreases |b|
  {
    if b == [] then "" else if |b| <= 3 then Base64Group(b) else Base64Group(b[..3]) + Base64Encode(b[3..])
  }

  /** Decodes one group of four characters; the last group may end in "=" or "==". */
  function Base64DecodeGroup(q: string, last: bool): (r: Option<seq<byte>>)
    requires |q| == 4
    ensures r.Some? ==> 1 <= |r.value| <= 3
  {
    var v0 := Base64Value(q[0]);
    var v1 := Base64Value(q[1]);
    var v2 := Base64Value(q[2]);
    var v3 := Base64Value(q[3]);
    if v0.None? || v1.None? then None
    else
      var x0 := (v0.value * 4 + v1.value / 16) as byte;
      if v2.Some? && v3.Some? then
        Some([x0, ((v1.value % 16) * 16 + v2.value / 4) as byte, ((v2.value % 4) * 64 + v3.value) as byte])
      else if last && v2.Some? && q[3] == '=' then
        Some([x0, ((v1.value % 16) * 16 + v2.value / 4) as byte])
      else if last && q[2] == '=' && q[3] == '=' then
        Some([x0])
      else None
  }

  /**
    `base64.b64decode(s)` on canonical input: a multiple of four alphabet
    characters, padding only in the final group. Anything else is modelled
    as None, the binascii.Error; CPython's default non-validating mode skips
    characters outside the alphabet and so accepts some such text.
  */
  function Base64Decode(s: string): (r: Option<seq<byte>>)
    decreases |s|
  {
    if s == [] then Some([])
    else if |s| < 4 then None
    else
      match Base64DecodeGroup(s[..4], |s| == 4)
      case None => None
      case Some(g) =>
        match Base64Decode(s[4..])
        case None => None
        case Some(rest) => Some(g + rest)
  }

  lemma Base64GroupRoundTrip(b: seq<byte>, last: bool)
    requires 1 <= |b| <= 3
    requires |b| < 3 ==> last
    ensures Base64DecodeGroup(Base64Group(b), last) == Some(b)
  {
    var b0 := b[0] as nat;
    var b1 := if |b| > 1 then b[1] as nat else 0;
    var b2 := if |b| > 2 then b[2] as nat else 0;
    Base64ValueOfChar(b0 / 4);
    Base64ValueOfChar((b0 % 4) * 16 + b1 / 16);
    if |b| > 1 { Base64ValueOfChar((b1 % 16) * 4 + b2 / 64); }
    if |b| > 2 { Base64ValueOfChar(b2 % 64); }
    var d := Base64DecodeGroup(Base64Group(b), last);
    assert d.Some? && d.value[0] == b[0];
    if |b| > 1 { assert d.value[1] == b[1]; }
    if |b| > 2 { assert d.value[2] == b[2]; }
    assert |d.value| == |b|;
    assert d.value == b;
  }

  /** Text produced by `b64encode` decodes back to the same bytes. */
  lemma {:induction false} Base64RoundTrip(b: seq<byte>)
    ensures Base64Decode(Base64Encode(b)) == Some(b)
    decreases |b|
  {
    if b == [] {
    } else if |b| <= 3 {
      var s := Base64Encode(b);
      Base64GroupRoundTrip(b, true);
      assert s[..4] == s;
      assert s[4..] == [];
      assert b + [] == b;
    } else {
      var s := Base64Encode(b);
      assert s[..4] == Base64Group(b[..3]);
      assert s[4..] == Base64Encode(b[3..]);
      Base64GroupRoundTrip(b[..3], |s| == 4);
      Base64RoundTrip(b[3..]);
      assert b == b[..3] + b[3..];
    }
  }

  // ---------------------------------------------------------------------------
  // UTF-8 (`s.encode('utf-8')`; a Dafny string holds no surrogates, so this never fails)

  function Utf8Char(c: char): (b: seq<byte>)
    ensures 1 <= |b| <= 4
    ensures (c as int < 0x80) == (|b| == 1)
  {
    var v := c as int;
    if v < 0x80 then [v as byte]
    else if v < 0x800 then [(0xC0 + v / 64) as byte, (0x80 + v % 64) as byte]
    else if v < 0x10000 then
      [(0xE0 + v / 4096) as byte, (0x80 + (v / 64) % 64) as byte, (0x80 + v % 64) as byte]
    else
      [(0xF0 + v / 262144) as byte, (0x80 + (v / 4096) % 64) as byte,
       (0x80 + (v / 64) % 64) as byte, (0x80 + v % 64) as byte]
  }

  function Utf8Encode(s: string): (b: seq<byte>)
    ensures |s| <= |b| <= 4 * |s|
  {
    if s == [] then [] else Utf8Char(s[0]) + Utf8Encode(s[1..])
  }
}
