/**
 * UTF-8 (RFC 3629), the encoding `Buffer.from(string)` applies to a string
 * before it is base64-encoded, with a strict decoder as its inverse.
 */
module Utf8 {
  import opened Wrappers
  import opened Bytes

  /** The one to four octets of one Unicode scalar value. */
  function EncodeChar(c: char): (r: seq<byte>)
    ensures 1 <= |r| <= 4
  {
    var n := c as int;
    if n < 0x80 then [n as byte]
    else if n < 0x800 then
      [(0xC0 + n / 64) as byte, (0x80 + n % 64) as byte]
    else if n < 0x1_0000 then
      var hi, rest := n / 4096, n % 4096;
      [(0xE0 + hi) as byte, (0x80 + rest / 64) as byte, (0x80 + rest % 64) as byte]
    else
      var hi, rest := n / 0x4_0000, n % 0x4_0000;
      var mid, low := rest / 4096, rest % 4096;
      [(0xF0 + hi) as byte, (0x80 + mid) as byte, (0x80 + low / 64) as byte, (0x80 + low % 64) as byte]
  }

  /** The octets of a string: the encodings of its characters, one after another. */
  function Encode(s: string): (r: seq<byte>)
    ensures |s| <= |r| <= 4 * |s|
    decreases |s|
  {
    if |s| == 0 then [] else EncodeChar(s[0]) + Encode(s[1..])
  }

  predicate IsContinuation(b: byte) {
    0x80 <= b < 0xC0
  }

  /**
   * The first character of `b` and the number of octets it takes; `None` for a
   * truncated sequence, a stray continuation octet, an overlong form, a
   * surrogate or a value above U+10FFFF.
   */
  function DecodeChar(b: seq<byte>): (r: Option<(char, nat)>)
    requires |b| > 0
    ensures r.Some? ==> 1 <= r.value.1 <= |b|
  {
    var b0 := b[0] as int;
    if b0 < 0x80 then Some((b0 as char, 1))
    else if 0xC2 <= b0 < 0xE0 then
      if |b| >= 2 && IsContinuation(b[1]) then
        Some((((b0 - 0xC0) * 64 + (b[1] as int - 0x80)) as char, 2))
      else None
    else if 0xE0 <= b0 < 0xF0 then
      if |b| >= 3 && IsContinuation(b[1]) && IsContinuation(b[2]) then
        var n := (b0 - 0xE0) * 4096 + (b[1] as int - 0x80) * 64 + (b[2] as int - 0x80);
        if 0x800 <= n && !(0xD800 <= n < 0xE000) then Some((n as char, 3)) else None
      else None
    else if 0xF0 <= b0 < 0xF5 then
      if |b| >= 4 && IsContinuation(b[1]) && IsContinuation(b[2]) && IsContinuation(b[3]) then
        var n := (b0 - 0xF0) * 0x4_0000 + (b[1] as int - 0x80) * 4096 + (b[2] as int - 0x80) * 64 + (b[3] as int - 0x80);
        if 0x1_0000 <= n < 0x11_0000 then Some((n as char, 4)) else None
      else None
    else None
  }

  /** Strict decoding: `None` unless `b` is the UTF-8 encoding of some string. */
  function Decode(b: seq<byte>): (r: Option<string>)
    decreases |b|
  {
    if |b| == 0 then Some("")
    else
      match DecodeChar(b)
      case None => None
      case Some((c, n)) =>
        match Decode(b[n..])
        case None => None
        case Some(s) => Some([c] + s)
  }

  /** The encoding of one character decodes to it, whatever follows. */
  lemma DecodeEncodeChar(c: char, rest: seq<byte>)
    ensures DecodeChar(EncodeChar(c) + rest) == Some((c, |EncodeChar(c)|))
  {
    var b := EncodeChar(c) + rest;
    var n := c as int;
    if n < 0x80 {
    } else if n < 0x800 {
      assert b[0] as int == 0xC0 + n / 64 && b[1] as int == 0x80 + n % 64;
    } else if n < 0x1_0000 {
      var hi, low := n / 4096, n % 4096;
      assert b[0] as int == 0xE0 + hi && b[1] as int == 0x80 + low / 64 && b[2] as int == 0x80 + low % 64;
    } else {
      var hi, rest := n / 0x4_0000, n % 0x4_0000;
      var mid, low := rest / 4096, rest % 4096;
      assert b[0] as int == 0xF0 + hi && b[1] as int == 0x80 + mid;
      assert b[2] as int == 0x80 + low / 64 && b[3] as int == 0x80 + low % 64;
    }
  }

  /** Decoding gives back every string. */
  lemma {:induction false} DecodeEncode(s: string)
    ensures Decode(Encode(s)) == Some(s)
    decreases |s|
  {
    if |s| > 0 {
      var head, tail := EncodeChar(s[0]), Encode(s[1..]);
      DecodeEncodeChar(s[0], tail);
      DecodeEncode(s[1..]);
      assert (head + tail)[|head|..] == tail;
      assert s == [s[0]] + s[1..];
    }
  }

  lemma Split2(x: int, y: int)
    requires 0 <= x && 0 <= y < 64
    ensures (x * 64 + y) / 64 == x && (x * 64 + y) % 64 == y
  {
  }

  lemma Split3(x: int, y: int, z: int)
    requires 0 <= x && 0 <= y < 64 && 0 <= z < 64
    ensures var n := x * 4096 + y * 64 + z; n / 4096 == x && (n % 4096) / 64 == y && (n % 4096) % 64 == z
  {
    var n := x * 4096 + y * 64 + z;
    assert n == x * 4096 + (y * 64 + z);
    Split2(y, z);
  }

  lemma Split4(w: int, x: int, y: int, z: int)
    requires 0 <= w && 0 <= x < 64 && 0 <= y < 64 && 0 <= z < 64
    ensures var n := w * 0x4_0000 + x * 4096 + y * 64 + z;
      && n / 0x4_0000 == w && (n % 0x4_0000) / 4096 == x
      && ((n % 0x4_0000) % 4096) / 64 == y && ((n % 0x4_0000) % 4096) % 64 == z
  {
    var n := w * 0x4_0000 + x * 4096 + y * 64 + z;
    assert n == w * 0x4_0000 + (x * 4096 + y * 64 + z);
    Split3(x, y, z);
  }

  /** What one decoding step accepts is exactly the encoding of the character it yields. */
  lemma EncodeDecodeChar(b: seq<byte>)
    requires |b| > 0 && DecodeChar(b).Some?
    ensures var (c, n) := DecodeChar(b).value; b[..n] == EncodeChar(c)
  {
    var b0 := b[0] as int;
    var (c, n) := DecodeChar(b).value;
    if b0 < 0x80 {
    } else if b0 < 0xE0 {
      Split2(b0 - 0xC0, b[1] as int - 0x80);
      assert b[..2] == [b[0], b[1]];
    } else if b0 < 0xF0 {
      Split3(b0 - 0xE0, b[1] as int - 0x80, b[2] as int - 0x80);
      assert b[..3] == [b[0], b[1], b[2]];
    } else {
      Split4(b0 - 0xF0, b[1] as int - 0x80, b[2] as int - 0x80, b[3] as int - 0x80);
      assert b[..4] == [b[0], b[1], b[2], b[3]];
    }
  }

  /** One step of a successful decoding: the first character, its octets, and the rest. */
  lemma DecodeStep(b: seq<byte>) returns (c: char, n: nat)
    requires |b| > 0 && Decode(b).Some?
    ensures DecodeChar(b) == Some((c, n)) && 1 <= n <= |b|
    ensures Decode(b[n..]).Some? && Decode(b).value == [c] + Decode(b[n..]).value
    ensures b[..n] == EncodeChar(c)
  {
    c, n := DecodeChar(b).value.0, DecodeChar(b).value.1;
    EncodeDecodeChar(b);
  }

  lemma EncodeCons(c: char, t: string, b: seq<byte>, n: nat)
    requires n <= |b| && b[..n] == EncodeChar(c) && Encode(t) == b[n..]
    ensures Encode([c] + t) == b
  {
    var s := [c] + t;
    assert s[0] == c && s[1..] == t;
    assert b == b[..n] + b[n..];
  }

  /** Only well-formed UTF-8 decodes, and it re-encodes to the same octets. */
  lemma {:induction false} EncodeDecode(b: seq<byte>)
    requires Decode(b).Some?
    ensures Encode(Decode(b).value) == b
    decreases |b|
  {
    if |b| > 0 {
      var c, n := DecodeStep(b);
      var t := Decode(b[n..]).value;
      EncodeDecode(b[n..]);
      EncodeCons(c, t, b, n);
    }
  }

  /** One scalar value from each of the two-, three- and four-octet ranges of section 3 of RFC 3629. */
  lemma Rfc3629Vectors()
    ensures Encode("\U{E9}") == [0xC3, 0xA9]
    ensures Encode("\U{20AC}") == [0xE2, 0x82, 0xAC]
    ensures Encode("\U{1F600}") == [0xF0, 0x9F, 0x98, 0x80]
  {
    assert EncodeChar('\U{E9}') == [0xC3, 0xA9];
    assert EncodeChar('\U{20AC}') == [0xE2, 0x82, 0xAC];
    assert EncodeChar('\U{1F600}') == [0xF0, 0x9F, 0x98, 0x80];
    SingleChar('\U{E9}');
    SingleChar('\U{20AC}');
    SingleChar('\U{1F600}');
  }

  lemma SingleChar(c: char)
    ensures Encode([c]) == EncodeChar(c)
  {
    assert [c][1..] == [];
  }
}
