/**
 * UTF-8 as Python's `str.encode()` and strict `bytes.decode()` apply it: the commit payload is
 * encoded text and each tree entry header is encoded text.
 */
module Utf8 {
  import opened Wrappers
  import opened Bytes

  predicate IsCont(b: byte) { 0x80 <= b as int <= 0xBF }

  function EncodeChar(c: char): (r: seq<byte>)
    ensures 1 <= |r| <= 4
    ensures (c as int) < 0x80 ==> r == [c as int as byte]
    ensures (c as int) >= 0x80 ==> forall k :: 0 <= k < |r| ==> r[k] as int >= 0x80
  {
    var n := c as int;
    if n < 0x80 then [n as byte]
    else if n < 0x800 then [(0xC0 + n / 64) as byte, (0x80 + n % 64) as byte]
    else if n < 0x10000 then
      var r := n % 4096;
      [(0xE0 + n / 4096) as byte, (0x80 + r / 64) as byte, (0x80 + r % 64) as byte]
    else
      var r1 := n % 262144;
      var r2 := r1 % 4096;
      [(0xF0 + n / 262144) as byte, (0x80 + r1 / 4096) as byte, (0x80 + r2 / 64) as byte, (0x80 + r2 % 64) as byte]
  }

  /** `s.encode()`: the concatenated encodings of its characters. */
  function Encode(s: string): (r: seq<byte>)
    ensures |r| >= |s|
  {
    if s == [] then [] else EncodeChar(s[0]) + Encode(s[1..])
  }

  /**
   * The character at the front of `b` and the number of bytes it occupies, or None where a
   * strict decoder raises (an invalid lead byte, a missing or out-of-range continuation byte,
   * an overlong form, a surrogate, a value above U+10FFFF).
   */
  function DecodeChar(b: seq<byte>): (r: Option<(char, nat)>)
    requires |b| > 0
    ensures r.Some? ==> 1 <= r.value.1 <= |b| && r.value.1 <= 4
  {
    var b0 := b[0] as int;
    if b0 < 0x80 then Some((b0 as char, 1))
    else if 0xC2 <= b0 <= 0xDF then
      if |b| >= 2 && IsCont(b[1]) then
        Some((((b0 - 0xC0) * 64 + (b[1] as int - 0x80)) as char, 2))
      else None
    else if 0xE0 <= b0 <= 0xEF then
      var lo := if b0 == 0xE0 then 0xA0 else 0x80;
      var hi := if b0 == 0xED then 0x9F else 0xBF;
      if |b| >= 3 && lo <= b[1] as int <= hi && IsCont(b[2]) then
        Some((((b0 - 0xE0) * 4096 + (b[1] as int - 0x80) * 64 + (b[2] as int - 0x80)) as char, 3))
      else None
    else if 0xF0 <= b0 <= 0xF4 then
      var lo := if b0 == 0xF0 then 0x90 else 0x80;
      var hi := if b0 == 0xF4 then 0x8F else 0xBF;
      if |b| >= 4 && lo <= b[1] as int <= hi && IsCont(b[2]) && IsCont(b[3]) then
        Some((((b0 - 0xF0) * 262144 + (b[1] as int - 0x80) * 4096 + (b[2] as int - 0x80) * 64
               + (b[3] as int - 0x80)) as char, 4))
      else None
    else None
  }

  /** `b.decode()`: None where Python raises `UnicodeDecodeError`. */
  function Decode(b: seq<byte>): (r: Option<string>)
    decreases |b|
  {
    if b == [] then Some([])
    else match DecodeChar(b)
      case None => None
      case Some((c, k)) =>
        match Decode(b[k..])
        case None => None
        case Some(s) => Some([c] + s)
  }

  lemma DecodeEncodeChar(c: char, rest: seq<byte>)
    ensures var e := EncodeChar(c); DecodeChar(e + rest) == Some((c, |e|))
  {
    var n := c as int;
    if n < 0x80 {
    } else if n < 0x800 {
      DecodeTwo(c, rest);
    } else if n < 0x10000 {
      DecodeThree(c, rest);
    } else {
      DecodeFour(c, rest);
    }
  }

  lemma DecodeTwo(c: char, rest: seq<byte>)
    requires 0x80 <= c as int < 0x800
    ensures var e := EncodeChar(c); DecodeChar(e + rest) == Some((c, |e|))
  {
    var n := c as int;
    var b := EncodeChar(c) + rest;
    assert b[0] as int == 0xC0 + n / 64 && b[1] as int == 0x80 + n % 64;
    assert ((b[0] as int - 0xC0) * 64 + (b[1] as int - 0x80)) == n;
  }

  lemma DecodeThree(c: char, rest: seq<byte>)
    requires 0x800 <= c as int < 0x10000
    ensures var e := EncodeChar(c); DecodeChar(e + rest) == Some((c, |e|))
  {
    var n := c as int;
    var b := EncodeChar(c) + rest;
    var r := n % 4096;
    assert n == (n / 4096) * 4096 + (r / 64) * 64 + r % 64;
    assert b[0] as int == 0xE0 + n / 4096 && b[1] as int == 0x80 + r / 64 && b[2] as int == 0x80 + r % 64;
  }

  lemma DecodeFour(c: char, rest: seq<byte>)
    requires 0x10000 <= c as int
    ensures var e := EncodeChar(c); DecodeChar(e + rest) == Some((c, |e|))
  {
    var n := c as int;
    var b := EncodeChar(c) + rest;
    var r1 := n % 262144;
    var r2 := r1 % 4096;
    assert n == (n / 262144) * 262144 + (r1 / 4096) * 4096 + (r2 / 64) * 64 + r2 % 64;
    assert b[0] as int == 0xF0 + n / 262144 && b[1] as int == 0x80 + r1 / 4096;
    assert b[2] as int == 0x80 + r2 / 64 && b[3] as int == 0x80 + r2 % 64;
  }

  lemma {:induction false} EncodeAppend(s: string, t: string)
    ensures Encode(s + t) == Encode(s) + Encode(t)
  {
    if s != [] {
      assert (s + t)[1..] == s[1..] + t;
      EncodeAppend(s[1..], t);
      assert Encode(s + t) == EncodeChar(s[0]) + Encode(s[1..] + t);
    } else {
      assert s + t == t;
    }
  }

  /** Strict decoding inverts encoding: every string survives `encode` then `decode`. */
  lemma {:induction false} DecodeEncode(s: string)
    ensures Decode(Encode(s)) == Some(s)
  {
    if s != [] {
      var e := EncodeChar(s[0]);
      DecodeEncodeChar(s[0], Encode(s[1..]));
      assert (e + Encode(s[1..]))[|e|..] == Encode(s[1..]);
      DecodeEncode(s[1..]);
      assert [s[0]] + s[1..] == s;
    }
  }

  /**
   * An ASCII character `c` is absent from `s` exactly when its byte is absent from `s.encode()`:
   * the bytes of a multi-byte sequence are all at least 0x80.
   */
  lemma {:induction false} EncodeAsciiAbsent(s: string, c: char)
    requires c as int < 0x80
    requires forall k :: 0 <= k < |s| ==> s[k] != c
    ensures forall k :: 0 <= k < |Encode(s)| ==> Encode(s)[k] as int != c as int
  {
    if s != [] {
      EncodeAsciiAbsent(s[1..], c);
      var e := EncodeChar(s[0]);
      assert Encode(s) == e + Encode(s[1..]);
      forall k | 0 <= k < |Encode(s)| ensures Encode(s)[k] as int != c as int {
        if k >= |e| {
          assert Encode(s)[k] == Encode(s[1..])[k - |e|];
        }
      }
    }
  }

  lemma EncodeAscii(s: string)
    requires forall k :: 0 <= k < |s| ==> s[k] as int < 128
    ensures Encode(s) == Ascii(s)
  {
    if s != [] {
      EncodeAscii(s[1..]);
    }
  }
}
