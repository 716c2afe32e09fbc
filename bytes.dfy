/**
 * Byte strings and the Python byte-level primitives the object store uses:
 * `bytes.find`, slicing with negative indices, `bytes.hex`, `bytes.fromhex`,
 * `str(n)` for a length, and `int(...)` applied to a byte string.
 */
module Bytes {
  import opened Wrappers

  newtype byte = x: int | 0 <= x < 256

  const NUL: byte := 0
  const SPACE: byte := 0x20

  /** Python's normalisation of a slice or search bound against a length `n`. */
  function Clamp(n: nat, i: int): (r: nat)
    ensures r <= n
    ensures 0 <= i <= n ==> r == i
    ensures i > n ==> r == n
    ensures i < 0 && i + n >= 0 ==> r == i + n
    ensures i + n < 0 ==> r == 0
  {
    if i < 0 then (if i + n < 0 then 0 else i + n) else if i > n then n else i
  }

  /** `s[a:b]` with Python semantics (negative bounds count from the end, out of range bounds clamp). */
  function Slice<T>(s: seq<T>, a: int, b: int): (r: seq<T>)
    ensures 0 <= a <= b <= |s| ==> r == s[a..b]
    ensures |r| <= |s|
  {
    var lo, hi := Clamp(|s|, a), Clamp(|s|, b);
    if lo < hi then s[lo..hi] else []
  }

  function FindFrom(s: seq<byte>, b: byte, k: nat): (r: int)
    decreases |s| - k
    ensures r == -1 || (k <= r < |s| && s[r] == b)
  {
    if k >= |s| then -1 else if s[k] == b then k else FindFrom(s, b, k + 1)
  }

  /** The search finds the first occurrence at or after `k`: no earlier one, and none at all on -1. */
  lemma {:induction false} FindFromFirst(s: seq<byte>, b: byte, k: nat)
    decreases |s| - k
    ensures var r := FindFrom(s, b, k);
      && (r == -1 ==> forall m :: k <= m < |s| ==> s[m] != b)
      && (r != -1 ==> forall m :: k <= m < r ==> s[m] != b)
  {
    if k < |s| && s[k] != b {
      FindFromFirst(s, b, k + 1);
    }
  }

  /** `s.find(bytes([b]), start)`: the first index at or after `start` holding `b`, or -1. */
  function Find(s: seq<byte>, b: byte, start: int): (r: int)
  {
    FindFrom(s, b, Clamp(|s|, start))
  }

  lemma FindFirst(s: seq<byte>, b: byte, start: nat, r: nat)
    requires start <= r < |s| && s[r] == b
    requires forall m :: start <= m < r ==> s[m] != b
    ensures Find(s, b, start) == r
  {
    FindFromFirst(s, b, start);
  }

  /* ---------------- hexadecimal ---------------- */

  predicate IsLowerHexDigit(c: char) { '0' <= c <= '9' || 'a' <= c <= 'f' }

  /** The characters `bytes.fromhex` accepts as digits (either case). */
  predicate IsHexDigit(c: char) { '0' <= c <= '9' || 'a' <= c <= 'f' || 'A' <= c <= 'F' }

  /** ASCII whitespace, which `bytes.fromhex` skips between byte pairs and `int()` strips. */
  predicate IsAsciiSpace(c: char) { c == ' ' || c == '\t' || c == '\n' || c == '\r' || c == '\U{b}' || c == '\U{c}' }

  function HexValue(c: char): (v: nat)
    requires IsHexDigit(c)
    ensures v < 16
  {
    if '0' <= c <= '9' then c as int - '0' as int
    else if 'a' <= c <= 'f' then c as int - 'a' as int + 10
    else c as int - 'A' as int + 10
  }

  function HexDigit(v: nat): (c: char)
    requires v < 16
    ensures IsLowerHexDigit(c) && HexValue(c) == v
  {
    if v < 10 then ('0' as int + v) as char else ('a' as int + v - 10) as char
  }

  /** `bytes.hex()`: two lower-case hex digits per byte. */
  function ToHex(bs: seq<byte>): (s: string)
    ensures |s| == 2 * |bs|
    ensures forall k :: 0 <= k < |s| ==> IsLowerHexDigit(s[k])
  {
    if bs == [] then [] else [HexDigit(bs[0] as int / 16), HexDigit(bs[0] as int % 16)] + ToHex(bs[1..])
  }

  /** `bytes.fromhex(s)`: ASCII whitespace between byte pairs is skipped; anything else malformed raises. */
  function FromHex(s: string): (r: Option<seq<byte>>)
    decreases |s|
  {
    if s == [] then Some([])
    else if IsAsciiSpace(s[0]) then FromHex(s[1..])
    else if |s| >= 2 && IsHexDigit(s[0]) && IsHexDigit(s[1]) then
      match FromHex(s[2..])
      case None => None
      case Some(rest) => Some([(16 * HexValue(s[0]) + HexValue(s[1])) as byte] + rest)
    else None
  }

  /** A SHA-1 hex digest as `hexdigest()` renders it. */
  predicate IsHexSha(s: string) { |s| == 40 && forall k :: 0 <= k < |s| ==> IsLowerHexDigit(s[k]) }

  lemma {:induction false} FromHexToHex(bs: seq<byte>)
    ensures FromHex(ToHex(bs)) == Some(bs)
  {
    if bs != [] {
      var h := ToHex(bs);
      assert h[2..] == ToHex(bs[1..]);
      FromHexToHex(bs[1..]);
      assert 16 * HexValue(h[0]) + HexValue(h[1]) == bs[0] as int;
      assert [bs[0]] + bs[1..] == bs;
    }
  }

  /** Two lower-case hex digits name a byte whose two digits they are. */
  lemma HexPair(a: char, b: char)
    requires IsLowerHexDigit(a) && IsLowerHexDigit(b)
    ensures var v := 16 * HexValue(a) + HexValue(b); v < 256 && HexDigit(v / 16) == a && HexDigit(v % 16) == b
  {
    var v := 16 * HexValue(a) + HexValue(b);
    assert v / 16 == HexValue(a) && v % 16 == HexValue(b);
  }

  /** Lower-case hex without whitespace survives `fromhex` followed by `hex()`. */
  lemma {:induction false} ToHexFromHex(s: string)
    requires |s| % 2 == 0
    requires forall k :: 0 <= k < |s| ==> IsLowerHexDigit(s[k])
    ensures FromHex(s).Some? && |FromHex(s).value| * 2 == |s| && ToHex(FromHex(s).value) == s
  {
    if s != [] {
      assert IsLowerHexDigit(s[0]) && IsLowerHexDigit(s[1]) && !IsAsciiSpace(s[0]);
      ToHexFromHex(s[2..]);
      HexPair(s[0], s[1]);
      var rest := FromHex(s[2..]).value;
      var b := (16 * HexValue(s[0]) + HexValue(s[1])) as byte;
      assert FromHex(s) == Some([b] + rest);
      assert ([b] + rest)[1..] == rest;
      assert ToHex([b] + rest) == [s[0], s[1]] + ToHex(rest);
      assert s == [s[0], s[1]] + s[2..];
    }
  }

  lemma HexShaBytes(sha: string)
    requires IsHexSha(sha)
    ensures FromHex(sha).Some? && |FromHex(sha).value| == 20 && ToHex(FromHex(sha).value) == sha
  {
    ToHexFromHex(sha);
  }

  /* ---------------- decimal ---------------- */

  function DigitChar(d: nat): (c: char)
    requires d < 10
  {
    ('0' as int + d) as char
  }

  /** `str(n)` for a non-negative integer: no sign, no leading zeros. */
  function Decimal(n: nat): (s: string)
    ensures |s| >= 1
    ensures forall k :: 0 <= k < |s| ==> '0' <= s[k] <= '9'
  {
    if n < 10 then [DigitChar(n)] else Decimal(n / 10) + [DigitChar(n % 10)]
  }

  /** The bytes of an ASCII string (each character below 128). */
  function Ascii(s: string): (r: seq<byte>)
    requires forall k :: 0 <= k < |s| ==> s[k] as int < 128
    ensures |r| == |s|
    ensures forall k :: 0 <= k < |s| ==> r[k] as int == s[k] as int
  {
    if s == [] then [] else [s[0] as int as byte] + Ascii(s[1..])
  }

  predicate IsDigitByte(b: byte) { '0' as int <= b as int <= '9' as int }

  predicate IsAsciiSpaceByte(b: byte) { b as int < 128 && IsAsciiSpace(b as int as char) }

  const UNDERSCORE: byte := 0x5F

  /**
   * The digit part `int()` accepts: digits, with single underscores allowed between two digits.
   */
  predicate IsDigitGroup(t: seq<byte>)
  {
    && |t| > 0
    && IsDigitByte(t[0]) && IsDigitByte(t[|t| - 1])
    && (forall k :: 0 <= k < |t| ==> IsDigitByte(t[k]) || t[k] == UNDERSCORE)
    && (forall k :: 0 <= k < |t| - 1 ==> t[k] == UNDERSCORE ==> t[k + 1] != UNDERSCORE)
  }

  /** The value of a digit group, underscores ignored. */
  function DigitsValue(t: seq<byte>): (v: nat)
  {
    if t == [] then 0
    else if IsDigitByte(t[|t| - 1]) then 10 * DigitsValue(t[..|t| - 1]) + (t[|t| - 1] as int - '0' as int)
    else DigitsValue(t[..|t| - 1])
  }

  function TrimAsciiSpace(t: seq<byte>): (r: seq<byte>)
    ensures |r| <= |t|
    decreases |t|
  {
    if t != [] && IsAsciiSpaceByte(t[0]) then TrimAsciiSpace(t[1..])
    else if t != [] && IsAsciiSpaceByte(t[|t| - 1]) then TrimAsciiSpace(t[..|t| - 1])
    else t
  }

  /**
   * `int(t)` for a byte string `t` in base 10: surrounding ASCII whitespace, an optional sign,
   * then a digit group; anything else raises `ValueError` (None here).
   */
  function ParseInt(t: seq<byte>): (r: Option<int>)
  {
    var u := TrimAsciiSpace(t);
    if |u| > 0 && (u[0] as int == '+' as int || u[0] as int == '-' as int) then
      if IsDigitGroup(u[1..]) then
        Some(if u[0] as int == '-' as int then -(DigitsValue(u[1..]) as int) else DigitsValue(u[1..]))
      else None
    else if IsDigitGroup(u) then Some(DigitsValue(u))
    else None
  }

  lemma {:induction false} DecimalValue(n: nat)
    ensures DigitsValue(Ascii(Decimal(n))) == n
    ensures IsDigitGroup(Ascii(Decimal(n)))
  {
    var a := Ascii(Decimal(n));
    if n >= 10 {
      DecimalValue(n / 10);
      assert Decimal(n) == Decimal(n / 10) + [DigitChar(n % 10)];
      AsciiAppend(Decimal(n / 10), [DigitChar(n % 10)]);
      assert a[..|a| - 1] == Ascii(Decimal(n / 10));
    }
  }

  lemma AsciiAppend(s: string, t: string)
    requires forall k :: 0 <= k < |s| ==> s[k] as int < 128
    requires forall k :: 0 <= k < |t| ==> t[k] as int < 128
    ensures Ascii(s + t) == Ascii(s) + Ascii(t)
  {
    var l, r := Ascii(s + t), Ascii(s) + Ascii(t);
    forall k | 0 <= k < |l| ensures l[k] == r[k] {
      if k < |s| {
        assert r[k] == Ascii(s)[k];
      } else {
        assert r[k] == Ascii(t)[k - |s|];
      }
    }
  }

  /** `int(str(n).encode())` gives back `n`. */
  lemma ParseDecimal(n: nat)
    ensures ParseInt(Ascii(Decimal(n))) == Some(n)
  {
    var a := Ascii(Decimal(n));
    DecimalValue(n);
    assert TrimAsciiSpace(a) == a by {
      assert !IsAsciiSpaceByte(a[0]) && !IsAsciiSpaceByte(a[|a| - 1]);
    }
  }
}
