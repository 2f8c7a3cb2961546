/**
 * The JavaScript built-ins that the proof pipeline's data shaping relies on,
 * stated on integers and character sequences: the byte type of a Uint8Array
 * and its ToUint8 conversion, Number.prototype.toString(16),
 * String.prototype.padStart, repeat and slice, and parseInt with radix 16.
 */
module JsSemantics {

  /** An element of a Uint8Array. */
  type byte = x: int | 0 <= x < 256

  /** The integer-valued JavaScript numbers the pipeline produces, plus NaN. */
  datatype JsNumber = NaN | Num(value: int)

  /** Storing a number into a Uint8Array: NaN becomes 0, anything else is taken modulo 256. */
  function ToUint8(v: JsNumber): (b: byte)
    ensures v.Num? && 0 <= v.value < 256 ==> b == v.value
    ensures v.NaN? ==> b == 0
  {
    match v
    case NaN => 0
    case Num(x) => x % 256
  }

  function Min(a: int, b: int): int { if a <= b then a else b }

  function Max(a: int, b: int): int { if a <= b then b else a }

  // ---------------------------------------------------------------------------
  // Hex digits

  /** A digit of radix 16, in either case. */
  predicate IsHexDigit(c: char) {
    ('0' <= c <= '9') || ('a' <= c <= 'f') || ('A' <= c <= 'F')
  }

  /** A digit as Number.prototype.toString(16) writes it. */
  predicate IsLowerHexDigit(c: char) {
    ('0' <= c <= '9') || ('a' <= c <= 'f')
  }

  function HexDigitValue(c: char): (v: nat)
    requires IsHexDigit(c)
    ensures v < 16
  {
    if '0' <= c <= '9' then c as int - '0' as int
    else if 'a' <= c <= 'f' then c as int - 'a' as int + 10
    else c as int - 'A' as int + 10
  }

  /** The lowercase digit for a nibble. */
  function HexChar(n: nat): (c: char)
    requires n < 16
    ensures IsLowerHexDigit(c) && HexDigitValue(c) == n
  {
    if n < 10 then ('0' as int + n) as char else ('a' as int + n - 10) as char
  }

  /** ASCII lower-casing, the case normalisation that hex encoding applies. */
  function ToLowerAscii(c: char): char {
    if 'A' <= c <= 'Z' then (c as int + 32) as char else c
  }

  lemma HexCharOfValue(c: char)
    requires IsHexDigit(c)
    ensures HexChar(HexDigitValue(c)) == ToLowerAscii(c)
  {
  }

  // ---------------------------------------------------------------------------
  // Number.prototype.toString(16) on non-negative integers

  /** The shortest lowercase base-16 numeral of n. */
  function NumberToHexString(n: nat): (s: string)
    ensures 1 <= |s|
    ensures forall i :: 0 <= i < |s| ==> IsLowerHexDigit(s[i])
    decreases n
  {
    if n < 16 then [HexChar(n)] else NumberToHexString(n / 16) + [HexChar(n % 16)]
  }

  // ---------------------------------------------------------------------------
  // String.prototype.repeat, padStart and slice

  /** c.repeat(n) for a one-character string c. */
  function Repeat(c: char, n: nat): (s: string)
    ensures |s| == n
    ensures forall i :: 0 <= i < n ==> s[i] == c
  {
    if n == 0 then [] else [c] + Repeat(c, n - 1)
  }

  /** s.padStart(targetLength, fill) for a one-character fill string. */
  function PadStart(s: string, targetLength: int, fill: char): (r: string)
    ensures |r| == Max(|s|, targetLength)
    ensures r[|r| - |s|..] == s
    ensures forall i :: 0 <= i < |r| - |s| ==> r[i] == fill
  {
    if |s| >= targetLength then s else Repeat(fill, targetLength - |s|) + s
  }

  /** s.slice(start) for an integer start: a negative start counts from the end. */
  function SliceFrom(s: string, start: int): (r: string)
    ensures 0 <= start <= |s| ==> r == s[start..]
    ensures start > |s| ==> r == []
    ensures start < 0 ==> r == s[Max(|s| + start, 0)..]
  {
    var from := if start < 0 then Max(|s| + start, 0) else Min(start, |s|);
    s[from..]
  }

  /** s.slice(start, end) for 0 <= start; the end is clamped to the length. */
  function Slice(s: string, start: nat, end: nat): (r: string)
    requires start <= |s|
    ensures |r| == Max(Min(end, |s|) - start, 0)
    ensures start <= end ==> r == s[start..Min(end, |s|)]
  {
    var e := Min(end, |s|);
    if e <= start then [] else s[start..e]
  }

  // ---------------------------------------------------------------------------
  // parseInt(s, 16)

  /** The white space and line terminators that parseInt skips before a numeral. */
  predicate IsJsWhiteSpace(c: char) {
    || c == '\t' || c == '\n' || c == '\U{B}' || c == '\U{C}' || c == '\r'
    || c == ' ' || c == '\U{A0}' || c == '\U{1680}'
    || ('\U{2000}' <= c <= '\U{200A}')
    || c == '\U{2028}' || c == '\U{2029}' || c == '\U{202F}' || c == '\U{205F}'
    || c == '\U{3000}' || c == '\U{FEFF}'
  }

  /** s with its leading white space removed. */
  function TrimStart(s: string): string {
    if s != [] && IsJsWhiteSpace(s[0]) then TrimStart(s[1..]) else s
  }

  /** The longest prefix of s made of radix-16 digits. */
  function HexDigitPrefix(s: string): (z: string)
    ensures |z| <= |s| && z == s[..|z|]
    ensures forall i :: 0 <= i < |z| ==> IsHexDigit(z[i])
    ensures |z| < |s| ==> !IsHexDigit(s[|z|])
  {
    if s != [] && IsHexDigit(s[0]) then [s[0]] + HexDigitPrefix(s[1..]) else []
  }

  /** The value of a big-endian numeral of radix-16 digits. */
  function HexValue(z: string): nat
    requires forall i :: 0 <= i < |z| ==> IsHexDigit(z[i])
  {
    if z == [] then 0 else HexValue(z[..|z| - 1]) * 16 + HexDigitValue(z[|z| - 1])
  }

  /** The numeral after an optional sign character. */
  function DropSign(t: string): string {
    if t != [] && (t[0] == '-' || t[0] == '+') then t[1..] else t
  }

  /** The numeral after an optional "0x" or "0X" prefix, which radix 16 admits. */
  function DropHexPrefix(u: string): string {
    if |u| >= 2 && u[0] == '0' && (u[1] == 'x' || u[1] == 'X') then u[2..] else u
  }

  /**
   * parseInt(s, 16): skip leading white space, take an optional sign, drop a
   * "0x"/"0X" prefix, then read the longest run of hex digits; NaN if that run
   * is empty.
   */
  function ParseInt16(s: string): JsNumber {
    var t := TrimStart(s);
    var z := HexDigitPrefix(DropHexPrefix(DropSign(t)));
    if z == [] then NaN
    else if t[0] == '-' then Num(-(HexValue(z) as int))
    else Num(HexValue(z))
  }

  /** Two hex digits parse to the byte they spell, high nibble first. */
  lemma ParseTwoHexDigits(a: char, b: char)
    requires IsHexDigit(a) && IsHexDigit(b)
    ensures ParseInt16([a, b]) == Num(16 * HexDigitValue(a) + HexDigitValue(b))
  {
    assert !IsJsWhiteSpace(a);
    assert TrimStart([a, b]) == [a, b];
    assert HexDigitPrefix([b]) == [b] by {
      assert HexDigitPrefix([b][1..]) == [];
    }
    assert HexDigitPrefix([a, b]) == [a, b] by {
      assert [a, b][1..] == [b];
    }
    assert [a, b][..1] == [a];
    assert HexValue([a]) == HexDigitValue(a) by {
      assert [a][..0] == [];
    }
  }

  /** A lone trailing hex digit parses to its own value. */
  lemma ParseOneHexDigit(a: char)
    requires IsHexDigit(a)
    ensures ParseInt16([a]) == Num(HexDigitValue(a))
  {
    assert !IsJsWhiteSpace(a);
    assert TrimStart([a]) == [a];
    assert HexDigitPrefix([a]) == [a] by {
      assert [a][1..] == [];
    }
    assert [a][..0] == [];
    assert HexValue([a]) == HexDigitValue(a);
  }
}
