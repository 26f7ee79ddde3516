/**
  ASCII helpers of the example program: `util_to_lower`, the lower-casing
  that `log_info` gets from `strlwr`, the upper-case hexadecimal digits
  that `sprintf("%2.2X")` prints, and the decimal digits and left padding
  of the `%u` and `%5u` conversions in `log_info`.
 */
module Ascii {
  import opened CStrings

  const Escape: char := 27 as char

  predicate IsUpper(c: char) {
    0x41 <= c as int <= 0x5A
  }

  /** One byte through the loop body of `util_to_lower`: an upper-case letter
      gets bit 5 set, anything else is kept. */
  function LowerChar(c: char): (d: char)
    ensures IsUpper(c) ==> d as int == c as int + 0x20 && 'a' <= d <= 'z'
    ensures !IsUpper(c) ==> d == c
  {
    if IsUpper(c) then ((c as int as bv8 | 0x20) as int) as char else c
  }

  /** `s` with every upper-case ASCII letter lowered. */
  function ToLower(s: string): (t: string)
    ensures |t| == |s|
    ensures forall k :: 0 <= k < |s| ==> t[k] == LowerChar(s[k])
  {
    seq(|s|, k requires 0 <= k < |s| => LowerChar(s[k]))
  }

  /** `util_to_lower`: walks the string with a `UINT8` index up to its
      terminator, so the string must be shorter than 256 bytes (past that the
      index wraps to 0 before reaching the terminator and the loop never
      ends). */
  method UtilToLower(s: string) returns (t: string)
    requires Nul !in s && |s| < 256
    ensures |t| == |s|
    ensures forall k :: 0 <= k < |s| && IsUpper(s[k]) ==> t[k] as int == s[k] as int + 0x20
    ensures forall k :: 0 <= k < |s| && !IsUpper(s[k]) ==> t[k] == s[k]
    ensures t == ToLower(s)
  {
    t := s;
    var p: int := 0;
    while At(t, p) != Nul
      invariant 0 <= p <= |s| && |t| == |s|
      invariant forall k :: 0 <= k < p ==> t[k] == LowerChar(s[k])
      invariant forall k :: p <= k < |s| ==> t[k] == s[k]
      invariant Nul !in t
      decreases |s| - p
    {
      if IsUpper(t[p]) {
        t := t[p := LowerChar(t[p])];
      }
      p := (p + 1) % 256;
    }
  }

  /** Lowering twice is lowering once. */
  lemma ToLowerIdempotent(s: string)
    ensures ToLower(ToLower(s)) == ToLower(s)
  {
    assert forall k :: 0 <= k < |s| ==> !IsUpper(LowerChar(s[k]));
  }

  /** The upper-case hexadecimal digit of `d`. */
  function HexDigit(d: nat): (c: char)
    requires d < 16
    ensures '0' <= c <= '9' || 'A' <= c <= 'F'
  {
    if d < 10 then ('0' as int + d) as char else ('A' as int + d - 10) as char
  }

  /** The value of an upper-case hexadecimal digit, if `c` is one. */
  function HexValue(c: char): (v: int)
    ensures -1 <= v < 16
  {
    if '0' <= c <= '9' then c as int - '0' as int
    else if 'A' <= c <= 'F' then c as int - 'A' as int + 10
    else -1
  }

  lemma HexDigitValue(d: nat)
    requires d < 16
    ensures HexValue(HexDigit(d)) == d
  {
  }

  lemma HexValueDigit(c: char)
    requires HexValue(c) >= 0
    ensures HexDigit(HexValue(c)) == c
  {
  }

  /** `%2.2X`: two upper-case digits, high nibble first. */
  function Hex2(b: Byte): (s: string)
    ensures |s| == 2
    ensures HexValue(s[0]) >= 0 && HexValue(s[1]) >= 0
    ensures HexValue(s[0]) * 16 + HexValue(s[1]) == b
  {
    HexDigitValue(b / 16);
    HexDigitValue(b % 16);
    [HexDigit(b / 16), HexDigit(b % 16)]
  }

  /** Any two upper-case hexadecimal digits are what `Hex2` prints for the
      byte they denote. */
  lemma Hex2OfDigits(hi: char, lo: char)
    requires HexValue(hi) >= 0 && HexValue(lo) >= 0
    ensures 0 <= HexValue(hi) * 16 + HexValue(lo) < 256
    ensures Hex2(HexValue(hi) * 16 + HexValue(lo)) == [hi, lo]
  {
    var b := HexValue(hi) * 16 + HexValue(lo);
    assert b / 16 == HexValue(hi) && b % 16 == HexValue(lo);
    HexValueDigit(hi);
    HexValueDigit(lo);
    assert Hex2(b) == [HexDigit(b / 16), HexDigit(b % 16)];
  }

  predicate IsDigit(c: char) {
    '0' <= c <= '9'
  }

  /** `%u`: the decimal digits of `n`, without leading zeros. */
  function Decimal(n: nat): (s: string)
    ensures |s| >= 1
    ensures forall k :: 0 <= k < |s| ==> IsDigit(s[k])
    ensures |s| > 1 ==> s[0] != '0'
    decreases n
  {
    var last := ('0' as int + n % 10) as char;
    if n < 10 then [last] else Decimal(n / 10) + [last]
  }

  /** The number a string of decimal digits denotes. */
  function DecimalValue(s: string): int
    requires forall k :: 0 <= k < |s| ==> IsDigit(s[k])
    decreases |s|
  {
    if s == [] then 0
    else DecimalValue(s[..|s| - 1]) * 10 + (s[|s| - 1] as int - '0' as int)
  }

  lemma {:induction false} DecimalRoundTrip(n: nat)
    ensures DecimalValue(Decimal(n)) == n
    decreases n
  {
    if n >= 10 {
      DecimalRoundTrip(n / 10);
      var s := Decimal(n);
      assert s[..|s| - 1] == Decimal(n / 10);
    }
  }

  /** `%5u`: right-aligned in a field of five, wider numbers kept whole. */
  function PadLeft(s: string, width: nat): (r: string)
    ensures |r| == Max(width, |s|)
    ensures r[|r| - |s|..] == s
    ensures forall k :: 0 <= k < |r| - |s| ==> r[k] == ' '
  {
    seq(Max(width - |s|, 0), _ => ' ') + s
  }
}
