/**
 * JavaScript's `parseInt(string, 16)` and `String.prototype.slice(0, k)`,
 * as the `randomNumber` tool uses them to turn the beacon's hexadecimal
 * randomness into a number (my-mcp-server/src/index.ts, line 43).
 *
 * `ParseIntHex` follows the steps of parseInt in the ECMAScript language
 * specification (section 19.2.5 of ECMA-262) for radix 16: leading white
 * space is skipped, one sign is taken, a `0x`/`0X` prefix is dropped, the
 * longest run of hex digits is read, and an empty run is NaN (`None`).
 * The partner of the parser is `HexDigits`, which writes a value as a
 * fixed number of hex digits; reading them back gives the value.
 */
module HexParse {
  import opened Wrappers

  predicate IsHexDigit(c: char) {
    '0' <= c <= '9' || 'a' <= c <= 'f' || 'A' <= c <= 'F'
  }

  predicate AllHex(s: string) {
    forall i :: 0 <= i < |s| ==> IsHexDigit(s[i])
  }

  function HexDigitValue(c: char): (d: nat)
    requires IsHexDigit(c)
    ensures d < 16
  {
    if '0' <= c <= '9' then c as int - '0' as int
    else if 'a' <= c <= 'f' then c as int - 'a' as int + 10
    else c as int - 'A' as int + 10
  }

  /** The lower-case hex digit for `d`, as the beacon writes its randomness. */
  function HexChar(d: nat): (c: char)
    requires d < 16
    ensures IsHexDigit(c) && HexDigitValue(c) == d
  {
    if d < 10 then ('0' as int + d) as char else ('a' as int + d - 10) as char
  }

  /** The value of a run of hex digits, most significant first. */
  function HexValue(s: string): nat
    requires AllHex(s)
  {
    if s == [] then 0 else HexValue(s[..|s| - 1]) * 16 + HexDigitValue(s[|s| - 1])
  }

  function Pow16(k: nat): (p: nat)
    ensures p >= 1
  {
    if k == 0 then 1 else 16 * Pow16(k - 1)
  }

  lemma {:induction false} Pow16Monotone(j: nat, k: nat)
    requires j <= k
    ensures Pow16(j) <= Pow16(k)
    decreases k
  {
    if j < k {
      Pow16Monotone(j, k - 1);
    }
  }

  /** `k` hex digits hold a value below 16^k. */
  lemma {:induction false} HexValueBound(s: string)
    requires AllHex(s)
    ensures HexValue(s) < Pow16(|s|)
    decreases |s|
  {
    if s != [] {
      var init := s[..|s| - 1];
      HexValueBound(init);
      assert HexValue(s) == HexValue(init) * 16 + HexDigitValue(s[|s| - 1]);
      assert HexValue(init) * 16 <= (Pow16(|init|) - 1) * 16;
    }
  }

  /** `s.slice(0, k)`: the first `k` characters, or all of a shorter string. */
  function Slice(s: string, k: nat): (p: string)
    ensures |p| == if |s| < k then |s| else k
    ensures p == s[..|p|]
  {
    if |s| <= k then s else s[..k]
  }

  /**
   * The white space and line terminators that parseInt skips: TAB, VT, FF,
   * SP, NBSP, ZWNBSP, the other space separators of Unicode category Zs,
   * LF, CR, LS and PS.
   */
  predicate IsStrWhiteSpace(c: char) {
    || c == '\t' || c == '\U{000B}' || c == '\U{000C}' || c == ' '
    || c == '\U{00A0}' || c == '\U{FEFF}' || c == '\U{1680}'
    || ('\U{2000}' <= c <= '\U{200A}')
    || c == '\U{202F}' || c == '\U{205F}' || c == '\U{3000}'
    || c == '\n' || c == '\r' || c == '\U{2028}' || c == '\U{2029}'
  }

  /** The string with its leading white space removed. */
  function TrimStart(s: string): (t: string)
    ensures |t| <= |s| && t == s[|s| - |t|..]
    ensures forall i :: 0 <= i < |s| - |t| ==> IsStrWhiteSpace(s[i])
    ensures t == [] || !IsStrWhiteSpace(t[0])
  {
    if s != [] && IsStrWhiteSpace(s[0]) then TrimStart(s[1..]) else s
  }

  /** The length of the longest prefix of `s` made of hex digits. */
  function HexRun(s: string): (n: nat)
    ensures n <= |s| && AllHex(s[..n])
    ensures n < |s| ==> !IsHexDigit(s[n])
  {
    if s != [] && IsHexDigit(s[0]) then
      var n := 1 + HexRun(s[1..]);
      assert s[..n] == [s[0]] + s[1..][..n - 1];
      n
    else 0
  }

  /** The string with one leading `+` or `-` removed. */
  function DropSign(s: string): (t: string)
    ensures |t| <= |s|
  {
    if |s| > 0 && (s[0] == '+' || s[0] == '-') then s[1..] else s
  }

  /** The string with a leading `0x` or `0X` removed. */
  function DropHexPrefix(s: string): (t: string)
    ensures |t| <= |s|
  {
    if |s| >= 2 && s[0] == '0' && (s[1] == 'x' || s[1] == 'X') then s[2..] else s
  }

  /**
   * `parseInt(input, 16)`: `None` stands for NaN. A negative zero is
   * returned as 0, since the model has one zero (and `String(-0)` is "0").
   * A negative result needs a minus sign after the leading white space, and
   * since at most `|input|` digits are read, the magnitude stays below
   * 16^|input|.
   */
  function ParseIntHex(input: string): (r: Option<int>)
    ensures r.Some? && r.value < 0 ==> |TrimStart(input)| > 0 && TrimStart(input)[0] == '-'
    ensures r.Some? ==> -(Pow16(|input|) as int) < r.value < Pow16(|input|)
  {
    var s := TrimStart(input);
    var negative := |s| > 0 && s[0] == '-';
    var digits := DropHexPrefix(DropSign(s));
    var n := HexRun(digits);
    if n == 0 then None
    else
      var v: int := HexValue(digits[..n]);
      HexValueBound(digits[..n]);
      Pow16Monotone(n, |input|);
      Some(if negative then -v else v)
  }

  /** A string of hex digits alone parses to its hex value. */
  lemma ParseIntHexOfDigits(s: string)
    requires |s| > 0 && AllHex(s)
    ensures ParseIntHex(s) == Some(HexValue(s))
  {
    assert !IsStrWhiteSpace(s[0]);
    assert TrimStart(s) == s;
    assert DropSign(s) == s;
    assert |s| >= 2 ==> IsHexDigit(s[1]);
    assert DropHexPrefix(s) == s;
    assert HexRun(s) == |s|;
    assert s[..|s|] == s;
  }

  /**
   * parseInt stops at the first character that is not a hex digit: hex
   * digits `p` followed by anything that does not continue them parse to
   * the value of `p`. The one exception is "0" followed by `x` or `X`,
   * which is a hex prefix.
   */
  lemma ParseIntHexStopsAtNonHex(p: string, q: string)
    requires |p| > 0 && AllHex(p)
    requires q == [] || !IsHexDigit(q[0])
    requires !(p == "0" && |q| > 0 && (q[0] == 'x' || q[0] == 'X'))
    ensures ParseIntHex(p + q) == Some(HexValue(p))
  {
    assert (p + q)[0] == p[0];
    if |p + q| >= 2 {
      assert (p + q)[1] == if |p| >= 2 then p[1] else q[0];
    }
    ParseIntHexPlain(p + q);
    HexRunStops(p, q);
  }

  /**
   * A string whose first character is neither white space, a sign nor a
   * hex digit has no digits to read: parseInt gives NaN.
   */
  lemma ParseIntHexNoDigits(s: string)
    requires |s| > 0 && !IsHexDigit(s[0]) && !IsStrWhiteSpace(s[0])
    requires s[0] != '+' && s[0] != '-'
    ensures ParseIntHex(s).None?
  {
    ParseIntHexPlain(s);
  }

  /** Without white space, sign or `0x` in front, parseInt reads the hex run at the start. */
  lemma ParseIntHexPlain(s: string)
    requires |s| > 0 && !IsStrWhiteSpace(s[0]) && s[0] != '+' && s[0] != '-'
    requires !(|s| >= 2 && s[0] == '0' && (s[1] == 'x' || s[1] == 'X'))
    ensures ParseIntHex(s) == if HexRun(s) == 0 then None else Some(HexValue(s[..HexRun(s)]))
  {
    assert TrimStart(s) == s;
    assert DropSign(s) == s;
    assert DropHexPrefix(s) == s;
  }

  /** The hex run of digits `p` followed by a non-digit is exactly `p`. */
  lemma HexRunStops(p: string, q: string)
    requires AllHex(p)
    requires q == [] || !IsHexDigit(q[0])
    ensures HexRun(p + q) == |p| && (p + q)[..|p|] == p
  {
    assert (p + q)[..|p|] == p;
  }

  /** `v` written as exactly `k` hex digits (the low `k` digits of `v`). */
  function HexDigits(v: nat, k: nat): (s: string)
    ensures |s| == k && AllHex(s)
  {
    if k == 0 then "" else HexDigits(v / 16, k - 1) + [HexChar(v % 16)]
  }

  /** Reading back `k` hex digits of a value below 16^k gives the value. */
  lemma {:induction false} HexValueOfHexDigits(v: nat, k: nat)
    requires v < Pow16(k)
    ensures HexValue(HexDigits(v, k)) == v
    decreases k
  {
    if k > 0 {
      var s := HexDigits(v, k);
      assert s[..|s| - 1] == HexDigits(v / 16, k - 1);
      assert v / 16 < Pow16(k - 1);
      HexValueOfHexDigits(v / 16, k - 1);
    }
  }

  /** Round trip: a value below 16^k written in k > 0 hex digits parses back. */
  lemma ParseIntHexOfHexDigits(v: nat, k: nat)
    requires 0 < k && v < Pow16(k)
    ensures ParseIntHex(HexDigits(v, k)) == Some(v)
  {
    HexValueOfHexDigits(v, k);
    ParseIntHexOfDigits(HexDigits(v, k));
  }
}
