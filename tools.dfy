/**
 * The three tools that `MyMCP.init` registers (my-mcp-server/src/index.ts,
 * lines 13-108): `add`, `randomNumber` and `calculate`, as functions from
 * their validated arguments to the result envelope they return.
 *
 * JavaScript numbers are idealised: arithmetic is exact over `real`, and
 * `Number` adds the one special value the handlers can produce, NaN.
 * Every handler answers with one text block; a client reads a number back
 * from it with `ReadInteger` or `ReadNumber`, the partners used by the
 * lemmas below.
 */
module Tools {
  import opened Wrappers
  import opened Decimal
  import opened HexParse

  /** A content block; "text" is the only kind the tools produce. */
  datatype ContentBlock = Text(text: string)

  /** What a tool handler returns: `{ content: [...] }`. */
  datatype ToolResult = ToolResult(content: seq<ContentBlock>)

  /** An idealised JavaScript number: an exact value, or NaN. */
  datatype Number = Num(value: real) | NaN

  /** `String(n)`: "NaN" for NaN and for nothing else. */
  function NumberText(n: Number): (s: string)
    ensures s == "NaN" <==> n.NaN?
  {
    match n
    case NaN => "NaN"
    case Num(x) =>
      assert "NaN"[0] == 'N';
      RealText(x)
  }

  /** A result holding one text block. */
  function TextResult(text: string): (r: ToolResult)
    ensures |r.content| == 1 && r.content[0].text == text
  {
    ToolResult([Text(text)])
  }

  /** How a client reads an integer back from a single-block result. */
  function ReadInteger(r: ToolResult): Option<int> {
    if |r.content| == 1 then ReadInt(r.content[0].text) else None
  }

  /** How a client reads a decimal number back from a single-block result. */
  function ReadNumber(r: ToolResult): Option<real> {
    if |r.content| == 1 then ReadDecimal(r.content[0].text) else None
  }

  /**
   * What a client reads back from the text of a value `x`: a number no
   * larger in magnitude, less than 10^-20 away, and `x` itself exactly when
   * `x * 10^20` is whole.
   */
  predicate ReadsBackAs(y: real, x: real) {
    RealAbs(y) <= RealAbs(x)
    && RealAbs(x - y) < 1.0 / Pow10(FractionDigitLimit) as real
    && (y == x <==> IsIntegral(Shift(x, FractionDigitLimit)))
  }

  /** A block holding the text of `x` reads back as `x` cut after 20 fractional digits. */
  lemma ReadTextResult(x: real)
    ensures ReadNumber(TextResult(RealText(x))).Some?
    ensures ReadsBackAs(ReadNumber(TextResult(RealText(x))).value, x)
  {
    ReadRealText(x);
    assert ReadNumber(TextResult(RealText(x))) == ReadDecimal(RealText(x));
  }

  /** A block holding the text of a whole value holds the integer's digits and reads back as it. */
  lemma IntegerTextResult(x: real, n: int)
    requires x == n as real
    ensures TextResult(NumberText(Num(x))).content[0].text == IntText(n)
    ensures ReadInteger(TextResult(NumberText(Num(x)))) == Some(n)
  {
    RealTextOfInteger(n);
    ReadIntText(n);
  }

  /** The `add` tool (lines 21-23): the text of `a + b`. */
  function AddTool(a: real, b: real): (r: ToolResult)
    ensures |r.content| == 1
  {
    TextResult(NumberText(Num(a + b)))
  }

  /**
   * For whole operands, the `add` tool's single block reads back as the
   * sum; for others its text reads as an integer exactly when the sum is one.
   */
  lemma AddToolReadsSum(a: real, b: real)
    ensures ReadInteger(AddTool(a, b))
         == if IsIntegral(a + b) then Some((a + b).Floor) else None
  {
    assert AddTool(a, b) == TextResult(RealText(a + b));
    ReadIntOfRealText(a + b);
  }

  /** For whole operands the `add` tool writes the integer sum, which reads back as the sum. */
  lemma AddToolOfIntegers(a: int, b: int)
    ensures AddTool(a as real, b as real).content[0].text == IntText(a + b)
    ensures ReadInteger(AddTool(a as real, b as real)) == Some(a + b)
  {
    IntegerTextResult(a as real + b as real, a + b);
  }

  /** For any operands the `add` tool's block reads back as a decimal close to the sum. */
  lemma AddToolReadsValue(a: real, b: real)
    ensures ReadNumber(AddTool(a, b)).Some?
    ensures ReadsBackAs(ReadNumber(AddTool(a, b)).value, a + b)
  {
    assert AddTool(a, b) == TextResult(RealText(a + b));
    ReadTextResult(a + b);
  }

  // ---------------------------------------------------------------------
  // calculate (lines 69-107)

  /** The values of the `operation` argument's enumeration (line 73). */
  datatype Operation = Add | Subtract | Multiply | Divide

  function OperationName(op: Operation): string {
    match op
    case Add => "add"
    case Subtract => "subtract"
    case Multiply => "multiply"
    case Divide => "divide"
  }

  /** The enumeration check on `operation`: one of the four names, or rejected. */
  function ParseOperation(s: string): (r: Option<Operation>)
    ensures r.Some? ==> OperationName(r.value) == s
    ensures r.None? ==> forall op: Operation :: OperationName(op) != s
  {
    if s == "add" then Some(Add)
    else if s == "subtract" then Some(Subtract)
    else if s == "multiply" then Some(Multiply)
    else if s == "divide" then Some(Divide)
    else None
  }

  lemma ParseOperationName(op: Operation)
    ensures ParseOperation(OperationName(op)) == Some(op)
  {
  }

  const DivideByZeroText := "Error: Cannot divide by zero"

  /**
   * The value the switch assigns to `result`; division only by non-zero.
   * Each operation is pinned down by its inverse.
   */
  function Apply(op: Operation, a: real, b: real): (r: real)
    requires op == Divide ==> b != 0.0
    ensures op == Add ==> r - b == a
    ensures op == Subtract ==> r + b == a
    ensures op == Multiply && b != 0.0 ==> r / b == a
    ensures op == Multiply && b == 0.0 ==> r == 0.0
    ensures op == Divide ==> r * b == a
  {
    match op
    case Add => a + b
    case Subtract => a - b
    case Multiply => a * b
    case Divide => a / b
  }

  /** The text of a number is never the divide-by-zero message. */
  lemma NumberTextIsNotError(x: real)
    ensures RealText(x) != DivideByZeroText
  {
    assert DivideByZeroText[0] == 'E';
  }

  /**
   * The `calculate` tool. Division by zero is answered with the fixed
   * error text before any division takes place; every other call answers
   * with the text of the operation's value. Every outcome is one block, and
   * its text is the error text exactly on a division by zero.
   */
  function Calculate(op: Operation, a: real, b: real): (r: ToolResult)
    ensures |r.content| == 1
    ensures r.content[0].text == DivideByZeroText <==> op == Divide && b == 0.0
  {
    if op == Divide && b == 0.0 then
      TextResult(DivideByZeroText)
    else
      var x := Apply(op, a, b);
      NumberTextIsNotError(x);
      TextResult(NumberText(Num(x)))
  }

  /** `calculate` with "add" gives exactly what the `add` tool gives. */
  lemma CalculateAddIsAddTool(a: real, b: real)
    ensures Calculate(Add, a, b) == AddTool(a, b)
  {
  }

  /**
   * What a client reads back from `calculate` on whole operands: the sum,
   * the difference and the product.
   */
  lemma CalculateOfIntegers(op: Operation, a: int, b: int)
    ensures op == Add ==> Calculate(op, a as real, b as real).content[0].text == IntText(a + b)
    ensures op == Subtract ==> Calculate(op, a as real, b as real).content[0].text == IntText(a - b)
    ensures op == Multiply ==> Calculate(op, a as real, b as real).content[0].text == IntText(a * b)
    ensures op == Add ==> ReadInteger(Calculate(op, a as real, b as real)) == Some(a + b)
    ensures op == Subtract ==> ReadInteger(Calculate(op, a as real, b as real)) == Some(a - b)
    ensures op == Multiply ==> ReadInteger(Calculate(op, a as real, b as real)) == Some(a * b)
  {
    var x, y := a as real, b as real;
    var n := match op
      case Add => a + b
      case Subtract => a - b
      case Multiply => a * b
      case Divide => 0;
    if op != Divide {
      IntegerTextResult(Apply(op, x, y), n);
      assert Calculate(op, x, y) == TextResult(NumberText(Num(Apply(op, x, y))));
    }
  }

  /**
   * Whatever the operands, a client reads the block of `calculate` back as
   * a decimal exactly when no division by zero was asked for, and then as
   * the operation's value cut after 20 fractional digits. In particular a
   * quotient that is not whole reads back within 10^-20 of `a / b`.
   */
  lemma CalculateReadsValue(op: Operation, a: real, b: real)
    ensures ReadNumber(Calculate(op, a, b)).Some? <==> !(op == Divide && b == 0.0)
    ensures !(op == Divide && b == 0.0) ==>
      ReadsBackAs(ReadNumber(Calculate(op, a, b)).value, Apply(op, a, b))
  {
    if op == Divide && b == 0.0 {
      assert Calculate(op, a, b) == TextResult(DivideByZeroText);
      assert DivideByZeroText[0] == 'E';
    } else {
      assert Calculate(op, a, b) == TextResult(RealText(Apply(op, a, b)));
      ReadTextResult(Apply(op, a, b));
    }
  }

  /**
   * Dividing by zero answers with exactly one block holding the error text,
   * which a client cannot mistake for a number.
   */
  lemma CalculateDivideByZero(a: real)
    ensures Calculate(Divide, a, 0.0) == ToolResult([Text("Error: Cannot divide by zero")])
    ensures ReadInteger(Calculate(Divide, a, 0.0)) == None
  {
    assert !IsDigit(DivideByZeroText[0]);
  }

  /** An exact division of whole numbers reads back as the quotient. */
  lemma CalculateExactQuotient(q: int, b: int)
    requires b != 0
    ensures ReadInteger(Calculate(Divide, (q * b) as real, b as real)) == Some(q)
  {
    var x := (q * b) as real / b as real;
    assert (q * b) as real == q as real * b as real;
    assert x == q as real;
    assert Calculate(Divide, (q * b) as real, b as real) == TextResult(RealText(q as real));
    RealTextOfInteger(q);
    ReadIntText(q);
  }

  /**
   * Conversely, when the text of a division by a non-zero whole number reads
   * as an integer, that integer times the divisor is the dividend.
   */
  lemma CalculateQuotientReadsBack(a: int, b: int)
    requires b != 0
    ensures ReadInteger(Calculate(Divide, a as real, b as real)).Some? ==>
      a == ReadInteger(Calculate(Divide, a as real, b as real)).value * b
  {
    var x := a as real / b as real;
    assert Calculate(Divide, a as real, b as real) == TextResult(RealText(x));
    ReadIntOfRealText(x);
    if IsIntegral(x) {
      WholeQuotient(a, b, x.Floor);
    }
  }

  lemma WholeQuotient(a: int, b: int, n: int)
    requires b != 0 && a as real / b as real == n as real
    ensures a == n * b
  {
    assert a as real == n as real * b as real;
    assert (n * b) as real == n as real * b as real;
  }

  // ---------------------------------------------------------------------
  // randomNumber (lines 29-67)

  /**
   * What the handler gets from its randomness source: the `randomness`
   * string of the beacon's answer, or, when the request or its decoding
   * failed, the value `unit` that `Math.random()` returned instead.
   */
  datatype Entropy = Beacon(randomness: string) | Unavailable(unit: real)

  /** `Math.random()` answers in [0, 1). */
  predicate ValidEntropy(e: Entropy) {
    e.Unavailable? ==> 0.0 <= e.unit < 1.0
  }

  /** `Math.abs`. */
  function IntAbs(x: int): (r: int)
    ensures 0 <= r && (r == x || r == -x)
  {
    if x < 0 then -x else x
  }

  /**
   * JavaScript's `%` on integers: the remainder of truncating division,
   * which takes the sign of the dividend.
   */
  function JsRem(x: int, m: int): (r: int)
    requires m != 0
    ensures 0 <= x ==> 0 <= r < IntAbs(m)
    ensures x < 0 ==> -IntAbs(m) < r <= 0
    ensures (x - r) % IntAbs(m) == 0
  {
    var r := if x < 0 then -((-x) % IntAbs(m)) else x % IntAbs(m);
    RemDifference(x, IntAbs(m), r);
    r
  }

  /** What the truncating remainder leaves out of `x` is a multiple of `k`. */
  lemma RemDifference(x: int, k: int, r: int)
    requires k > 0
    requires r == if x < 0 then -((-x) % k) else x % k
    ensures (x - r) % k == 0
  {
    if x < 0 {
      var q := (-x) / k;
      assert -x == k * q + (-x) % k;
      assert x - r == k * -q;
      MultipleMod(-q, k);
    } else {
      var q := x / k;
      assert x == k * q + x % k;
      assert x - r == k * q;
      MultipleMod(q, k);
    }
  }

  /** A non-zero multiple of `m > 0` is at least `m` in magnitude. */
  lemma ProductBounds(m: int, t: int)
    requires m > 0
    ensures t >= 1 ==> m * t >= m
    ensures t <= -1 ==> m * t <= -m
  {
    if t >= 1 {
      assert m * t == m + m * (t - 1);
    } else if t <= -1 {
      assert m * t == -m - m * (-t - 1);
    }
  }

  /** Euclidean remainder of a multiple is zero. */
  lemma MultipleMod(q: int, m: int)
    requires m > 0
    ensures (m * q) % m == 0
  {
    var a := m * q;
    var d := a / m;
    var r := a % m;
    assert a == m * d + r;
    assert m * (q - d) == r by {
      assert m * (q - d) == m * q - m * d;
    }
    ProductBounds(m, q - d);
  }

  /** Number of hex characters of the randomness that are read. */
  const HexPrefixLength: nat := 8

  /**
   * Line 46 applied to the parse of line 43: `Math.abs(v) % (b - a + 1) + a`.
   * NaN stays NaN, and a remainder by zero (when b == a - 1) is NaN.
   */
  function ScaleToRange(parsed: Option<int>, a: int, b: int): (r: Number)
    ensures r.NaN? <==> parsed.None? || b - a + 1 == 0
    ensures r.Num? ==> IsIntegral(r.value)
    ensures r.Num? && a <= b ==> a as real <= r.value <= b as real
    ensures r.Num? && b < a - 1 ==> a as real <= r.value <= (2 * a - b - 2) as real
  {
    match parsed
    case None => NaN
    case Some(v) =>
      var span := b - a + 1;
      if span == 0 then NaN else Num((JsRem(IntAbs(v), span) + a) as real)
  }

  /**
   * The beacon path (lines 42-46): parse the first eight characters of the
   * randomness as hex, then scale the value to the range. With `a <= b` the
   * result is NaN exactly when the prefix does not parse, and otherwise a
   * whole number in [a, b], whatever sign or prefix the randomness carries.
   */
  function BeaconValue(randomness: string, a: int, b: int): (r: Number)
    ensures a <= b ==> (r.NaN? <==> ParseIntHex(Slice(randomness, HexPrefixLength)).None?)
    ensures a <= b && r.Num? ==> IsIntegral(r.value) && a as real <= r.value <= b as real
  {
    ScaleToRange(ParseIntHex(Slice(randomness, HexPrefixLength)), a, b)
  }

  /**
   * The fallback path (line 59): `Math.floor(unit * (b - a + 1)) + a`, which
   * for `unit` in [0, 1) and `a <= b` lands in [a, b].
   */
  function FallbackValue(unit: real, a: int, b: int): (r: int)
    ensures 0.0 <= unit < 1.0 && a <= b ==> a <= r <= b
  {
    UnitScaleBound(unit, (b - a + 1) as real);
    (unit * (b - a + 1) as real).Floor + a
  }

  /** A fraction in [0, 1) of a positive span stays in [0, span). */
  lemma UnitScaleBound(unit: real, span: real)
    ensures 0.0 <= unit < 1.0 && 0.0 < span ==> 0.0 <= unit * span < span
  {
    if 0.0 <= unit < 1.0 && 0.0 < span {
      assert (1.0 - unit) * span > 0.0;
    }
  }

  /** The `randomNumber` tool: one text block holding the drawn number. */
  function RandomNumber(e: Entropy, a: int, b: int): (r: ToolResult)
    ensures |r.content| == 1
  {
    match e
    case Beacon(randomness) => TextResult(NumberText(BeaconValue(randomness, a, b)))
    case Unavailable(unit) => TextResult(NumberText(Num(FallbackValue(unit, a, b) as real)))
  }

  /**
   * When the first eight characters are hex digits, the parse is their hex
   * value, which lies in [0, 16^8); characters after the eighth play no part.
   * `ScaleNonNegative` then gives the drawn value.
   */
  lemma BeaconValueOfHexPrefix(randomness: string, a: int, b: int)
    requires |randomness| >= HexPrefixLength && AllHex(randomness[..HexPrefixLength])
    ensures ParseIntHex(Slice(randomness, HexPrefixLength)) == Some(HexValue(randomness[..HexPrefixLength]))
    ensures HexValue(randomness[..HexPrefixLength]) < Pow16(HexPrefixLength)
    ensures BeaconValue(randomness, a, b) == ScaleToRange(Some(HexValue(randomness[..HexPrefixLength])), a, b)
  {
    var prefix := randomness[..HexPrefixLength];
    assert Slice(randomness, HexPrefixLength) == prefix;
    ParseIntHexOfDigits(prefix);
    HexValueBound(prefix);
    BeaconValueOfParse(randomness, a, b, HexValue(prefix));
  }

  lemma BeaconValueOfParse(randomness: string, a: int, b: int, v: int)
    requires ParseIntHex(Slice(randomness, HexPrefixLength)) == Some(v)
    ensures BeaconValue(randomness, a, b) == ScaleToRange(Some(v), a, b)
  {
  }

  /**
   * For a parsed value that is not negative and `a <= b`, `Math.abs` does
   * nothing, `%` is the usual remainder, and the result is `v mod (b - a + 1) + a`.
   */
  lemma ScaleNonNegative(v: int, a: int, b: int)
    requires 0 <= v && a <= b
    ensures ScaleToRange(Some(v), a, b) == Num((v % (b - a + 1) + a) as real)
  {
    assert IntAbs(v) == v && IntAbs(b - a + 1) == b - a + 1;
  }

  /** Whatever the randomness, a parsed prefix is below 16^8 in magnitude. */
  lemma BeaconParseBound(randomness: string)
    ensures ParseIntHex(Slice(randomness, HexPrefixLength)).Some? ==>
      IntAbs(ParseIntHex(Slice(randomness, HexPrefixLength)).value) < Pow16(HexPrefixLength)
  {
    var prefix := Slice(randomness, HexPrefixLength);
    Pow16Monotone(|prefix|, HexPrefixLength);
  }

  /** Two randomness strings that agree on their first eight characters give the same value. */
  lemma BeaconValueReadsPrefixOnly(s: string, t: string, a: int, b: int)
    requires |s| >= HexPrefixLength && |t| >= HexPrefixLength
    requires s[..HexPrefixLength] == t[..HexPrefixLength]
    ensures BeaconValue(s, a, b) == BeaconValue(t, a, b)
  {
    assert Slice(s, HexPrefixLength) == Slice(t, HexPrefixLength);
  }

  /**
   * Every value of a range of at most 16^8 numbers is drawn by some beacon
   * answer: the one whose randomness is the offset from `a` in eight hex digits.
   */
  lemma BeaconReachesEveryValue(a: int, b: int, x: int)
    requires a <= x <= b && b - a < Pow16(HexPrefixLength)
    ensures BeaconValue(HexDigits(x - a, HexPrefixLength), a, b) == Num(x as real)
  {
    var d := x - a;
    var s := HexDigits(d, HexPrefixLength);
    assert Slice(s, HexPrefixLength) == s;
    ParseIntHexOfHexDigits(d, HexPrefixLength);
    BeaconValueOfParse(s, a, b, d);
    ScaleSmallValue(a, b, x);
  }

  /** A parsed value `x - a` already below the range's size is offset back to `x`. */
  lemma ScaleSmallValue(a: int, b: int, x: int)
    requires a <= x <= b
    ensures ScaleToRange(Some(x - a), a, b) == Num(x as real)
  {
    var d, span := x - a, b - a + 1;
    assert IntAbs(d) == d && IntAbs(span) == span;
    RemainderOfSmaller(d, span);
    assert JsRem(d, span) + a == x;
  }

  lemma RemainderOfSmaller(x: int, m: int)
    requires 0 <= x < m
    ensures x % m == x
  {
  }

  /** With `b == a - 1` the divisor is zero and the beacon path yields NaN. */
  lemma BeaconValueEmptyRange(randomness: string, a: int)
    ensures BeaconValue(randomness, a, a - 1) == NaN
  {
  }

  /**
   * The tool-level bound: for `a <= b` and either path, the single block
   * reads back as a whole number in [a, b], except that the beacon path
   * answers "NaN" when the randomness does not start with a hex number.
   */
  lemma RandomNumberInRange(e: Entropy, a: int, b: int)
    requires ValidEntropy(e) && a <= b
    ensures RandomNumber(e, a, b).content[0].text == "NaN"
        <==> e.Beacon? && ParseIntHex(Slice(e.randomness, HexPrefixLength)).None?
    ensures ReadInteger(RandomNumber(e, a, b)).Some?
        <==> RandomNumber(e, a, b).content[0].text != "NaN"
    ensures ReadInteger(RandomNumber(e, a, b)).Some? ==>
      a <= ReadInteger(RandomNumber(e, a, b)).value <= b
  {
    assert ReadInt("NaN") == None by {
      assert !IsDigit("NaN"[0]);
    }
    match e
    case Beacon(randomness) =>
      var n := BeaconValue(randomness, a, b);
      if n.Num? {
        ReadIntOfRealText(n.value);
      }
    case Unavailable(unit) =>
      var x := FallbackValue(unit, a, b);
      ReadIntOfRealText(x as real);
  }
}
