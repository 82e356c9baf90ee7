# MCP workshop server: tool handlers and request routing

This project is a Dafny model of the logic in `my-mcp-server/src/index.ts`, a
Cloudflare Worker that serves a Model Context Protocol (MCP) server named
"AI to the World MCP Workshop". The model covers:

- the handlers of the three tools that `MyMCP.init` registers:
  - `add` returns the text of `a + b`;
  - `randomNumber` draws an integer in `[a, b]` from the drand beacon's
    hex randomness, or from `Math.random()` when the beacon cannot be
    reached;
  - `calculate` adds, subtracts, multiplies or divides, and refuses to
    divide by zero;
- the result envelope every handler returns: `{ content: [{ type: "text", text }] }`;
- the `fetch` routing: `/sse` and `/sse/message` go to the SSE transport,
  `/mcp` goes to the streamable HTTP transport, and every other path gets a
  404 "Not found".

Modules:

- `Wrappers` (wrappers.dfy): `Option`.
- `Decimal` (decimal.dfy): `String(number)` for an idealised number. It has
  two partner readers. `ReadInt` reads an integer back, and the round trip
  is proved. `ReadDecimal` reads a decimal back, and what it gives is proved
  to be the number cut after 20 fractional digits.
- `HexParse` (hex_parse.dfy): `String.prototype.slice(0, k)` and
  `parseInt(s, 16)`, following the steps of parseInt in section 19.2.5 of
  ECMA-262. Those steps are: skip leading white space, take one sign, drop
  `0x`/`0X`, read the longest run of hex digits, and give NaN for an empty run.
  Its partner `HexDigits` writes a value in k hex digits, and the round trip is proved.
- `Tools` (tools.dfy): the content block and result types, the three
  handlers, and the lemmas about what a client reads back from a result.
- `Routing` (routing.dfy): the path classifier of `fetch`.

Numbers are idealised:

- JavaScript doubles are exact `real` values, with NaN added as a separate
  value (`Tools.Number`).
- The bounds of `randomNumber` are integers.
- JavaScript's truncating `%` is written out (`Tools.JsRem`), because Dafny's
  `%` is Euclidean.

## Model

| member | source | states |
|---|---|---|
| `Tools.TextResult` | my-mcp-server/src/index.ts:22 | the result envelope `{ content: [{ type: "text", text }] }` holds exactly one block, whose text is `text` |
| `Tools.NumberText` | my-mcp-server/src/index.ts:51 | `String(n)` is "NaN" for NaN and for no other number |
| `Tools.AddTool` | my-mcp-server/src/index.ts:21-23 | `add` answers with exactly one text block |
| `Tools.AddToolReadsSum` | my-mcp-server/src/index.ts:21-23 | the block's text reads back as an integer exactly when `a + b` is whole, and then it reads back as `a + b` |
| `Tools.AddToolOfIntegers` | my-mcp-server/src/index.ts:21-23 | for whole operands the text is the integer text of `a + b` and reads back as the sum |
| `Tools.AddToolReadsValue` | my-mcp-server/src/index.ts:21-23 | for any operands the text reads back as a decimal `y`: `y` is no larger in magnitude than `a + b` and less than 10^-20 away from it, and `y` equals `a + b` exactly when `(a + b) * 10^20` is whole |
| `Tools.ParseOperation` | my-mcp-server/src/index.ts:73 | the `operation` enumeration accepts exactly "add", "subtract", "multiply" and "divide", each naming its operation, and rejects every other string |
| `Tools.ParseOperationName` | my-mcp-server/src/index.ts:73 | each operation's name is accepted as that operation |
| `Tools.Apply` | my-mcp-server/src/index.ts:79-101 | the switch's `result` is pinned down by the inverse of its operation: `r - b == a` for add, `r + b == a` for subtract, `r / b == a` for multiply by a non-zero `b` and `r == 0` for multiply by 0, `r * b == a` for divide |
| `Tools.Calculate` | my-mcp-server/src/index.ts:77-102 | every outcome is exactly one text block, and its text is "Error: Cannot divide by zero" exactly when the operation is divide and `b` is 0; the quotient is formed only for a non-zero divisor |
| `Tools.CalculateAddIsAddTool` | my-mcp-server/src/index.ts:80-82 | `calculate` with "add" returns the same result as the `add` tool |
| `Tools.CalculateOfIntegers` | my-mcp-server/src/index.ts:80-88 | for whole operands, "add", "subtract" and "multiply" write the integer texts of `a + b`, `a - b` and `a * b`, which read back as those integers |
| `Tools.CalculateReadsValue` | my-mcp-server/src/index.ts:77-102 | the block reads back as a decimal exactly when no division by zero was asked for; then it reads back as the operation's value `v` cut after 20 fractional digits: no larger in magnitude, less than 10^-20 away, and equal to `v` exactly when `v * 10^20` is whole |
| `Tools.CalculateDivideByZero` | my-mcp-server/src/index.ts:89-98 | dividing by zero returns exactly `[Text("Error: Cannot divide by zero")]`, and that text does not read as a number |
| `Tools.NumberTextIsNotError` | my-mcp-server/src/index.ts:95-102 | the text of a number is never the divide-by-zero message, so the two outcomes cannot be confused |
| `Tools.CalculateExactQuotient` | my-mcp-server/src/index.ts:99-102 | dividing `q * b` by a non-zero `b` reads back as `q` |
| `Tools.CalculateQuotientReadsBack` | my-mcp-server/src/index.ts:99-102 | when a quotient's text reads as an integer `n`, then `n * b` equals the dividend |
| `Tools.IntAbs` | my-mcp-server/src/index.ts:46 | `Math.abs(v)` is not negative and is `v` or `-v` |
| `Tools.JsRem` | my-mcp-server/src/index.ts:46 | JavaScript `%` takes the dividend's sign, is smaller in magnitude than the divisor, and differs from the dividend by a multiple of the divisor |
| `Tools.ScaleToRange` | my-mcp-server/src/index.ts:46 | `Math.abs(v) % (b - a + 1) + a` is NaN exactly when the parse gave NaN or `b - a + 1` is 0; otherwise it is whole, lies in `[a, b]` when `a <= b`, and lies in `[a, 2a - b - 2]` when `b < a - 1` |
| `Tools.BeaconValue` | my-mcp-server/src/index.ts:42-46 | for `a <= b` the beacon path gives NaN exactly when the 8-character prefix does not parse; otherwise it gives a whole number in `[a, b]` |
| `Tools.FallbackValue` | my-mcp-server/src/index.ts:59 | for `Math.random()` in `[0, 1)` and `a <= b`, `Math.floor(r * (b - a + 1)) + a` lies in `[a, b]` |
| `Tools.RandomNumber` | my-mcp-server/src/index.ts:35-63 | `randomNumber` answers with exactly one text block on both paths |
| `Tools.BeaconValueOfHexPrefix` | my-mcp-server/src/index.ts:42-46 | for an all-hex 8-character prefix, `parseInt` gives the prefix's hex value, which lies in `[0, 16^8)`, and the beacon path scales exactly that value |
| `Tools.ScaleNonNegative` | my-mcp-server/src/index.ts:46 | for a parsed value `v >= 0` and `a <= b`, `Math.abs` leaves `v` unchanged and the result is `v mod (b - a + 1) + a` |
| `Tools.ScaleSmallValue` | my-mcp-server/src/index.ts:46 | for `a <= x <= b`, scaling the offset `x - a` gives back `x` |
| `Tools.BeaconParseBound` | my-mcp-server/src/index.ts:43 | whatever the randomness string, a parsed prefix has magnitude below 16^8 |
| `Tools.BeaconValueReadsPrefixOnly` | my-mcp-server/src/index.ts:43 | characters after the eighth do not affect the drawn value |
| `Tools.BeaconReachesEveryValue` | my-mcp-server/src/index.ts:42-46 | when `b - a < 16^8`, every value in `[a, b]` is drawn by some beacon answer |
| `Tools.BeaconValueEmptyRange` | my-mcp-server/src/index.ts:46 | with `b == a - 1` the divisor is 0 and the beacon path gives NaN |
| `Tools.RandomNumberInRange` | my-mcp-server/src/index.ts:35-63 | for `a <= b` on either path, the text is "NaN" exactly when the beacon's prefix does not parse; otherwise it reads back as an integer in `[a, b]` |
| `HexParse.Slice` | my-mcp-server/src/index.ts:43 | `slice(0, k)` is the first `min(k, length)` characters |
| `HexParse.TrimStart` | my-mcp-server/src/index.ts:43 | parseInt drops exactly the leading white space and line terminators |
| `HexParse.HexRun` | my-mcp-server/src/index.ts:43 | parseInt reads the longest prefix of hex digits |
| `HexParse.ParseIntHex` | my-mcp-server/src/index.ts:43 | a negative result needs a minus sign after the leading white space, and the result has magnitude below 16^n for an input of n characters |
| `HexParse.ParseIntHexStopsAtNonHex` | my-mcp-server/src/index.ts:43 | parseInt stops at the first character that is not a hex digit: hex digits `p` followed by such a character (or nothing) parse to the value of `p`, except "0" followed by `x`/`X`, which is a hex prefix |
| `HexParse.ParseIntHexNoDigits` | my-mcp-server/src/index.ts:43 | a string starting with a character that is not white space, a sign or a hex digit parses to NaN |
| `HexParse.ParseIntHexPlain` | my-mcp-server/src/index.ts:43 | with no white space, sign or `0x` in front, parseInt gives NaN for an empty hex run and otherwise the value of the run |
| `HexParse.ParseIntHexOfDigits` | my-mcp-server/src/index.ts:43 | a non-empty string of hex digits parses to its hex value |
| `HexParse.HexValueBound` | my-mcp-server/src/index.ts:43 | k hex digits hold a value below 16^k |
| `HexParse.ParseIntHexOfHexDigits` | my-mcp-server/src/index.ts:43 | round trip: a value below 16^k, written in k hex digits, parses back to itself |
| `Decimal.NatText` | my-mcp-server/src/index.ts:22 | the decimal text of a natural number is non-empty, all digits, and has no leading zero |
| `Decimal.IntText` | my-mcp-server/src/index.ts:22 | `String(n)` for a whole `n` is non-empty, starts with a minus sign exactly when `n` is negative, and is digits otherwise; its partner is `ReadIntText` |
| `Decimal.ReadIntText` | my-mcp-server/src/index.ts:22 | round trip: the text of an integer reads back as that integer |
| `Decimal.IntTextInjective` | my-mcp-server/src/index.ts:22 | different integers have different texts |
| `Decimal.RealText` | my-mcp-server/src/index.ts:102 | `String(x)` is non-empty, starts with a minus sign or a digit, and starts with a minus sign exactly when `x` is negative |
| `Decimal.RealTextOfInteger` | my-mcp-server/src/index.ts:22 | a whole value is written as the text of the integer it equals |
| `Decimal.ReadIntOfRealText` | my-mcp-server/src/index.ts:102 | a number's text reads as an integer exactly when the number is whole, and then it reads as that number |
| `Decimal.FractionalTextHasPoint` | my-mcp-server/src/index.ts:102 | a number that is not whole is written with a decimal point |
| `Decimal.FractionTextValue` | my-mcp-server/src/index.ts:102 | the fractional digits written for `f` in `[0, 1)` have a value at most `f` and less than 10^-limit below it |
| `Decimal.FractionTextExact` | my-mcp-server/src/index.ts:102 | those digits are worth exactly `f` when `f * 10^limit` is whole, and only then |
| `Decimal.ReadDecimalText` | my-mcp-server/src/index.ts:102 | the text built from a sign, an integer part `w` and fractional digits reads back as the sign applied to `w` plus the digits' value |
| `Decimal.ReadRealText` | my-mcp-server/src/index.ts:102 | every number's text reads back as a decimal `y` no larger in magnitude than `x`, less than 10^-20 away from it, and equal to `x` exactly when `x * 10^20` is whole |
| `Routing.RouteOf` | my-mcp-server/src/index.ts:115-125 | exactly "/sse" and "/sse/message" go to the SSE transport mounted at "/sse"; exactly "/mcp" goes to the streamable HTTP transport; every other path gets status 404 with body "Not found" |

## Left out

- The HTTP request to the drand endpoint and the JSON decoding of its answer
  (lines 38-39) are network I/O. Instead, the randomness string is a
  parameter (`Tools.Entropy.Beacon`).
- The fallback's `Math.random()` (line 59) is a parameter, `unit`, assumed to
  be in `[0, 1)` as `Math.random` promises. Failures that lead to the fallback
  are not told apart: a failed request, an unreadable answer, and an answer
  whose `randomness` is not a string all become `Tools.Entropy.Unavailable`.
- `Decimal.RealText`: this is not JavaScript's `Number::toString`. A value that
  is not whole is written as its exact decimal expansion, cut after 20
  fractional digits. JavaScript instead writes the shortest digits that round-trip
  through a double. JavaScript also switches to exponent notation at 1e21 and
  below 1e-6, and the model does not.
- Double-precision arithmetic is idealised as exact `real` arithmetic. The
  model has no rounding, no overflow to Infinity, and no -0: a negative zero
  from `parseInt` is 0 here, and `String(-0)` is "0" in JavaScript too.
- `Tools.FallbackValue`: the bound is proved over exact reals. With bounds
  beyond 2^53, `b - a + 1` and the final `+ a` round in double arithmetic,
  and the model does not capture that.
- The bounds `a` and `b` of `randomNumber` are modelled as integers. The
  argument schema accepts any number. With bounds that are not whole, the
  remainder is a non-integral value and can exceed `b`; the model does not
  capture that.
- Tool registration with `McpServer.tool` is not modelled. Neither are the zod
  argument schemas other than the `operation` enumeration, the descriptions,
  and the `McpAgent` base class. `serveSSE`/`serve` are modelled only as the
  route a request takes (with its base path). Their bodies are in framework
  code that is not part of this model.
- `new URL(request.url).pathname` is taken as the input of `Routing.RouteOf`.
  URL parsing is not modelled.
- `my-mcp-server/node_modules/agents/dist/ai-react.d.ts` (a type declaration
  of a React hook) is not part of this model.
