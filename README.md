# CyberChef binary-text codec in Dafny

This project models `src/core/lib/Binary.mjs` from CyberChef, the two
functions that convert between byte values and text made of binary digits:

- `toBinary(data, delim, padding)` writes each value of an array as its
  base-2 digits. Each group is left-padded with `'0'` to at least `padding`
  characters. The groups are joined by the delimiter, with none after the
  last group. A single number gives just its padded digits. An empty
  array, and any other input of the model's `Data` type, gives `""`.
- `fromBinary(data, delim, byteLen)` rejects a `byteLen` that is below 1 or
  not an integer. It deletes every occurrence of the delimiter, cuts the
  rest into pieces of `byteLen` characters (the last may be shorter), and
  reads each piece with `parseInt(piece, 2)`.

Files:

- `Base2.dfy` (module `Base2`): `ToBase2`, which is `Number.prototype.toString(2)`
  on a non-negative integer, and `FromBase2`, the value of a digit string.
  Also the facts relating the two: reading back, no leading zero, bit length,
  and leading zeros not changing the value.
- `Text.dfy` (module `Text`): `Join`, `Concat`, `RemoveAll` (delete every
  occurrence of a literal) and `Chunks` (fixed-width pieces), with their laws.
- `Binary.dfy` (module `Binary`): the codec. It holds the specification
  functions `Encoding` and `Decoding` and the methods `ToBinary` and
  `FromBinary`. The methods keep the source's loops: `ToBinary` appends
  group plus delimiter and then slices the last delimiter off. `FromBinary`
  checks `byteLen` and deletes the delimiter; its loop, `ReadPieces`, steps
  `i` by `byteLen` and appends one parse per step. Each method is proved
  equal to its specification function. The properties are lemmas about
  those functions.
- `Examples.dfy` (module `Examples`): the codec on concrete inputs.

Modelling choices:

- Values are `nat` and strings are `seq<char>`. The encoder's input is
  `Data = Arr(values) | Num(n) | Other`, which stands in for JavaScript's
  `data.length` / `typeof` dispatch.
- The delimiter is the literal text. The source receives a delimiter name
  and looks the literal and removal pattern up elsewhere.
- `byteLen` is a `real`, so "not an integer" can be stated. The check is
  written as in the code, `byteLen < 1 || Math.round(byteLen) !== byteLen`,
  with `Math.round(x)` as `floor(x + 0.5)`. `DecodingFails` proves that
  this is "below 1 or not an integer". The error is
  `Failure("Byte length must be a positive integer")`, for the thrown
  `OperationError`.
- A piece whose first character is a binary digit parses as `parseInt` does
  it: the longest run of binary digits at its front (`BitPrefix`), read in
  base 2 (`ParseBinary`). Any other piece becomes `Unparsed`, and the model makes
  no claim about it (see Left out). Like the source, the decoder keeps such
  a result in its output and does not drop it.
- `padding` is an `int`. A padding at or below the digit count adds nothing,
  as with `padStart`.

Line 34 makes `padding` a minimum width: a value with more digits keeps
all of them (`GroupShape`, `GroupWidth`). The doc comments at lines 22-26 show `[10,20,30]` as
`"00010000 00100000 00110000"`, which actually encodes `[16,32,48]`.
`ExampleEncode` gives the string the code really produces.

The round trip (`RoundTrip`) is proved for any width `w >= 1` used as both
`padding` and `byteLen`, provided every value is below `2^w` and the
delimiter is empty or does not start with a binary digit. `ByteRoundTrip`
is the default case: byte values, width 8, and a delimiter with no `'0'`
or `'1'`.

## Model

| member | source | states |
|---|---|---|
| `Text.Join` | src/core/lib/Binary.mjs:33-35 | definition: the groups with the delimiter between each two, none after the last, the value the append loop at lines 33-35 and the slice at line 43 leave |
| `Text.RemoveAll` | src/core/lib/Binary.mjs:70 | definition of `data.replace(delimRegex, "")` on the literal delimiter: occurrences deleted left to right without overlap; the result is never longer than the input |
| `Text.Chunks` | src/core/lib/Binary.mjs:73-74 | definition: consecutive `substr(i, n)` pieces for `i = 0, n, 2n, ...` while `i < len`; the last may be shorter |
| `Binary.PadStart` | src/core/lib/Binary.mjs:34 | `padStart(width, "0")`: the result is `max(width, len(s))` long, so it never cuts `s` |
| `Binary.Group` | src/core/lib/Binary.mjs:34 | definition: `x.toString(2).padStart(padding, "0")` |
| `Binary.Encoding` | src/core/lib/Binary.mjs:28-47 | definition of what `toBinary` returns: the join of the groups for a non-empty array, one group for a number, `""` otherwise |
| `Binary.BitPrefix` | src/core/lib/Binary.mjs:74 | the digits `parseInt(chunk, 2)` reads: binary digits only, no longer than the chunk |
| `Binary.ParseBinary` | src/core/lib/Binary.mjs:74 | definition of `parseInt(chunk, 2)`: the base-2 value of `BitPrefix(chunk)` when the chunk starts with a binary digit, `Unparsed` otherwise |
| `Binary.Round` | src/core/lib/Binary.mjs:66 | `Math.round`: an integer within half of `x`, halves going up |
| `Binary.Decoding` | src/core/lib/Binary.mjs:65-77 | definition of what `fromBinary` returns: the error for a bad `byteLen`, else the parses of the `byteLen`-wide pieces of the cleaned string |
| `Base2.ToBase2` | src/core/lib/Binary.mjs:34 | `toString(2)` of a non-negative integer is a non-empty string of binary digits |
| `Base2.FromBase2` | src/core/lib/Binary.mjs:74 | the base-2 value of `k` digits is below `2^k` |
| `Base2.FromToBase2` | src/core/lib/Binary.mjs:34 | reading back the digits that `toString(2)` writes gives the number |
| `Base2.ToBase2LeadingDigit` | src/core/lib/Binary.mjs:34 | the first digit is `'0'` exactly for zero, so there are no leading zeros |
| `Base2.ToBase2Length` | src/core/lib/Binary.mjs:34 | the digit count is the bit length: `2^(len-1) <= n < 2^len` for `n >= 1` |
| `Base2.ToBase2Fits` | src/core/lib/Binary.mjs:34 | the digits fit in `p >= 1` characters exactly when `n < 2^p` |
| `Base2.LeadingZeros` | src/core/lib/Binary.mjs:34 | the `'0'` characters `padStart` adds do not change the value |
| `Text.JoinSnoc` | src/core/lib/Binary.mjs:33-35 | appending a group adds one delimiter before it and nothing after it |
| `Text.JoinEmptyDelimiter` | src/core/lib/Binary.mjs:44-45 | with the empty delimiter the groups are concatenated |
| `Text.JoinLength` | src/core/lib/Binary.mjs:33-35 | joining `k >= 1` groups adds exactly `k - 1` delimiters |
| `Text.RemoveAllJoin` | src/core/lib/Binary.mjs:70 | deleting the delimiter from a join leaves the groups' concatenation, if no group holds the delimiter's first character |
| `Text.ChunksConcat` | src/core/lib/Binary.mjs:73-74 | cutting `n`-character groups laid end to end at width `n` gives the groups back |
| `Text.ChunksFrom` | src/core/lib/Binary.mjs:73-74 | the pieces from offset `i` are `substr(i, n)` followed by the pieces from `i + n` |
| `Text.ChunksCount` | src/core/lib/Binary.mjs:73 | there are `ceil(len(s) / n)` pieces: they cover `s`, and one piece fewer would not |
| `Text.ChunkAt` | src/core/lib/Binary.mjs:73-74 | piece `k` is `s[k*n .. min((k+1)*n, len(s))]`, so only the last piece can be short |
| `Binary.ToBinary` | src/core/lib/Binary.mjs:28-47 | the loop-and-slice result equals `Encoding`: padded groups joined by the delimiter for a non-empty array, the padded digits for a number, `""` otherwise |
| `Binary.FromBinary` | src/core/lib/Binary.mjs:65-77 | the check-delete-read result equals `Decoding`: the byteLen error, or one parse per `byteLen`-wide piece of the cleaned string |
| `Binary.ReadPieces` | src/core/lib/Binary.mjs:72-76 | the loop that steps `i` by `n` and pushes `parseInt(substr(i, n), 2)` yields the parses of `Chunks(s, n)`, in order |
| `Binary.ReadStep` | src/core/lib/Binary.mjs:73-74 | one iteration moves the parse of `substr(i, n)` from the unread pieces to the end of the output |
| `Binary.ParseAllAt` | src/core/lib/Binary.mjs:74 | output value `k` is the parse of piece `k` |
| `Binary.BitPrefixIsLongest` | src/core/lib/Binary.mjs:74 | the digits `parseInt` reads are a prefix of the piece, and the character after them, if any, is not a binary digit |
| `Binary.GroupShape` | src/core/lib/Binary.mjs:34 | a group is `'0'` characters followed by the value's digits, `max(padding, digits)` long (never truncated), all binary, and reads back as the value |
| `Binary.GroupWidth` | src/core/lib/Binary.mjs:34 | with `padding >= 1`, a group is exactly `padding` wide exactly when the value is below `2^padding` |
| `Binary.ByteGroupWidth` | src/core/lib/Binary.mjs:28-34 | with the default padding 8, any value up to 255 is exactly 8 digits |
| `Binary.EncodingArray` | src/core/lib/Binary.mjs:32-46 | a non-empty array gives exactly `len(values) - 1` delimiters, the last group with no delimiter after it, and plain concatenation when the delimiter is empty |
| `Binary.EncodingNumber` | src/core/lib/Binary.mjs:36-37 | a single number gives its padded digits alone, binary only (no delimiter), reading back as the number |
| `Binary.EncodingEmpty` | src/core/lib/Binary.mjs:32-40 | an empty array and an input that is neither array nor number give `""` |
| `Binary.RoundIsIdentityOnIntegers` | src/core/lib/Binary.mjs:66 | `Math.round(b) === b` holds exactly when `b` is an integer |
| `Binary.DecodingFails` | src/core/lib/Binary.mjs:66-67 | decoding fails with the source's message and no output exactly when `byteLen < 1` or `byteLen` is not an integer |
| `Binary.DecodingPieces` | src/core/lib/Binary.mjs:69-76 | with a positive integer `byteLen`, the output has `ceil(len(cleaned) / byteLen)` values, and value `k` is the parse of `cleaned[k*byteLen .. min((k+1)*byteLen, len(cleaned))]` |
| `Binary.ParsedPieces` | src/core/lib/Binary.mjs:73-74 | the parses of the pieces of `s` number `ceil(len(s) / n)`, and parse `k` reads `s[k*n .. min((k+1)*n, len(s))]` |
| `Binary.DecodingBits` | src/core/lib/Binary.mjs:73-75 | when only binary digits remain, no value is `Unparsed`: each is the full base-2 value of its piece of `Chunks` |
| `Binary.DecodingBound` | src/core/lib/Binary.mjs:73-74 | every decoded number is below `2^byteLen` |
| `Binary.ParseBits` | src/core/lib/Binary.mjs:74 | `parseInt(piece, 2)` on a non-empty string of binary digits is its base-2 value |
| `Binary.ParseGroup` | src/core/lib/Binary.mjs:34 | each encoded group parses back to its value under `parseInt(group, 2)` |
| `Binary.RoundTrip` | src/core/lib/Binary.mjs:28-77 | decoding an encoding with the same width `w >= 1` gives the values back, when all values are below `2^w` and the delimiter is empty or does not start with a binary digit |
| `Binary.ByteRoundTrip` | src/core/lib/Binary.mjs:28-77 | with the defaults (width 8), byte values survive encode then decode, for any delimiter without `'0'`/`'1'`, including the empty one |
| `Examples.ExampleEncode` | src/core/lib/Binary.mjs:28-47 | `[10,20,30]` with a space encodes as `"00001010 00010100 00011110"` |
| `Examples.ExampleDecode` | src/core/lib/Binary.mjs:65-77 | that string decodes to `[10,20,30]` |
| `Examples.ExampleRemainder` | src/core/lib/Binary.mjs:72-75 | 22 digits at `byteLen` 8 give three values, the last read from its 6 digits alone |

## Left out

- `Utils.charRep` and `Utils.regexRep` (lines 29, 69) are not part of this model. They map a delimiter name to its literal text and to a removal pattern. The model takes the literal and deletes its occurrences left to right. Extra text a real pattern might match, such as other white space, is not modelled.
- JavaScript's dynamic typing is not modelled. The `Data` union replaces the truthiness of `data.length` (line 32) and the `typeof` test (line 36). Outside it are: non-empty strings and other array-likes, which the source encodes element by element; `Uint8Array` versus plain arrays; negative or fractional elements and single numbers, whose `toString(2)` holds `-` or `.` (so -5 gives `"0000-101"`); and `NaN` and `Infinity` as a single number (`"00000NaN"`, `"Infinity"`).
- The default arguments `delim="Space"`, `padding=8` (line 28) and `byteLen=8` (line 65) are not modelled: every caller passes all three. `ByteGroupWidth` and `ByteRoundTrip` cover the default width 8.
- A non-integer `padding` is left out: `padding` is an `int`.
- `byteLen` as `NaN` or `Infinity` is left out, since a `real` has neither. In JavaScript, `NaN` fails the check, and `Infinity` passes it and reads the whole cleaned string as one piece.
- ParseBinary: a piece that does not start with `'0'` or `'1'` is `Unparsed`, with no value claimed. JavaScript returns `NaN`, or, after leading white space or a sign, the number read from what follows.
- Floating point is left out: values are unbounded `nat`. So the precision loss of `parseInt` above 2^53 and of `toString(2)` on huge numbers is not modelled.
- Lengths are counted in characters. JavaScript counts UTF-16 code units, which differ only for characters outside the Basic Multilingual Plane.
