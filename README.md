# hextool in Dafny

A model of the Rust crate `hextool`, a text-to-hex encoder (`Hex`) and hex-to-text
decoder (`UnHex`). Both are driven by `convert(input, numeric, split)`, which
always returns a string: the converted text, or the message of the error that
stopped the conversion.

- **Encoder.** In byte-wise mode every byte of the input becomes two lowercase hex
  digits. In numeric mode a decimal number is printed with `{:02x}`. With `split`,
  the digits are grouped in pairs separated by spaces.
- **Decoder.** It first cleans the input. Every non-overlapping match of the regex
  `0[x|X]` is removed, so "0x", "0X" and "0|" all go. It then checks that the rest
  is hex digits, with each offending character highlighted in red, and pads the
  digits to an even length. Next it reads each pair as a `u8` that becomes one
  character, or, in numeric mode, the whole string as one `i64` that it prints in
  decimal. With `split`, the resulting characters are joined by single spaces.

The crate holds this logic three times: the crate root `src/lib.rs`, and two copies
under `src/util/`. The `src/main.rs` binary calls the encoder copy `src/util/hex.rs`
(src/main.rs:4, :16). Its `UnHex` arm does not decode: it writes each byte with an
inline `format!("{:02x}")` (src/main.rs:17). So nothing in `src/main.rs` calls the
decoder copy `src/util/unhex.rs`. The model has one module per copy.

- `RustCore`: the pieces of Rust's standard library the converters rely on.
  - `char::is_digit`.
  - `from_str_radix` and `str::parse`: sign, left-to-right digit loop, first error
    wins, overflow against the target type's range.
  - The `{}` and `{:02x}` formatting of integers.
  - The UTF-8 bytes behind `str::as_bytes`.
- `HexTool` (`src/lib.rs`):
  - The declarative specification: `Encoded`, `Decoded`, `Grouped`,
    `StripHexPrefixes`, `Highlight`, `Validated`, `DecodedPairs`, `Spaced`.
  - The crate's loops as methods proved against it: the split loop, `validate_hex`
    and `un_hex_string`.
  - The two `convert` functions, as methods whose output is `Encoded` / `Decoded`.
  - Lemmas for everything the crate promises, including the ASCII round trip
    `decode(encode(t)) == t`.
- `UtilHex` (`src/util/hex.rs`): the encoder copy. Each of its members is proved
  equal to the crate root's member wherever it does not panic. The numeric domain is
  narrower, because this copy parses into `i32` (see Findings).
- `UtilUnHex` (`src/util/unhex.rs`): the decoder copy. Each member is proved equal
  to the crate root's specification.
- `ConverterTests`: the expectations of `tests/converters.rs`, proved of the model.

Errors are the datatype `HexTool.HexToolError`. It records where the error was
raised and what caused it. Its `Message()` is the text the crate's `format!` builds
at that place, and that text is what `convert` returns.

## Model

| member | source | states |
|---|---|---|
| RustCore.DigitValue | src/lib.rs:209 | the value of a character that `is_digit(radix)` accepts is below the radix |
| RustCore.DigitChar | src/lib.rs:114 | the digit formatting writes for a value below 16 is a lowercase hex digit that reads back as that value, and a decimal digit when the value is below 10 |
| RustCore.ValueLeadingZero | src/lib.rs:222-224 | a leading '0' keeps a digit string a digit string and keeps its value |
| RustCore.ToBaseValue | src/lib.rs:176 | the digits of `n` are non-empty, lowercase, read back as `n`, and start with '0' only when `n` is 0 |
| RustCore.Zeros | src/lib.rs:125 | `n` characters, all '0' |
| RustCore.PadLeft | src/lib.rs:125 | width padding: the result has length max(len, width), ends with the string and is '0' before it |
| RustCore.ZerosValue | src/lib.rs:125 | any number of leading zeros keeps the digits and the value |
| RustCore.PadLeftValue | src/lib.rs:125 | zero padding keeps a digit string's digits and value |
| RustCore.PadLeftLowerHex | src/lib.rs:125 | zero padding keeps lowercase hex digits lowercase hex |
| RustCore.Format02xValue | src/lib.rs:125 | `{:02x}` of a non-negative number is at least two lowercase hex digits that read back as it, with a leading '0' only as padding |
| RustCore.Format02xByte | src/lib.rs:114 | `{:02x}` of a byte is its high nibble digit then its low nibble digit, and reads back as the byte |
| RustCore.DecimalValue | src/lib.rs:176 | `{}` of a non-negative integer is decimal digits that read back as it, with no leading zero unless it is 0, which fixes the string uniquely |
| RustCore.Accumulate | src/lib.rs:174 | the digit loop of `from_str_radix` only returns values inside the target type's range, and succeeds only when every character is a digit |
| RustCore.FromStrRadix | src/lib.rs:174 | a parse result lies inside the target type's range; the empty string is the `Empty` error |
| RustCore.AccumulateDigits | src/lib.rs:174 | on digits, the loop returns the string's value when it fits in the type, and `PosOverflow` otherwise |
| RustCore.ParseDigits | src/lib.rs:124 | on a non-empty digit string, parsing returns its value exactly when the value fits in the type, and `PosOverflow` otherwise |
| RustCore.CharUtf8 | src/lib.rs:114 | a character is 1 to 4 UTF-8 bytes; it is a single byte, equal to its code, exactly when it is ASCII |
| RustCore.Utf8 | src/lib.rs:114 | `as_bytes` gives at least one byte per character |
| RustCore.Utf8Ascii | src/lib.rs:114 | the bytes of an ASCII string are its character codes, one per character |
| RustCore.DigitsAreAscii | src/lib.rs:189 | a digit string is ASCII, so the two-byte slices of `un_hex_string` stay on character boundaries |
| HexTool.HexOfBytes | src/lib.rs:114 | two digits per byte; digit `k` is the high nibble of byte `k / 2` at even `k` and its low nibble at odd `k` |
| HexTool.HexOfBytesLowerHex | src/lib.rs:114 | the byte-wise hex holds lowercase hex digits only |
| HexTool.HexString | src/lib.rs:113-115 | `hex_string` never fails, and returns two digits per input byte, high nibble first, in input order |
| HexTool.HexNumeric | src/lib.rs:117-126 | fails exactly when some character is not a decimal digit, and then with the fixed `hex` numeric error; otherwise returns at least two lowercase hex digits reading back as the decimal value, zero-padded only up to two digits |
| HexTool.GroupedSnoc | src/lib.rs:142-147 | one more digit is appended to the groups, after a space exactly when its index is even and not 0 |
| HexTool.SplitBytes | src/lib.rs:141-148 | the split loop builds exactly the grouped digits |
| HexTool.HexConvert | src/lib.rs:130-155 | `Hex::convert` returns `Encoded`: the digits, grouped when split, or the error message, which is never split |
| HexTool.GroupedAt | src/lib.rs:140-148 | the grouped string has a space at positions 2, 5, 8, ... and the next digit everywhere else, so every group has two digits but perhaps the last |
| HexTool.UngroupGrouped | src/lib.rs:140-148 | deleting the spaces from grouped digits gives the digits back |
| HexTool.EncodedByteWise | src/lib.rs:113-115 | byte-wise output has length twice the byte count, is lowercase hex, and holds each byte's high and low nibble at positions 2i and 2i+1 |
| HexTool.NibbleDigitsOfByte | src/lib.rs:114 | digits 2i and 2i+1 of the byte-wise hex are the nibbles of byte i |
| HexTool.EncodedByteWiseSplit | src/lib.rs:140-148 | the split byte-wise output is the unsplit output grouped in pairs, and removing its spaces gives the unsplit output |
| HexTool.EncodedNumericRejects | src/lib.rs:118-123 | numeric encoding of input with a non-decimal character returns exactly "Input is not valid for 'hex' with numeric flag (-n).", split or not |
| HexTool.EncodedNumeric | src/lib.rs:124-125 | numeric encoding of a decimal number up to `i64::MAX` is its value in lowercase hex, at least two digits, padded only up to two; split output groups those digits |
| HexTool.StripHexPrefixes | src/lib.rs:203-204 | the prefix pass never makes the input longer |
| HexTool.StripUnchanged | src/lib.rs:203-204 | the pass leaves its input unchanged exactly when the input holds no '0' followed by 'x', '\|' or 'X' |
| HexTool.StripRemovesPairs | src/lib.rs:203-204 | the pass removes characters in pairs |
| HexTool.StripRemovesEveryPrefix | src/lib.rs:203-204 | every "0x", "0X" or "0\|" between two strings is removed, and the two sides are cleaned independently |
| HexTool.LowerHexUnstripped | src/lib.rs:203-204 | lowercase hex digits pass through the cleaning unchanged |
| HexTool.InvalidCountZero | src/lib.rs:206-215 | no character is invalid exactly when all are hex digits |
| HexTool.HighlightAppend | src/lib.rs:208-215 | highlighting a concatenation is concatenating the highlights |
| HexTool.HighlightPrefix | src/lib.rs:208-215 | one loop step appends the next character's mark, and `is_valid` stays true exactly when the character is a hex digit |
| HexTool.HighlightLength | src/lib.rs:208-215 | the highlighted text keeps every character and adds nine escape characters per invalid one; it equals the input exactly when all characters are hex digits |
| HexTool.ValidateHex | src/lib.rs:202-226 | the `validate_hex` loop computes `Validated`: the highlighted cleaned input as the error, or the cleaned digits padded to even length |
| HexTool.ValidatedFrom | src/lib.rs:216-225 | the outcome after the loop: an error holding the highlighted text when some character was invalid, otherwise that text with one '0' in front when its length is odd |
| HexTool.ValidatedOk | src/lib.rs:222-225 | validation succeeds exactly when the cleaned input is all hex digits; the result then has even length and is the cleaned input after a single '0' exactly when the cleaned length was odd |
| HexTool.PaddedEven | src/lib.rs:222-224 | padding odd-length digits with one '0' gives even-length digits ending with the original |
| HexTool.ValidatedErr | src/lib.rs:216-219 | validation fails exactly when some cleaned character is not a hex digit; the error holds every cleaned character, the invalid ones marked, with nine extra characters per invalid one |
| HexTool.ParseHexDigits | src/lib.rs:174 | `i64::from_str_radix` on non-empty hex digits returns their value when it fits, and `PosOverflow` otherwise |
| HexTool.UnHexNumeric | src/lib.rs:173-181 | errors only with the `unhex` numeric prefix; empty input is the `Empty` error; on hex digits it succeeds exactly when the value fits in `i64`, and then returns the canonical decimal of that value: digits reading back as it, with no leading zero unless it is 0 |
| HexTool.BytesAsChars | src/lib.rs:192 | `u8 as char`: one character per byte whose code is the byte |
| HexTool.DecodedPair | src/lib.rs:189-196 | a decoded pair is a character below U+0100 |
| HexTool.DecodedPairsAllOk | src/lib.rs:188-199 | when every pair decodes, the result is their characters in order |
| HexTool.DecodedPairsFirstErr | src/lib.rs:191-196 | the first pair that fails decides the error of the whole decoding |
| HexTool.UnHexString | src/lib.rs:183-200 | the `un_hex_string` loop computes `DecodedPairs`, on the even-length ASCII inputs where its slicing does not panic |
| HexTool.DecodedPairsOfHex | src/lib.rs:183-200 | even-length hex digits decode without error into one character per pair, with code equal to the pair's value |
| HexTool.PairsRoundTrip | src/lib.rs:183-200 | decoding the byte-wise hex of any bytes gives one character per byte, with code equal to the byte |
| HexTool.DecodedPairsByte | src/lib.rs:189-192 | a leading `{:02x}` byte decodes to that byte's character in front of the rest |
| HexTool.DecodedPairOfByte | src/lib.rs:189-192 | the two digits of a byte decode to that byte's character |
| HexTool.SpacedAt | src/lib.rs:247-248 | joined characters sit at the even positions in order, with a space at every odd position; the length is 2n-1 |
| HexTool.UnHexConvert | src/lib.rs:230-252 | `UnHex::convert` returns `Decoded`: the validation error message, or the decoding in the chosen mode (spaced when split), or its error message |
| HexTool.DecodedValidationError | src/lib.rs:232-235 | a validation error is returned whatever the flags, as the fixed prefix plus the highlighted cleaned input plus "." |
| HexTool.DecodedByteWise | src/lib.rs:237-249 | byte-wise decoding of a valid input never fails; it yields one character per digit pair of the padded digits, with code equal to the pair's value; the split output is those characters spaced |
| HexTool.DecodedNumeric | src/lib.rs:238-239 | numeric decoding of a valid input gives the canonical decimal (no leading zero unless it is "0") of the cleaned digits' value when it fits in `i64` (the padding '0' does not change it); otherwise it gives an error starting with the `unhex` numeric prefix |
| HexTool.RoundTrip | src/lib.rs:113-115 | decoding the byte-wise encoding of ASCII text gives the text back, and the text's characters spaced when split |
| HexTool.NumericRoundTrip | src/lib.rs:124-125 | numeric decoding of the numeric encoding of a decimal number up to `i64::MAX` gives its canonical decimal |
| UtilHex.HexString | src/util/hex.rs:30-32 | the copy's `hex_string` equals the crate root's |
| UtilHex.HexNumeric | src/util/hex.rs:34-43 | where the `i32` parse does not panic, the copy's `hex_numeric` equals the crate root's, and the crate root does not panic either |
| UtilHex.SplitBytes | src/util/hex.rs:13-21 | the copy's split loop builds the grouped digits |
| UtilHex.Convert | src/util/hex.rs:3-28 | the copy's `convert` returns what the crate root's `Hex::convert` returns, on every input where it does not panic |
| UtilHex.NarrowerNumericDomain | src/util/hex.rs:41 | every numeric input the copy accepts, the crate root accepts; digit strings above `i32::MAX` and up to `i64::MAX` are accepted only by the crate root |
| UtilHex.CafebabeExceedsI32 | src/util/hex.rs:41 | "3405691582" is a valid number for the crate root, which encodes it as "cafebabe", but it exceeds `i32::MAX`, so the copy panics on it |
| UtilHex.DecimalDigitsOfCafebabe | tests/converters.rs:17-18 | "3405691582" is decimal digits worth 0xCAFEBABE |
| UtilHex.HexDigitsOfCafebabe | tests/converters.rs:17-18 | 0xCAFEBABE prints in hex as "cafebabe" |
| UtilUnHex.UnHexNumeric | src/util/unhex.rs:30-38 | the copy's `un_hex_numeric` equals the crate root's |
| UtilUnHex.UnHexString | src/util/unhex.rs:40-57 | the copy's loop computes the crate root's `DecodedPairs` |
| UtilUnHex.ValidateHex | src/util/unhex.rs:59-83 | the copy's `validate_hex` loop computes the crate root's `Validated` |
| UtilUnHex.Convert | src/util/unhex.rs:6-28 | the copy's `convert` returns what the crate root's `UnHex::convert` returns |
| ConverterTests.HelloBytes | tests/converters.rs:6-7 | the bytes of "hello" are 68 65 6c 6c 6f |
| ConverterTests.HelloHex | tests/converters.rs:6-7 | those bytes encode as "68656c6c6f" |
| ConverterTests.GroupedHello | tests/converters.rs:9-10 | "68656c6c6f" splits as "68 65 6c 6c 6f" |
| ConverterTests.HexHello | tests/converters.rs:6-10 | "hello" encodes as "68656c6c6f", split as "68 65 6c 6c 6f" |
| ConverterTests.HexHelloNumeric | tests/converters.rs:13-14 | "hello" in numeric mode gives the `hex` numeric error message |
| ConverterTests.GroupedCafebabe | tests/converters.rs:20-21 | "cafebabe" splits as "ca fe ba be" |
| ConverterTests.HexCafebabe | tests/converters.rs:17-21 | "3405691582" encodes numerically as "cafebabe", split as "ca fe ba be" |
| ConverterTests.StripIsOnePass | src/lib.rs:203-204 | the pass is single: "00xx" cleans to "0x"; "0x41" cleans to "41"; "0\|ff" cleans to "ff" |
| ConverterTests.UnHexHello | tests/converters.rs:27-28 | "68656c6c6f" decodes to "hello" |
| ConverterTests.HighlightWithG | tests/converters.rs:31-32 | "abcdefgabc" highlights as "abcdef", the red 'g', "abc", and is not all hex digits |
| ConverterTests.StripWithG | tests/converters.rs:31-32 | "abcdefgabc" has nothing to clean |
| ConverterTests.UnprefixedInvalid | src/lib.rs:216-219 | an input with nothing to clean and an invalid character fails validation with its own highlight |
| ConverterTests.UnHexInvalidChar | tests/converters.rs:31-32 | decoding "abcdefgabc" gives the invalid-characters message with the red 'g', whatever the flags |
| ConverterTests.UnHexNumericFf | tests/converters.rs:35-40 | "ff" and "0xff" decode numerically to "255" |
| ConverterTests.Pair41 | tests/converters.rs:43-48 | "41" parses in base 16 to 65, as `u8` and as `i64` |
| ConverterTests.UnHex0x41 | tests/converters.rs:43-48 | "0x41" decodes to "65" in numeric mode and to "A" byte-wise |
| ConverterTests.ValueCafebabe | tests/converters.rs:51-52 | "cafebabe" is hex digits worth 0xCAFEBABE |
| ConverterTests.DecimalCafebabe | tests/converters.rs:51-52 | 0xCAFEBABE prints in decimal as "3405691582" |
| ConverterTests.UnHexCafebabe | tests/converters.rs:51-52 | "cafebabe" decodes numerically to "3405691582" |

## Left out

- The command-line front ends (`src/main.rs`, `src/bin/hextool.rs`) are not part of this model. They do argument parsing and printing only.
- The `Debug`, `Display` and `Error` impls of `HexToolError` (`src/lib.rs:68-82`, `src/util/error.rs`) only echo `message`, and the model has no separate display. The error is a datatype of causes, and `HexToolError.Message()` is the `message` text built at each raise site.
- The standard library's `ParseIntError` texts are constants in `RustCore.Describe`. No lemma depends on their wording. The numeric-decoding lemmas state only that the message starts with the crate's own prefix.
- The `regex` crate is not part of this model. The pattern `0[x|X]` with `replace_all` is modelled as a hand-written single left-to-right scan, `HexTool.StripHexPrefixes`.
- Panics are preconditions, not behaviour.
  - `unwrap` on an empty or overflowing numeric encoder input: `HexTool.HexNumericDefined` and `UtilHex.NumericDefined`.
  - Slicing `input[i..i + 2]` off a character boundary or past the end in `un_hex_string`: `HexTool.UnHexString` and `UtilUnHex.UnHexString` require an even-length ASCII input. Every input that `validate_hex` passes on meets this, which `UnHexConvert` and `UtilUnHex.Convert` use.
- `HexTool.UnHexString`: `input.len()` counts bytes and the model counts characters. The two agree on the ASCII inputs the precondition admits.
- `HexTool.DecodedNumeric`: when the value does not fit, it states only the message prefix. The suffix is the standard library's text.
- `HexTool.RoundTrip`: holds for ASCII text only. `u8 as char` turns each byte of a multi-byte UTF-8 character into a separate Latin-1 character, so decoding does not give non-ASCII text back.
- The crate-level doc examples at `src/lib.rs:31` ("{ff}") and `src/lib.rs:51` ("ag" then a red "a") disagree with the code. The model follows the code and `tests/converters.rs`: "255" encodes as "ff", and "aga" is highlighted as "a", a red "g", then "a".
- Numeric encoding pads to at least two digits, because `{:02x}` sets a width of two (src/lib.rs:125). The prefix class `[x|X]` also matches '|', so "0|" is removed along with "0x" and "0X" (src/lib.rs:203). The model follows both.

## Findings

| source | as written | input that shows it | evidently intended | confidence | as-written member | corrected member |
|---|---|---|---|---|---|---|
| src/util/hex.rs:41 | the numeric encoder copy parses into `i32`, so `unwrap` panics on any number above 2147483647 | "3405691582" with the numeric flag: the crate root encodes it as "cafebabe", and this copy panics | parse into `i64`, as the crate root does at src/lib.rs:124, which the crate's test at tests/converters.rs:17-18 expects | not executed; the copy is otherwise line for line the crate root's encoder | UtilHex.CafebabeExceedsI32 | HexTool.HexNumeric |
