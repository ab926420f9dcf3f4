/** The crate root: the `Hex` encoder and the `UnHex` decoder, each a
    `convert(input, numeric, split)` that always returns text (an error is
    returned as its message). The declarative functions here (`Encoded`,
    `Decoded`, `Grouped`, `Validated`, `DecodedPairs`, ...) are the
    specification that the loops of this crate, and of its two duplicates
    under `util/`, are proved against. */
module HexTool {
  import opened RustCore

  /** `HexToolError`, by the place that raised it. Its `message` field, which is
      also its display, is `Message()`: the text the crate's `format!` builds there. */
  datatype HexToolError =
    | NotNumeric                              // `Hex::hex_numeric`: not all decimal digits
    | UnHexNumericFailed(kind: IntErrorKind)  // `UnHex::un_hex_numeric`: the `i64` parse failed
    | InvalidChars(highlighted: string)       // `UnHex::validate_hex`: the marked input
    | CouldNotParse(kind: IntErrorKind)       // `UnHex::un_hex_string`: a pair's `u8` parse failed
  {
    function Message(): string
    {
      match this
      case NotNumeric => HEX_NUMERIC_ERROR
      case UnHexNumericFailed(k) => UNHEX_NUMERIC_PREFIX + Describe(k)
      case InvalidChars(h) => INVALID_CHARS_PREFIX + h + "."
      case CouldNotParse(k) => COULD_NOT_PARSE_PREFIX + Describe(k)
    }
  }

  const HEX_NUMERIC_ERROR := "Input is not valid for 'hex' with numeric flag (-n)."
  const UNHEX_NUMERIC_PREFIX := "Input is not valid for 'unhex' with numeric flag (-n). "
  const INVALID_CHARS_PREFIX := "The highlighted chars can't be converted:\n"
  const COULD_NOT_PARSE_PREFIX := "Could not parse "
  /** ANSI escapes that turn the terminal colour red and back. */
  const RED := "\U{1B}[31m"
  const RESET := "\U{1B}[0m"

  predicate StartsWith(s: string, prefix: string)
  {
    |prefix| <= |s| && s[..|prefix|] == prefix
  }

  // ===========================================================================
  // Hex: text to hex
  // ===========================================================================

  /** The `k`-th digit of the byte-wise hex of `bs`: the high nibble of byte
      `k / 2` at even `k`, its low nibble at odd `k`. */
  function NibbleDigit(bs: seq<Byte>, k: nat): char
    requires k < 2 * |bs|
  {
    DigitChar(if k % 2 == 0 then bs[k / 2] / 16 else bs[k / 2] % 16)
  }

  /** Each byte as two lowercase hex digits, in order. */
  function HexOfBytes(bs: seq<Byte>): (r: string)
    ensures |r| == 2 * |bs|
    ensures forall k | 0 <= k < |r| :: r[k] == NibbleDigit(bs, k)
  {
    if bs == [] then []
    else
      var tail := HexOfBytes(bs[1..]);
      HexOfBytesCons(bs, tail);
      ByteHex(bs[0]) + tail
  }

  lemma HexOfBytesCons(bs: seq<Byte>, tail: string)
    requires bs != [] && |tail| == 2 * (|bs| - 1)
    requires forall k | 0 <= k < |tail| :: tail[k] == NibbleDigit(bs[1..], k)
    ensures forall k | 0 <= k < |tail| + 2 :: (ByteHex(bs[0]) + tail)[k] == NibbleDigit(bs, k)
  {
    var r := ByteHex(bs[0]) + tail;
    forall k | 0 <= k < |tail| + 2 ensures r[k] == NibbleDigit(bs, k) {
      if k >= 2 {
        assert r[k] == NibbleDigit(bs[1..], k - 2);
        assert (k - 2) / 2 == k / 2 - 1 && (k - 2) % 2 == k % 2;
      }
    }
  }

  /** The byte-wise hex is lowercase hex digits only. */
  lemma HexOfBytesLowerHex(bs: seq<Byte>)
    ensures AllLowerHex(HexOfBytes(bs))
  {
    var r := HexOfBytes(bs);
    forall k | 0 <= k < |r| ensures IsLowerHexDigit(r[k]) { assert r[k] == NibbleDigit(bs, k); }
  }

  /** `Hex::hex_string`: the bytes of the input, two hex digits each. */
  function HexString(input: string): (r: Result<string, HexToolError>)
    ensures r.Ok? && |r.value| == 2 * |Utf8(input)|
    ensures forall k | 0 <= k < |r.value| :: r.value[k] == NibbleDigit(Utf8(input), k)
  {
    Ok(HexOfBytes(Utf8(input)))
  }

  /** What `input.parse::<i64>().unwrap()` in `Hex::hex_numeric` needs in order not
      to panic, once the all-digits check has passed. */
  predicate HexNumericDefined(input: string)
  {
    AllDigits(input, 10) ==> input != [] && Value(input, 10) <= I64.max
  }

  /** `Hex::hex_numeric`: a decimal number as lowercase hex, at least two digits. */
  function HexNumeric(input: string): (r: Result<string, HexToolError>)
    requires HexNumericDefined(input)
    ensures r.Err? <==> !AllDigits(input, 10)
    ensures r.Err? ==> r.error == NotNumeric
    ensures r.Ok? ==> |r.value| >= 2 && AllLowerHex(r.value) && AllDigits(r.value, 16)
    ensures r.Ok? ==> Value(r.value, 16) == Value(input, 10)
    ensures r.Ok? ==> (|r.value| == 2 || r.value[0] != '0')
  {
    if !AllDigits(input, 10) then Err(NotNumeric)
    else
      var parsed := FromStrRadix(input, 10, I64);
      ParseDigits(input, 10, I64);
      Format02xValue(parsed.value);
      Ok(Format02x(parsed.value))
  }

  /** The characters of `s` in groups of two separated by single spaces; only the
      last group may hold a single character. */
  function Grouped(s: string): string
  {
    if |s| <= 2 then s else s[..2] + " " + Grouped(s[2..])
  }

  /** What `Hex::convert` returns. */
  function Encoded(input: string, numeric: bool, split: bool): string
    requires numeric ==> HexNumericDefined(input)
  {
    var result := if numeric then HexNumeric(input) else HexString(input);
    match result
    case Ok(s) => if split then Grouped(s) else s
    case Err(e) => e.Message()
  }

  /** Appending one character to the digits appends it to the groups, after a
      space exactly when it starts a new pair. */
  lemma {:induction false} GroupedSnoc(s: string, c: char)
    ensures Grouped(s + [c]) == Grouped(s) + (if |s| % 2 == 0 && |s| != 0 then " " else "") + [c]
  {
    if |s| > 2 {
      GroupedSnoc(s[2..], c);
      assert (s + [c])[..2] == s[..2];
      assert (s + [c])[2..] == s[2..] + [c];
    }
  }

  /** The split loop of `Hex::convert`: a space is pushed before every character
      at an even index other than 0. */
  method SplitBytes(s: string) returns (grouped: string)
    ensures grouped == Grouped(s)
  {
    grouped := "";
    for i := 0 to |s|
      invariant grouped == Grouped(s[..i])
    {
      assert s[..i + 1] == s[..i] + [s[i]];
      GroupedSnoc(s[..i], s[i]);
      if i % 2 == 0 && i != 0 {
        grouped := grouped + " ";
      }
      grouped := grouped + [s[i]];
    }
    assert s[..|s|] == s;
  }

  /** `Hex::convert`: encode in the chosen mode, then split the digits into
      pairs when asked; an error is returned as its message. */
  method HexConvert(input: string, numeric: bool, split: bool) returns (out: string)
    requires numeric ==> HexNumericDefined(input)
    ensures out == Encoded(input, numeric, split)
  {
    var result := if numeric then HexNumeric(input) else HexString(input);
    match result {
      case Ok(s) =>
        if split {
          out := SplitBytes(s);
        } else {
          out := s;
        }
      case Err(e) =>
        out := e.Message();
    }
  }

  /** Spaces stand exactly at the positions 2, 5, 8, ...; every other position
      holds the next digit, so each group has two digits but perhaps the last. */
  lemma {:induction false} GroupedAt(s: string)
    ensures |Grouped(s)| == if s == [] then 0 else |s| + (|s| - 1) / 2
    ensures forall k | 0 <= k < |Grouped(s)| ::
      Grouped(s)[k] == if k % 3 == 2 then ' ' else s[k - k / 3]
  {
    if |s| > 2 {
      var rest := Grouped(s[2..]);
      GroupedAt(s[2..]);
      var g := Grouped(s);
      assert g == s[..2] + " " + rest;
      forall k | 0 <= k < |g|
        ensures g[k] == if k % 3 == 2 then ' ' else s[k - k / 3]
      {
        if k >= 3 {
          assert g[k] == rest[k - 3];
          assert (k - 3) / 3 == k / 3 - 1 && (k - 3) % 3 == k % 3;
        }
      }
    }
  }

  /** Deleting every space. */
  function WithoutSpaces(s: string): (r: string)
    ensures |r| <= |s|
  {
    if s == [] then []
    else (if s[0] == ' ' then [] else [s[0]]) + WithoutSpaces(s[1..])
  }

  lemma {:induction false} WithoutSpacesAppend(a: string, b: string)
    ensures WithoutSpaces(a + b) == WithoutSpaces(a) + WithoutSpaces(b)
  {
    if a != [] {
      WithoutSpacesAppend(a[1..], b);
      assert (a + b)[0] == a[0];
      assert (a + b)[1..] == a[1..] + b;
    } else {
      assert a + b == b;
    }
  }

  /** Removing the spaces from the groups gives the digits back. */
  lemma {:induction false} UngroupGrouped(s: string)
    requires ' ' !in s
    ensures WithoutSpaces(Grouped(s)) == s
  {
    if |s| <= 2 {
      if s != [] {
        assert s[0] != ' ';
        if |s| == 2 {
          assert s[1] != ' ' && s[1..][1..] == [];
        }
      }
    } else {
      var rest := Grouped(s[2..]);
      assert ' ' !in s[2..];
      UngroupGrouped(s[2..]);
      var a := s[..2] + " ";
      assert Grouped(s) == a + rest;
      WithoutSpacesAppend(a, rest);
      assert s[0] != ' ' && s[1] != ' ';
      assert a[1..] == [s[1], ' '] && a[1..][1..] == " ";
      assert WithoutSpaces(" ") == [];
      assert WithoutSpaces(a) == s[..2];
      assert s[..2] + s[2..] == s;
    }
  }

  /** Byte-wise encoding: two lowercase hex digits per input byte, high nibble
      first, in input order. */
  lemma EncodedByteWise(input: string)
    ensures var bytes := Utf8(input); var out := Encoded(input, false, false);
      |out| == 2 * |bytes| && AllLowerHex(out) &&
      forall i | 0 <= i < |bytes| :: out[2 * i] == DigitChar(bytes[i] / 16) && out[2 * i + 1] == DigitChar(bytes[i] % 16)
  {
    var bytes := Utf8(input);
    var out := HexOfBytes(bytes);
    assert Encoded(input, false, false) == out;
    HexOfBytesLowerHex(bytes);
    forall i | 0 <= i < |bytes|
      ensures out[2 * i] == DigitChar(bytes[i] / 16) && out[2 * i + 1] == DigitChar(bytes[i] % 16)
    {
      NibbleDigitsOfByte(bytes, i);
    }
  }

  /** Digits `2 * i` and `2 * i + 1` are the two nibbles of byte `i`. */
  lemma NibbleDigitsOfByte(bs: seq<Byte>, i: nat)
    requires i < |bs|
    ensures NibbleDigit(bs, 2 * i) == DigitChar(bs[i] / 16)
    ensures NibbleDigit(bs, 2 * i + 1) == DigitChar(bs[i] % 16)
  {
    assert (2 * i) / 2 == i && (2 * i) % 2 == 0;
    assert (2 * i + 1) / 2 == i && (2 * i + 1) % 2 == 1;
  }

  /** The split form of a byte-wise encoding is its digits in pairs, and deleting
      the spaces gives the unsplit digits back. */
  lemma EncodedByteWiseSplit(input: string)
    ensures Encoded(input, false, true) == Grouped(Encoded(input, false, false))
    ensures WithoutSpaces(Encoded(input, false, true)) == Encoded(input, false, false)
  {
    var bytes := Utf8(input);
    var out := HexOfBytes(bytes);
    assert Encoded(input, false, false) == out;
    assert Encoded(input, false, true) == Grouped(out);
    HexOfBytesLowerHex(bytes);
    forall k | 0 <= k < |out| ensures out[k] != ' ' { assert IsLowerHexDigit(out[k]); }
    UngroupGrouped(out);
  }

  /** Numeric encoding rejects anything but ASCII decimal digits with one fixed
      message, which the split option leaves alone. */
  lemma EncodedNumericRejects(input: string, split: bool)
    requires !AllDigits(input, 10)
    ensures Encoded(input, true, split) == HEX_NUMERIC_ERROR
  {
  }

  /** Numeric encoding of a decimal number that fits in an `i64`: its value in
      lowercase hex, zero-padded to two digits, grouped in pairs when split. */
  lemma EncodedNumeric(input: string, split: bool)
    requires input != [] && AllDigits(input, 10) && Value(input, 10) <= I64.max
    ensures var out := Encoded(input, true, false);
      |out| >= 2 && AllLowerHex(out) && AllDigits(out, 16) &&
      Value(out, 16) == Value(input, 10) && (|out| == 2 || out[0] != '0')
    ensures Encoded(input, true, true) == Grouped(Encoded(input, true, false))
  {
  }

  // ===========================================================================
  // UnHex: hex to text
  // ===========================================================================

  /** A character that the pattern `0[x|X]` accepts after its '0'. */
  predicate IsPrefixMark(c: char)
  {
    c == 'x' || c == '|' || c == 'X'
  }

  /** `Regex::new("0[x|X]").replace_all(input, "")`: one left-to-right pass that
      drops every non-overlapping '0' followed by 'x', '|' or 'X'. */
  function StripHexPrefixes(s: string): (r: string)
    ensures |r| <= |s|
  {
    if |s| < 2 then s
    else if s[0] == '0' && IsPrefixMark(s[1]) then StripHexPrefixes(s[2..])
    else [s[0]] + StripHexPrefixes(s[1..])
  }

  /** `s` holds a match of `0[x|X]`. */
  predicate HasHexPrefix(s: string)
  {
    exists i | 0 <= i < |s| - 1 :: s[i] == '0' && IsPrefixMark(s[i + 1])
  }

  /** A match lies at the front or in the tail. */
  lemma HasHexPrefixTail(s: string)
    requires |s| >= 2
    ensures HasHexPrefix(s) <==> (s[0] == '0' && IsPrefixMark(s[1])) || HasHexPrefix(s[1..])
  {
    if HasHexPrefix(s) && !(s[0] == '0' && IsPrefixMark(s[1])) {
      var i :| 0 <= i < |s| - 1 && s[i] == '0' && IsPrefixMark(s[i + 1]);
      assert s[1..][i - 1] == s[i] && s[1..][i] == s[i + 1];
    }
    if HasHexPrefix(s[1..]) {
      var i :| 0 <= i < |s[1..]| - 1 && s[1..][i] == '0' && IsPrefixMark(s[1..][i + 1]);
      assert s[i + 1] == '0' && IsPrefixMark(s[i + 1 + 1]);
    }
  }

  /** The pass changes its input exactly when the input holds a match. */
  lemma {:induction false} StripUnchanged(s: string)
    ensures StripHexPrefixes(s) == s <==> !HasHexPrefix(s)
  {
    if |s| >= 2 {
      HasHexPrefixTail(s);
      if s[0] == '0' && IsPrefixMark(s[1]) {
        StripDropped(s);
      } else {
        var t := s[1..];
        StripUnchanged(t);
        StripKept(s);
        assert s == [s[0]] + t;
        if StripHexPrefixes(s) == s {
          assert StripHexPrefixes(t) == StripHexPrefixes(s)[1..];
        }
      }
    }
  }

  /** The pass always removes characters in pairs. */
  lemma {:induction false} StripRemovesPairs(s: string)
    ensures (|s| - |StripHexPrefixes(s)|) % 2 == 0
  {
    if |s| >= 2 {
      if s[0] == '0' && IsPrefixMark(s[1]) {
        StripRemovesPairs(s[2..]);
        StripDropped(s);
      } else {
        StripRemovesPairs(s[1..]);
        StripKept(s);
      }
    }
  }

  /** Every "0x", "0X" or "0|" placed between two strings is removed, whatever
      surrounds it, and the two sides are cleaned independently. */
  lemma {:induction false} StripRemovesEveryPrefix(p: string, m: char, q: string)
    requires IsPrefixMark(m)
    ensures StripHexPrefixes(p + ['0', m] + q) == StripHexPrefixes(p) + StripHexPrefixes(q)
    decreases |p|
  {
    var s := p + ['0', m] + q;
    if p == [] {
      assert s == ['0', m] + q && s[2..] == q;
    } else if |p| == 1 {
      assert StripHexPrefixes(s) == StripHexPrefixes(p) + StripHexPrefixes(q) by {
        assert s[1..] == ['0', m] + q && (['0', m] + q)[2..] == q;
        StripKept(s);
        StripDropped(s[1..]);
      }
    } else if p[0] == '0' && IsPrefixMark(p[1]) {
      assert StripHexPrefixes(s) == StripHexPrefixes(p) + StripHexPrefixes(q) by {
        assert s[2..] == p[2..] + ['0', m] + q;
        StripRemovesEveryPrefix(p[2..], m, q);
        StripDropped(s);
        StripDropped(p);
      }
    } else {
      assert StripHexPrefixes(s) == StripHexPrefixes(p) + StripHexPrefixes(q) by {
        assert s[1..] == p[1..] + ['0', m] + q;
        StripRemovesEveryPrefix(p[1..], m, q);
        StripKept(s);
        StripKept(p);
        ConcatAssoc([p[0]], StripHexPrefixes(p[1..]), StripHexPrefixes(q));
      }
    }
  }

  /** A match at the front is dropped. */
  lemma StripDropped(s: string)
    requires |s| >= 2 && s[0] == '0' && IsPrefixMark(s[1])
    ensures StripHexPrefixes(s) == StripHexPrefixes(s[2..])
  {
  }

  /** A front character that does not start a match is kept. */
  lemma StripKept(s: string)
    requires |s| >= 1 && !(|s| >= 2 && s[0] == '0' && IsPrefixMark(s[1]))
    ensures StripHexPrefixes(s) == [s[0]] + StripHexPrefixes(s[1..])
  {
    if |s| == 1 {
      assert s == [s[0]] && s[1..] == [];
    }
  }

  /** Lowercase hex digits hold no 'x', '|' or 'X', so the pass leaves them alone. */
  lemma LowerHexUnstripped(h: string)
    requires AllLowerHex(h)
    ensures StripHexPrefixes(h) == h
  {
    forall i | 0 <= i < |h| - 1 ensures !(h[i] == '0' && IsPrefixMark(h[i + 1])) {
      assert IsLowerHexDigit(h[i + 1]);
    }
    StripUnchanged(h);
  }

  /** `format!("\x1b[31m{}\x1b[0m", c)`: `c` between the red and reset escapes. */
  function InRed(c: char): string
  {
    RED + [c] + RESET
  }

  /** How `validate_hex` shows one cleaned character. */
  function Marked(c: char): string
  {
    if IsDigit(c, 16) then [c] else InRed(c)
  }

  /** Every character of `s`, the valid ones verbatim and each invalid one between
      the red and reset escapes. */
  function Highlight(s: string): string
  {
    if s == [] then [] else Highlight(s[..|s| - 1]) + Marked(s[|s| - 1])
  }

  /** How many characters of `s` are not hex digits. */
  function InvalidCount(s: string): (n: nat)
    ensures n <= |s|
  {
    if s == [] then 0
    else InvalidCount(s[..|s| - 1]) + (if IsDigit(s[|s| - 1], 16) then 0 else 1)
  }

  lemma {:induction false} InvalidCountZero(s: string)
    ensures InvalidCount(s) == 0 <==> AllDigits(s, 16)
  {
    if s != [] {
      InvalidCountZero(s[..|s| - 1]);
      assert forall i | 0 <= i < |s| - 1 :: s[..|s| - 1][i] == s[i];
    }
  }

  lemma {:induction false} HighlightAppend(p: string, q: string)
    ensures Highlight(p + q) == Highlight(p) + Highlight(q)
    decreases |q|
  {
    if q != [] {
      var q' := q[..|q| - 1];
      HighlightAppend(p, q');
      assert (p + q)[..|p + q| - 1] == p + q' && (p + q)[|p + q| - 1] == q[|q| - 1];
      ConcatAssoc(Highlight(p), Highlight(q'), Marked(q[|q| - 1]));
    } else {
      assert p + q == p;
    }
  }

  lemma ConcatAssoc(a: string, b: string, c: string)
    ensures a + (b + c) == a + b + c
  {
  }

  /** One more character: its mark is appended, and the whole stays valid exactly
      when the prefix was and the character is a hex digit. */
  lemma HighlightPrefix(s: string, i: nat)
    requires i < |s|
    ensures Highlight(s[..i + 1]) == Highlight(s[..i]) + Marked(s[i])
    ensures AllDigits(s[..i + 1], 16) <==> AllDigits(s[..i], 16) && IsDigit(s[i], 16)
  {
    var t := s[..i + 1];
    assert t[..|t| - 1] == s[..i] && t[|t| - 1] == s[i];
    assert forall k | 0 <= k < i :: t[k] == s[..i][k];
  }

  /** Highlighting keeps every character and adds the nine escape characters
      around each invalid one; it changes nothing exactly when all are valid. */
  lemma {:induction false} HighlightLength(s: string)
    ensures |Highlight(s)| == |s| + 9 * InvalidCount(s)
    ensures Highlight(s) == s <==> AllDigits(s, 16)
  {
    InvalidCountZero(s);
    if s != [] {
      var init := s[..|s| - 1];
      var c := s[|s| - 1];
      HighlightLength(init);
      assert s == init + [c];
      assert Highlight(s) == Highlight(init) + Marked(c);
      if AllDigits(s, 16) {
        assert AllDigits(init, 16) by {
          forall i | 0 <= i < |init| ensures IsDigit(init[i], 16) {
            assert init[i] == s[i];
          }
        }
        assert IsDigit(s[|s| - 1], 16);
        assert Highlight(init) == init && Marked(c) == [c];
      }
    }
  }

  /** `UnHex::validate_hex`, as a value. */
  function Validated(input: string): Result<string, HexToolError>
  {
    var cleaned := StripHexPrefixes(input);
    if AllDigits(cleaned, 16) then
      Ok(if |cleaned| % 2 != 0 then "0" + cleaned else cleaned)
    else
      Err(InvalidChars(Highlight(cleaned)))
  }

  /** `UnHex::validate_hex`: cleans the prefixes, marks every invalid character and
      pads a valid result to an even length. */
  method ValidateHex(input: string) returns (r: Result<string, HexToolError>)
    ensures r == Validated(input)
  {
    var cleaned := StripHexPrefixes(input);
    var isValid := true;
    var procInput := "";
    for i := 0 to |cleaned|
      invariant procInput == Highlight(cleaned[..i])
      invariant isValid == AllDigits(cleaned[..i], 16)
    {
      var c := cleaned[i];
      HighlightPrefix(cleaned, i);
      if !IsDigit(c, 16) {
        if isValid { isValid := false; }
        procInput := procInput + InRed(c);
        continue;
      }
      procInput := procInput + [c];
    }
    assert cleaned[..|cleaned|] == cleaned;
    ValidatedFrom(input, procInput, isValid);
    if !isValid {
      return Err(InvalidChars(procInput));
    }
    if |procInput| % 2 != 0 {
      procInput := "0" + procInput;
    }
    return Ok(procInput);
  }

  /** The outcome of validation, from the highlighted cleaned input and whether
      every cleaned character was a hex digit. */
  lemma ValidatedFrom(input: string, marked: string, valid: bool)
    requires marked == Highlight(StripHexPrefixes(input))
    requires valid == AllDigits(StripHexPrefixes(input), 16)
    ensures !valid ==> Validated(input) == Err(InvalidChars(marked))
    ensures valid ==> Validated(input) == Ok(if |marked| % 2 != 0 then "0" + marked else marked)
  {
    HighlightLength(StripHexPrefixes(input));
  }

  /** A successful validation is all hex digits of even length: the cleaned input,
      after a single '0' exactly when the cleaned input had odd length. */
  lemma ValidatedOk(input: string)
    ensures var cleaned := StripHexPrefixes(input);
      Validated(input).Ok? <==> AllDigits(cleaned, 16)
    ensures var cleaned := StripHexPrefixes(input); var r := Validated(input);
      r.Ok? ==> AllDigits(r.value, 16) && |r.value| % 2 == 0 &&
                |r.value| - |cleaned| == |cleaned| % 2 &&
                r.value[|r.value| - |cleaned|..] == cleaned &&
                (|r.value| > |cleaned| ==> r.value[0] == '0')
  {
    var cleaned := StripHexPrefixes(input);
    if AllDigits(cleaned, 16) {
      PaddedEven(cleaned);
    }
  }

  lemma PaddedEven(c: string)
    requires AllDigits(c, 16)
    ensures var v := if |c| % 2 != 0 then "0" + c else c;
      AllDigits(v, 16) && |v| % 2 == 0 && |v| - |c| == |c| % 2 &&
      v[|v| - |c|..] == c && (|v| > |c| ==> v[0] == '0')
  {
    if |c| % 2 != 0 {
      ValueLeadingZero(c, 16);
      assert ("0" + c)[1..] == c;
    } else {
      assert c[0..] == c;
    }
  }

  /** A failed validation names every cleaned character, each invalid one marked,
      and there was at least one invalid character. */
  lemma ValidatedErr(input: string)
    ensures var cleaned := StripHexPrefixes(input); var r := Validated(input);
      r.Err? <==> exists i | 0 <= i < |cleaned| :: !IsDigit(cleaned[i], 16)
    ensures var cleaned := StripHexPrefixes(input); var r := Validated(input);
      r.Err? ==> r.error == InvalidChars(Highlight(cleaned)) &&
                 |Highlight(cleaned)| == |cleaned| + 9 * InvalidCount(cleaned) &&
                 InvalidCount(cleaned) > 0
  {
    var cleaned := StripHexPrefixes(input);
    HighlightLength(cleaned);
    InvalidCountZero(cleaned);
  }

  lemma ParseHexDigits(s: string)
    ensures s != [] && AllDigits(s, 16) ==>
      FromStrRadix(s, 16, I64) == if Value(s, 16) <= I64.max then Ok(Value(s, 16)) else Err(PosOverflow)
  {
    if s != [] && AllDigits(s, 16) { ParseDigits(s, 16, I64); }
  }

  /** `UnHex::un_hex_numeric`: the whole string as one base-16 `i64`, in decimal. */
  function UnHexNumeric(input: string): (r: Result<string, HexToolError>)
    ensures r.Err? ==> r.error.UnHexNumericFailed?
    ensures input == [] ==> r == Err(UnHexNumericFailed(Empty))
    ensures input != [] && AllDigits(input, 16) ==>
      if Value(input, 16) <= I64.max then r.Ok? else r == Err(UnHexNumericFailed(PosOverflow))
    ensures input != [] && AllDigits(input, 16) && r.Ok? ==>
      AllDigits(r.value, 10) && Value(r.value, 10) == Value(input, 16) &&
      r.value != [] && (r.value[0] == '0' ==> r.value == "0")
  {
    ParseHexDigits(input);
    match FromStrRadix(input, 16, I64)
    case Ok(i) =>
      DecimalValue(i);
      Ok(Decimal(i))
    case Err(k) => Err(UnHexNumericFailed(k))
  }

  /** One character per byte, its code point being the byte (`u8 as char`). */
  function BytesAsChars(bs: seq<Byte>): (r: string)
    ensures |r| == |bs| && forall i | 0 <= i < |bs| :: r[i] as int == bs[i]
  {
    seq(|bs|, i requires 0 <= i < |bs| => bs[i] as char)
  }

  /** `r` with `p` in front of its text, or `r`'s error. */
  function Prepend(p: string, r: Result<string, HexToolError>): Result<string, HexToolError>
  {
    match r
    case Ok(t) => Ok(p + t)
    case Err(e) => Err(e)
  }

  /** One pair read as a `u8` in base 16 and taken as a character. */
  function DecodedPair(pair: string): (r: Result<char, HexToolError>)
    ensures r.Ok? ==> r.value as int < 0x100
  {
    match FromStrRadix(pair, 16, U8)
    case Err(k) => Err(CouldNotParse(k))
    case Ok(b) => Ok(b as char)
  }

  /** `UnHex::un_hex_string`, as a value: every pair of characters read as a `u8`
      in base 16 becomes one character; the first pair that does not parse is
      the error. */
  function DecodedPairs(s: string): Result<string, HexToolError>
    requires |s| % 2 == 0
  {
    if s == [] then Ok([])
    else
      match DecodedPair(s[..2])
      case Err(e) => Err(e)
      case Ok(c) => Prepend([c], DecodedPairs(s[2..]))
  }

  /** Pairs that all decode put their characters, in order, into the result. */
  lemma {:induction false} DecodedPairsAllOk(s: string, t: string)
    requires |s| == 2 * |t|
    requires forall k | 0 <= k < |t| :: DecodedPair(s[2 * k..2 * k + 2]) == Ok(t[k])
    ensures DecodedPairs(s) == Ok(t)
  {
    if t != [] {
      forall k | 0 <= k < |t| - 1 ensures DecodedPair(s[2..][2 * k..2 * k + 2]) == Ok(t[1..][k]) {
        assert s[2..][2 * k..2 * k + 2] == s[2 * (k + 1)..2 * (k + 1) + 2];
      }
      DecodedPairsAllOk(s[2..], t[1..]);
      assert s[..2] == s[2 * 0..2 * 0 + 2];
      assert t == [t[0]] + t[1..];
    }
  }

  /** The first pair that does not decode is the error of the whole decoding. */
  lemma {:induction false} DecodedPairsFirstErr(s: string, t: string, e: HexToolError)
    requires |s| % 2 == 0 && 2 * |t| + 2 <= |s|
    requires forall k | 0 <= k < |t| :: DecodedPair(s[2 * k..2 * k + 2]) == Ok(t[k])
    requires DecodedPair(s[2 * |t|..2 * |t| + 2]) == Err(e)
    ensures DecodedPairs(s) == Err(e)
  {
    assert s[..2] == s[2 * 0..2 * 0 + 2];
    if t != [] {
      forall k | 0 <= k < |t| - 1 ensures DecodedPair(s[2..][2 * k..2 * k + 2]) == Ok(t[1..][k]) {
        assert s[2..][2 * k..2 * k + 2] == s[2 * (k + 1)..2 * (k + 1) + 2];
      }
      assert s[2..][2 * |t[1..]|..2 * |t[1..]| + 2] == s[2 * |t|..2 * |t| + 2];
      DecodedPairsFirstErr(s[2..], t[1..], e);
      assert DecodedPair(s[..2]) == Ok(t[0]);
    }
  }

  /** `UnHex::un_hex_string`: a while loop over the byte index, two at a time.
      Slicing `input[i..i + 2]` panics on an odd length or off a character boundary;
      an even-length ASCII input never does. */
  method UnHexString(input: string) returns (r: Result<string, HexToolError>)
    requires |input| % 2 == 0 && IsAscii(input)
    ensures r == DecodedPairs(input)
  {
    var result := "";
    var i := 0;
    while i < |input|
      invariant i <= |input| && (|input| - i) % 2 == 0 && i == 2 * |result|
      invariant forall k | 0 <= k < |result| :: DecodedPair(input[2 * k..2 * k + 2]) == Ok(result[k])
    {
      var byte := input[i..i + 2];
      var parsed := FromStrRadix(byte, 16, U8);
      match parsed {
        case Ok(b) => result := result + [b as char];
        case Err(k) =>
          DecodedPairsFirstErr(input, result, CouldNotParse(k));
          return Err(CouldNotParse(k));
      }
      i := i + 2;
    }
    DecodedPairsAllOk(input, result);
    return Ok(result);
  }

  /** On hex digits of even length the pairs decode without error to one character
      per pair, whose code is the pair's value. */
  lemma {:induction false} DecodedPairsOfHex(s: string)
    requires |s| % 2 == 0 && AllDigits(s, 16)
    ensures DecodedPairs(s).Ok?
    ensures var t := DecodedPairs(s).value;
      |t| == |s| / 2 &&
      forall i | 0 <= i < |t| :: AllDigits(s[2 * i..2 * i + 2], 16) && t[i] as int == Value(s[2 * i..2 * i + 2], 16)
  {
    if s != [] {
      DecodedPairsOfHex(s[2..]);
      var pair := s[..2];
      ParseDigits(pair, 16, U8);
      assert Value(pair, 16) == Value(pair[..1], 16) * 16 + DigitValue(pair[1], 16);
      assert pair[..1][..0] == [];
      var t := DecodedPairs(s).value;
      var rest := DecodedPairs(s[2..]).value;
      assert t == [t[0]] + rest;
      forall i | 1 <= i < |t|
        ensures AllDigits(s[2 * i..2 * i + 2], 16) && t[i] as int == Value(s[2 * i..2 * i + 2], 16)
      {
        assert s[2..][2 * (i - 1)..2 * (i - 1) + 2] == s[2 * i..2 * i + 2];
      }
    }
  }

  /** Decoding the byte-wise encoding of any bytes gives one character per byte. */
  lemma {:induction false} PairsRoundTrip(bs: seq<Byte>)
    ensures DecodedPairs(HexOfBytes(bs)) == Ok(BytesAsChars(bs))
  {
    if bs != [] {
      var tail := HexOfBytes(bs[1..]);
      assert HexOfBytes(bs) == ByteHex(bs[0]) + tail;
      PairsRoundTrip(bs[1..]);
      DecodedPairsByte(bs[0], tail);
      assert BytesAsChars(bs) == [bs[0] as char] + BytesAsChars(bs[1..]);
    }
  }

  /** A leading `{:02x}` byte decodes to that byte's character. */
  lemma DecodedPairsByte(b: Byte, rest: string)
    requires |rest| % 2 == 0
    ensures DecodedPairs(ByteHex(b) + rest) == Prepend([b as char], DecodedPairs(rest))
  {
    DecodedPairOfByte(b);
    DecodedPairsCons(ByteHex(b), rest, b as char);
  }

  /** The two digits of a byte decode to that byte's character. */
  lemma DecodedPairOfByte(b: Byte)
    ensures DecodedPair(ByteHex(b)) == Ok(b as char)
  {
    Format02xByte(b);
    ParseDigits(ByteHex(b), 16, U8);
  }

  /** A pair that decodes to `c` in front of `rest` puts `c` in front of the
      decoding of `rest`. */
  lemma DecodedPairsCons(pair: string, rest: string, c: char)
    requires |pair| == 2 && |rest| % 2 == 0 && DecodedPair(pair) == Ok(c)
    ensures DecodedPairs(pair + rest) == Prepend([c], DecodedPairs(rest))
  {
    var s := pair + rest;
    assert s[..2] == pair && s[2..] == rest;
  }

  /** The characters of `s` joined by single spaces. */
  function Spaced(s: string): string
  {
    if |s| <= 1 then s else [s[0]] + " " + Spaced(s[1..])
  }

  /** Characters sit at the even positions, in order, with a space between each
      two of them. */
  lemma {:induction false} SpacedAt(s: string)
    ensures |Spaced(s)| == if s == [] then 0 else 2 * |s| - 1
    ensures forall k | 0 <= k < |Spaced(s)| :: Spaced(s)[k] == if k % 2 == 1 then ' ' else s[k / 2]
  {
    if |s| > 1 {
      SpacedAt(s[1..]);
      var r := Spaced(s);
      assert r == [s[0]] + " " + Spaced(s[1..]);
      forall k | 0 <= k < |r| ensures r[k] == if k % 2 == 1 then ' ' else s[k / 2] {
        if k >= 2 { assert r[k] == Spaced(s[1..])[k - 2]; }
      }
    }
  }

  /** What `UnHex::convert` returns. */
  function Decoded(input: string, numeric: bool, split: bool): string
  {
    match Validated(input)
    case Err(e) => e.Message()
    case Ok(valid) =>
      var result := if numeric then UnHexNumeric(valid) else DecodedPairs(valid);
      match result
      case Ok(s) => if split then Spaced(s) else s
      case Err(e) => e.Message()
  }

  /** `UnHex::convert`: validate, decode in the chosen mode, then join the
      characters with spaces when split. */
  method UnHexConvert(input: string, numeric: bool, split: bool) returns (out: string)
    ensures out == Decoded(input, numeric, split)
  {
    var validated := ValidateHex(input);
    var validInput;
    match validated {
      case Ok(s) => validInput := s;
      case Err(e) => return e.Message();
    }
    ValidatedOk(input);
    DigitsAreAscii(validInput, 16);
    var result;
    if numeric {
      result := UnHexNumeric(validInput);
    } else {
      result := UnHexString(validInput);
    }
    match result {
      case Ok(s) =>
        if !split { return s; }
        return Spaced(s);
      case Err(e) =>
        return e.Message();
    }
  }

  /** A validation error is the whole answer, whatever the flags. */
  lemma DecodedValidationError(input: string, numeric: bool, split: bool)
    requires Validated(input).Err?
    ensures Decoded(input, numeric, split) == INVALID_CHARS_PREFIX + Highlight(StripHexPrefixes(input)) + "."
  {
  }

  /** Byte-wise decoding of a valid input never fails: one character per digit
      pair of the padded digits, whose code is the pair's value. */
  lemma {:induction false} DecodedByteWise(input: string)
    requires Validated(input).Ok?
    ensures var v := Validated(input).value; var out := Decoded(input, false, false);
      |v| % 2 == 0 && AllDigits(v, 16) && |out| == |v| / 2 &&
      forall i | 0 <= i < |out| :: AllDigits(v[2 * i..2 * i + 2], 16) && out[i] as int == Value(v[2 * i..2 * i + 2], 16)
    ensures Decoded(input, false, true) == Spaced(Decoded(input, false, false))
  {
    ValidatedOk(input);
    DecodedPairsOfHex(Validated(input).value);
  }

  /** Numeric decoding of a valid input: the decimal of the cleaned digits' value
      (the padding '0' does not change it) when it fits in an `i64`, and otherwise
      an error with the fixed prefix. */
  lemma {:induction false} DecodedNumeric(input: string)
    requires Validated(input).Ok?
    ensures var cleaned := StripHexPrefixes(input); var out := Decoded(input, true, false);
      AllDigits(cleaned, 16) &&
      if cleaned != [] && Value(cleaned, 16) <= I64.max
      then AllDigits(out, 10) && Value(out, 10) == Value(cleaned, 16) &&
        out != [] && (out[0] == '0' ==> out == "0")
      else StartsWith(out, UNHEX_NUMERIC_PREFIX)
  {
    var cleaned := StripHexPrefixes(input);
    ValidatedOk(input);
    var v := Validated(input).value;
    var r := UnHexNumeric(v);
    assert Decoded(input, true, false) == if r.Ok? then r.value else r.error.Message();
    if |cleaned| % 2 != 0 {
      ValueLeadingZero(cleaned, 16);
    }
  }

  /** Decoding undoes byte-wise encoding for ASCII text. */
  lemma RoundTrip(t: string)
    requires IsAscii(t)
    ensures Decoded(Encoded(t, false, false), false, false) == t
    ensures Decoded(Encoded(t, false, false), false, true) == Spaced(t)
  {
    var bs := Utf8(t);
    var h := HexOfBytes(bs);
    assert Encoded(t, false, false) == h;
    HexOfBytesLowerHex(bs);
    LowerHexUnstripped(h);
    assert AllDigits(h, 16) by {
      forall i | 0 <= i < |h| ensures IsDigit(h[i], 16) { assert IsLowerHexDigit(h[i]); }
    }
    assert Validated(h) == Ok(h);
    PairsRoundTrip(bs);
    Utf8Ascii(t);
    assert BytesAsChars(bs) == t;
    assert Decoded(h, false, false) == t;
  }

  /** Numeric encoding followed by numeric decoding gives the number back in
      canonical decimal. */
  lemma NumericRoundTrip(d: string)
    requires d != [] && AllDigits(d, 10) && Value(d, 10) <= I64.max
    ensures Decoded(Encoded(d, true, false), true, false) == Decimal(Value(d, 10))
  {
    var n := Value(d, 10);
    var h := Encoded(d, true, false);
    ParseDigits(d, 10, I64);
    assert h == Format02x(n);
    Format02xValue(n);
    LowerHexUnstripped(h);
    var v := if |h| % 2 != 0 then "0" + h else h;
    assert Validated(h) == Ok(v);
    if |h| % 2 != 0 {
      ValueLeadingZero(h, 16);
    }
    ParseDigits(v, 16, I64);
    assert UnHexNumeric(v) == Ok(Decimal(n));
  }
}
