/** `util/unhex.rs`: a copy of the crate root's `UnHex` decoder. Each member here
    is proved to compute exactly what the crate root's specification says. */
module UtilUnHex {
  import opened RustCore
  import HexTool

  /** `un_hex_numeric`: the whole string as one base-16 `i64`, in decimal. */
  function UnHexNumeric(input: string): (r: Result<string, HexTool.HexToolError>)
    ensures r == HexTool.UnHexNumeric(input)
  {
    match FromStrRadix(input, 16, I64)
    case Ok(i) => Ok(Decimal(i))
    case Err(k) => Err(HexTool.UnHexNumericFailed(k))
  }

  /** `un_hex_string`: a while loop over the byte index, two at a time; an
      even-length ASCII input keeps every slice in bounds and on a character
      boundary. */
  method UnHexString(input: string) returns (r: Result<string, HexTool.HexToolError>)
    requires |input| % 2 == 0 && IsAscii(input)
    ensures r == HexTool.DecodedPairs(input)
  {
    var result := "";
    var i := 0;
    while i < |input|
      invariant i <= |input| && (|input| - i) % 2 == 0 && i == 2 * |result|
      invariant forall k | 0 <= k < |result| :: HexTool.DecodedPair(input[2 * k..2 * k + 2]) == Ok(result[k])
    {
      var byte := input[i..i + 2];
      var parsed := FromStrRadix(byte, 16, U8);
      match parsed {
        case Ok(b) => result := result + [b as char];
        case Err(k) =>
          HexTool.DecodedPairsFirstErr(input, result, HexTool.CouldNotParse(k));
          return Err(HexTool.CouldNotParse(k));
      }
      i := i + 2;
    }
    HexTool.DecodedPairsAllOk(input, result);
    return Ok(result);
  }

  /** `validate_hex`: removes the prefixes, marks every invalid character and pads
      a valid result to an even length. */
  method ValidateHex(input: string) returns (r: Result<string, HexTool.HexToolError>)
    ensures r == HexTool.Validated(input)
  {
    var cleaned := HexTool.StripHexPrefixes(input);
    var isValid := true;
    var procInput := "";
    for i := 0 to |cleaned|
      invariant procInput == HexTool.Highlight(cleaned[..i])
      invariant isValid == AllDigits(cleaned[..i], 16)
    {
      var c := cleaned[i];
      HexTool.HighlightPrefix(cleaned, i);
      if !IsDigit(c, 16) {
        if isValid { isValid := false; }
        procInput := procInput + HexTool.InRed(c);
        continue;
      }
      procInput := procInput + [c];
    }
    assert cleaned[..|cleaned|] == cleaned;
    HexTool.ValidatedFrom(input, procInput, isValid);
    if !isValid {
      return Err(HexTool.InvalidChars(procInput));
    }
    if |procInput| % 2 != 0 {
      procInput := "0" + procInput;
    }
    return Ok(procInput);
  }

  /** `convert`: returns what the crate root's `UnHex::convert` returns. */
  method Convert(input: string, numeric: bool, split: bool) returns (out: string)
    ensures out == HexTool.Decoded(input, numeric, split)
  {
    var validInput := "";
    var validated := ValidateHex(input);
    match validated {
      case Ok(s) => validInput := s;
      case Err(e) => return e.Message();
    }
    HexTool.ValidatedOk(input);
    DigitsAreAscii(validInput, 16);
    var result;
    if numeric {
      result := UnHexNumeric(validInput);
    } else {
      result := UnHexString(validInput);
    }
    match result {
      case Ok(s) =>
        if !split { return s; }
        return HexTool.Spaced(s);
      case Err(e) =>
        return e.Message();
    }
  }
}
