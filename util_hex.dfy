/** `util/hex.rs`: the encoder that the command-line binary calls. It is the
    crate root's `Hex` encoder line for line, except that numeric mode parses the
    input as an `i32` instead of an `i64`. */
module UtilHex {
  import opened RustCore
  import HexTool

  /** What `input.parse::<i32>().unwrap()` needs in order not to panic, once the
      all-digits check has passed. */
  predicate NumericDefined(input: string)
  {
    AllDigits(input, 10) ==> input != [] && Value(input, 10) <= I32.max
  }

  /** `hex_string`: the same bytes-to-digits map as the crate root. */
  function HexString(input: string): (r: Result<string, HexTool.HexToolError>)
    ensures r == HexTool.HexString(input)
  {
    Ok(HexTool.HexOfBytes(Utf8(input)))
  }

  /** `hex_numeric` with an `i32` parse: wherever it does not panic it agrees with
      the crate root's `i64` version. */
  function HexNumeric(input: string): (r: Result<string, HexTool.HexToolError>)
    requires NumericDefined(input)
    ensures HexTool.HexNumericDefined(input)
    ensures r == HexTool.HexNumeric(input)
  {
    if !AllDigits(input, 10) then Err(HexTool.NotNumeric)
    else
      var parsed := FromStrRadix(input, 10, I32);
      ParseDigits(input, 10, I32);
      ParseDigits(input, 10, I64);
      Ok(Format02x(parsed.value))
  }

  /** The split loop of `convert`: a space before every character at an even
      index other than 0. */
  method SplitBytes(s: string) returns (grouped: string)
    ensures grouped == HexTool.Grouped(s)
  {
    grouped := "";
    for i := 0 to |s|
      invariant grouped == HexTool.Grouped(s[..i])
    {
      assert s[..i + 1] == s[..i] + [s[i]];
      HexTool.GroupedSnoc(s[..i], s[i]);
      if i % 2 == 0 && i != 0 {
        grouped := grouped + " ";
      }
      grouped := grouped + [s[i]];
    }
    assert s[..|s|] == s;
  }

  /** `convert`: on every input where it does not panic it returns what the crate
      root's `Hex::convert` returns. */
  method Convert(input: string, numeric: bool, split: bool) returns (out: string)
    requires numeric ==> NumericDefined(input)
    ensures numeric ==> HexTool.HexNumericDefined(input)
    ensures out == HexTool.Encoded(input, numeric, split)
  {
    var result := if numeric then HexNumeric(input) else HexString(input);
    match result {
      case Ok(s) =>
        if split {
          out := SplitBytes(s);
        } else {
          out := s;
        }
      case Err(e) =>
        out := e.Message();
    }
  }

  /** The `i32` parse narrows the numeric domain: every input this copy accepts
      the crate root accepts too, and a digit string above `i32::MAX` is accepted
      only by the crate root. */
  lemma NarrowerNumericDomain(input: string)
    ensures NumericDefined(input) ==> HexTool.HexNumericDefined(input)
    ensures input != [] && AllDigits(input, 10) && I32.max < Value(input, 10) <= I64.max ==>
      !NumericDefined(input) && HexTool.HexNumericDefined(input)
  {
  }

  /** "3405691582" (0xcafebabe, the value the crate's tests encode) is accepted by
      the crate root and turned into "cafebabe", but exceeds `i32::MAX`, so this
      copy's `unwrap` panics on it. */
  lemma CafebabeExceedsI32()
    ensures AllDigits("3405691582", 10) && Value("3405691582", 10) == 0xCAFE_BABE
    ensures !NumericDefined("3405691582") && HexTool.HexNumericDefined("3405691582")
    ensures HexTool.Encoded("3405691582", true, false) == "cafebabe"
  {
    DecimalDigitsOfCafebabe();
    ParseDigits("3405691582", 10, I64);
    HexDigitsOfCafebabe();
  }

  lemma DecimalDigitsOfCafebabe()
    ensures AllDigits("3405691582", 10) && Value("3405691582", 10) == 0xCAFE_BABE
  {
    var d := "3405691582";
    assert AllDigits(d, 10);
    assert Value(d[..1], 10) == 3;
    assert Value(d[..2], 10) == 34;
    assert d[..3][..2] == d[..2];
    assert Value(d[..3], 10) == 340;
    assert d[..4][..3] == d[..3];
    assert Value(d[..4], 10) == 3405;
    assert d[..5][..4] == d[..4];
    assert Value(d[..5], 10) == 34056;
    assert d[..6][..5] == d[..5];
    assert Value(d[..6], 10) == 340569;
    assert d[..7][..6] == d[..6];
    assert Value(d[..7], 10) == 3405691;
    assert d[..8][..7] == d[..7];
    assert Value(d[..8], 10) == 34056915;
    assert d[..9][..8] == d[..8];
    assert Value(d[..9], 10) == 340569158;
    assert d[..10] == d && d[..9] == d[..10][..9];
  }

  lemma HexDigitsOfCafebabe()
    ensures ToBase(0xCAFE_BABE, 16) == "cafebabe"
  {
    assert ToBase(0xC, 16) == "c";
    assert ToBase(0xCA, 16) == "ca";
    assert ToBase(0xCAF, 16) == "caf";
    assert ToBase(0xCAFE, 16) == "cafe";
    assert ToBase(0xCAFEB, 16) == "cafeb";
    assert ToBase(0xCAFEBA, 16) == "cafeba";
    assert ToBase(0xCAFEBAB, 16) == "cafebab";
  }
}
