/** The few pieces of Rust's core library that the converters lean on:
    `char::is_digit`, `from_str_radix` / `str::parse` for the integer types,
    the `{}` and `{:02x}` formatting of non-negative integers and the UTF-8
    bytes behind `str::as_bytes`. */
module RustCore {

  datatype Result<+T, +E> = Ok(value: T) | Err(error: E)

  type Byte = b: int | 0 <= b < 0x100

  /** The two radixes the converters use. */
  type Radix = r: nat | r == 10 || r == 16 witness 10

  // ---------------------------------------------------------------------------
  // Digits
  // ---------------------------------------------------------------------------

  /** `c.is_digit(radix)`: ASCII only, letters in either case for radix 16. */
  predicate IsDigit(c: char, radix: Radix)
  {
    '0' <= c <= '9' || (radix == 16 && ('a' <= c <= 'f' || 'A' <= c <= 'F'))
  }

  predicate AllDigits(s: string, radix: Radix)
  {
    forall i | 0 <= i < |s| :: IsDigit(s[i], radix)
  }

  /** A digit as `to_digit` reads it. */
  function DigitValue(c: char, radix: Radix): (d: nat)
    requires IsDigit(c, radix)
    ensures d < radix
  {
    if '0' <= c <= '9' then c as nat - '0' as nat
    else if 'a' <= c <= 'f' then c as nat - 'a' as nat + 10
    else c as nat - 'A' as nat + 10
  }

  /** The lowercase digit that formatting writes for `d`. */
  function DigitChar(d: nat): (c: char)
    requires d < 16
    ensures IsDigit(c, 16) && DigitValue(c, 16) == d
    ensures IsLowerHexDigit(c)
    ensures d < 10 ==> IsDigit(c, 10)
  {
    if d < 10 then ('0' as int + d) as char else ('a' as int + d - 10) as char
  }

  predicate IsLowerHexDigit(c: char)
  {
    '0' <= c <= '9' || 'a' <= c <= 'f'
  }

  predicate AllLowerHex(s: string)
  {
    forall i | 0 <= i < |s| :: IsLowerHexDigit(s[i])
  }

  /** The number a string of digits denotes, most significant digit first. */
  function Value(s: string, radix: Radix): nat
    requires AllDigits(s, radix)
  {
    if s == [] then 0
    else Value(s[..|s| - 1], radix) * radix + DigitValue(s[|s| - 1], radix)
  }

  lemma ValueSnoc(s: string, c: char, radix: Radix)
    requires AllDigits(s, radix) && IsDigit(c, radix)
    ensures AllDigits(s + [c], radix)
    ensures Value(s + [c], radix) == Value(s, radix) * radix + DigitValue(c, radix)
  {
    assert (s + [c])[..|s|] == s;
  }

  /** A leading zero does not change the value. */
  lemma {:induction false} ValueLeadingZero(s: string, radix: Radix)
    requires AllDigits(s, radix)
    ensures AllDigits("0" + s, radix) && Value("0" + s, radix) == Value(s, radix)
  {
    if s != [] {
      var init := s[..|s| - 1];
      ValueLeadingZero(init, radix);
      assert ("0" + s)[..|s|] == "0" + init;
    }
  }

  /** Removing the last digit can only make the value smaller. */
  lemma ValuePrefixBound(s: string, radix: Radix)
    requires AllDigits(s, radix) && s != []
    ensures Value(s[..|s| - 1], radix) <= Value(s, radix)
  {
    var v := Value(s[..|s| - 1], radix);
    assert v * radix >= v by {
      if radix == 10 { assert v * radix == 10 * v; } else { assert v * radix == 16 * v; }
    }
  }

  // ---------------------------------------------------------------------------
  // Formatting
  // ---------------------------------------------------------------------------

  /** The digits of `n` in `radix`, lowercase, without leading zeros. */
  function ToBase(n: nat, radix: Radix): string
    decreases n
  {
    if n < radix then [DigitChar(n)]
    else ToBase(n / radix, radix) + [DigitChar(n % radix)]
  }

  /** `ToBase` writes canonical digits that read back as `n`. */
  lemma {:induction false} ToBaseValue(n: nat, radix: Radix)
    ensures var s := ToBase(n, radix);
      s != [] && AllDigits(s, radix) && AllLowerHex(s) &&
      Value(s, radix) == n && (s[0] == '0' ==> n == 0)
    decreases n
  {
    if n >= radix {
      var q, d := n / radix, n % radix;
      assert n == q * radix + d && 1 <= q < n && d < radix by {
        if radix == 10 { assert n == q * 10 + d; } else { assert n == q * 16 + d; }
      }
      var p := ToBase(q, radix);
      ToBaseValue(q, radix);
      var c := DigitChar(d);
      assert IsDigit(c, radix);
      ValueSnoc(p, c, radix);
      assert ToBase(n, radix) == p + [c];
    } else {
      assert IsDigit(DigitChar(n), radix);
      assert [DigitChar(n)][..0] == [];
    }
  }

  /** `n` zero digits. */
  function Zeros(n: nat): (z: string)
    ensures |z| == n && forall i | 0 <= i < n :: z[i] == '0'
  {
    seq(n, _ => '0')
  }

  /** `PadLeft(s, w)`: `s` preceded by as many '0' as it takes to reach width `w`. */
  function PadLeft(s: string, width: nat): (r: string)
    ensures |r| == if |s| < width then width else |s|
    ensures r[|r| - |s|..] == s
    ensures forall i | 0 <= i < |r| - |s| :: r[i] == '0'
  {
    if |s| < width then Zeros(width - |s|) + s else s
  }

  /** Leading zeros keep a digit string a digit string, and keep its value. */
  lemma {:induction false} ZerosValue(n: nat, s: string, radix: Radix)
    requires AllDigits(s, radix)
    ensures AllDigits(Zeros(n) + s, radix) && Value(Zeros(n) + s, radix) == Value(s, radix)
  {
    if n > 0 {
      ZerosValue(n - 1, s, radix);
      assert Zeros(n) + s == "0" + (Zeros(n - 1) + s);
      ValueLeadingZero(Zeros(n - 1) + s, radix);
    } else {
      assert Zeros(n) + s == s;
    }
  }

  lemma PadLeftValue(s: string, width: nat, radix: Radix)
    requires AllDigits(s, radix)
    ensures AllDigits(PadLeft(s, width), radix)
    ensures Value(PadLeft(s, width), radix) == Value(s, radix)
  {
    if |s| < width {
      ZerosValue(width - |s|, s, radix);
    }
  }

  /** `format!("{:02x}", n)` for a non-negative `n`. */
  function Format02x(n: nat): string
  {
    PadLeft(ToBase(n, 16), 2)
  }

  lemma PadLeftLowerHex(s: string, width: nat)
    requires AllLowerHex(s)
    ensures AllLowerHex(PadLeft(s, width))
  {
    var r := PadLeft(s, width);
    forall i | 0 <= i < |r| ensures IsLowerHexDigit(r[i]) {
      if i >= |r| - |s| {
        assert r[i] == r[|r| - |s|..][i - (|r| - |s|)];
      }
    }
  }

  /** `{:02x}` of a non-negative number: lowercase hex digits, at least two of them,
      a leading '0' only as padding, reading back as `n`. */
  lemma Format02xValue(n: nat)
    ensures var s := Format02x(n);
      |s| >= 2 && AllLowerHex(s) && AllDigits(s, 16) && Value(s, 16) == n &&
      (|s| > 2 ==> s[0] != '0')
  {
    var t := ToBase(n, 16);
    ToBaseValue(n, 16);
    PadLeftValue(t, 2, 16);
    PadLeftLowerHex(t, 2);
    if |t| >= 2 {
      assert Format02x(n) == t;
    }
  }

  /** A byte as its high and its low nibble. */
  function ByteHex(b: Byte): string
  {
    [DigitChar(b / 16), DigitChar(b % 16)]
  }

  /** `{:02x}` of one byte is exactly its high and its low nibble, which read
      back as the byte. */
  lemma Format02xByte(b: Byte)
    ensures Format02x(b) == ByteHex(b)
    ensures AllDigits(ByteHex(b), 16) && Value(ByteHex(b), 16) == b
  {
    var h := ByteHex(b);
    assert h[..1] == [h[0]] && h[..1][..0] == [];
    assert Value(h[..1], 16) == b / 16;
    assert Value(h, 16) == (b / 16) * 16 + b % 16;
    if b >= 16 {
      assert ToBase(b / 16, 16) == [DigitChar(b / 16)];
    } else {
      assert ToBase(b, 16) == [DigitChar(b)];
      assert Format02x(b) == Zeros(1) + [DigitChar(b)];
    }
  }

  /** `format!("{}", n)` for an integer. */
  function Decimal(n: int): string
  {
    if n < 0 then "-" + ToBase(-n, 10) else ToBase(n, 10)
  }

  /** A non-negative number prints as canonical decimal digits that read back as
      it: no leading zero unless the number is 0. */
  lemma DecimalValue(n: int)
    ensures n >= 0 ==> var d := Decimal(n);
      AllDigits(d, 10) && Value(d, 10) == n && d != [] && (d[0] == '0' ==> d == "0")
  {
    if n >= 0 { ToBaseValue(n, 10); }
  }

  // ---------------------------------------------------------------------------
  // Parsing: `from_str_radix` and `str::parse` for integer types
  // ---------------------------------------------------------------------------

  /** The kinds of `ParseIntError` the converters can meet. */
  datatype IntErrorKind = Empty | InvalidDigit | PosOverflow | NegOverflow

  /** The `Display` text of a `ParseIntError`; the converters append it to their
      own messages and the model makes no claim about it beyond this table. */
  function Describe(k: IntErrorKind): string
  {
    match k
    case Empty => EMPTY_TEXT
    case InvalidDigit => INVALID_DIGIT_TEXT
    case PosOverflow => POS_OVERFLOW_TEXT
    case NegOverflow => NEG_OVERFLOW_TEXT
  }

  const EMPTY_TEXT := "cannot parse integer from empty string"
  const INVALID_DIGIT_TEXT := "invalid digit found in string"
  const POS_OVERFLOW_TEXT := "number too large to fit in target type"
  const NEG_OVERFLOW_TEXT := "number too small to fit in target type"

  /** A primitive integer type: whether it takes a '-' sign, and its range. */
  datatype IntType = IntType(signed: bool, min: int, max: int)

  const I64 := IntType(true, -0x8000_0000_0000_0000, 0x7FFF_FFFF_FFFF_FFFF)
  const I32 := IntType(true, -0x8000_0000, 0x7FFF_FFFF)
  const U8 := IntType(false, 0, 0xFF)

  /** The digit loop of `from_str_radix`: digits are taken left to right, each step
      multiplies by the radix and adds (or, after '-', subtracts) the digit, and the
      first invalid digit or the first step outside the range ends the parse. */
  function Accumulate(ds: string, radix: Radix, t: IntType, negative: bool): (r: Result<int, IntErrorKind>)
    requires t.min <= 0 <= t.max
    ensures r.Ok? ==> t.min <= r.value <= t.max
    ensures r.Ok? ==> AllDigits(ds, radix)
  {
    if ds == [] then Ok(0)
    else
      match Accumulate(ds[..|ds| - 1], radix, t, negative)
      case Err(k) => Err(k)
      case Ok(acc) =>
        var c := ds[|ds| - 1];
        if !IsDigit(c, radix) then Err(InvalidDigit)
        else
          var v := if negative then acc * radix - DigitValue(c, radix)
                   else acc * radix + DigitValue(c, radix);
          if v > t.max then Err(PosOverflow)
          else if v < t.min then Err(NegOverflow)
          else Ok(v)
  }

  /** `T::from_str_radix(s, radix)`; `s.parse::<T>()` is the radix-10 case. */
  function FromStrRadix(s: string, radix: Radix, t: IntType): (r: Result<int, IntErrorKind>)
    requires t.min <= 0 <= t.max
    ensures r.Ok? ==> t.min <= r.value <= t.max
    ensures s == [] ==> r == Err(Empty)
  {
    if s == [] then Err(Empty)
    else if (s[0] == '+' || s[0] == '-') && |s| == 1 then Err(InvalidDigit)
    else if s[0] == '+' then Accumulate(s[1..], radix, t, false)
    else if s[0] == '-' && t.signed then Accumulate(s[1..], radix, t, true)
    else Accumulate(s, radix, t, false)
  }

  lemma {:induction false} AccumulateDigits(ds: string, radix: Radix, t: IntType)
    requires t.min <= 0 <= t.max
    requires AllDigits(ds, radix)
    ensures Accumulate(ds, radix, t, false) ==
      if Value(ds, radix) <= t.max then Ok(Value(ds, radix)) else Err(PosOverflow)
  {
    if ds != [] {
      var init := ds[..|ds| - 1];
      AccumulateDigits(init, radix, t);
      ValuePrefixBound(ds, radix);
    }
  }

  /** On a non-empty string of digits `from_str_radix` succeeds exactly when the
      value fits, and then returns that value. */
  lemma ParseDigits(s: string, radix: Radix, t: IntType)
    requires t.min <= 0 <= t.max
    requires s != [] && AllDigits(s, radix)
    ensures FromStrRadix(s, radix, t) ==
      if Value(s, radix) <= t.max then Ok(Value(s, radix)) else Err(PosOverflow)
  {
    assert IsDigit(s[0], radix);
    AccumulateDigits(s, radix, t);
  }

  // ---------------------------------------------------------------------------
  // UTF-8
  // ---------------------------------------------------------------------------

  predicate IsAscii(s: string)
  {
    forall i | 0 <= i < |s| :: s[i] as int < 0x80
  }

  /** The UTF-8 encoding of one scalar value. */
  function CharUtf8(c: char): (bs: seq<Byte>)
    ensures 1 <= |bs| <= 4
    ensures |bs| == 1 <==> c as int < 0x80
    ensures |bs| == 1 ==> bs[0] == c as int
  {
    var n := c as int;
    if n < 0x80 then [n]
    else if n < 0x800 then [0xC0 + n / 0x40, 0x80 + n % 0x40]
    else if n < 0x1_0000 then [0xE0 + n / 0x1000, 0x80 + n / 0x40 % 0x40, 0x80 + n % 0x40]
    else [0xF0 + n / 0x4_0000, 0x80 + n / 0x1000 % 0x40, 0x80 + n / 0x40 % 0x40, 0x80 + n % 0x40]
  }

  /** `s.as_bytes()`. */
  function Utf8(s: string): (bs: seq<Byte>)
    ensures |bs| >= |s|
  {
    if s == [] then [] else CharUtf8(s[0]) + Utf8(s[1..])
  }

  /** An ASCII string is its own byte string. */
  lemma {:induction false} Utf8Ascii(s: string)
    requires IsAscii(s)
    ensures |Utf8(s)| == |s|
    ensures forall i | 0 <= i < |s| :: Utf8(s)[i] == s[i] as int
  {
    if s != [] {
      Utf8Ascii(s[1..]);
      assert Utf8(s) == [s[0] as int] + Utf8(s[1..]);
    }
  }

  /** A digit in either radix is an ASCII character. */
  lemma DigitsAreAscii(s: string, radix: Radix)
    requires AllDigits(s, radix)
    ensures IsAscii(s)
  {
  }
}
