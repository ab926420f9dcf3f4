/** The expectations of the crate's converter tests, proved of the model. */
module ConverterTests {
  import opened RustCore
  import opened HexTool
  import UtilHex

  const HELLO_BYTES: seq<Byte> := [0x68, 0x65, 0x6c, 0x6c, 0x6f]

  lemma HelloBytes()
    ensures Utf8("hello") == HELLO_BYTES
  {
    Utf8Ascii("hello");
  }

  lemma HelloHex()
    ensures HexOfBytes(HELLO_BYTES) == "68656c6c6f"
  {
    var bs := HELLO_BYTES;
    assert ByteHex(0x6f) == "6f";
    assert HexOfBytes(bs[4..]) == "6f";
    assert ByteHex(0x6c) == "6c";
    assert bs[3..][1..] == bs[4..];
    assert HexOfBytes(bs[3..]) == "6c6f";
    assert bs[2..][1..] == bs[3..];
    assert HexOfBytes(bs[2..]) == "6c6c6f";
    assert ByteHex(0x65) == "65";
    assert bs[1..][1..] == bs[2..];
    assert HexOfBytes(bs[1..]) == "656c6c6f";
    assert ByteHex(0x68) == "68";
  }

  /** Grouping puts a space after a leading pair when more follows. */
  lemma GroupedPair(pair: string, rest: string)
    requires |pair| == 2 && rest != []
    ensures Grouped(pair + rest) == pair + " " + Grouped(rest)
  {
    assert (pair + rest)[..2] == pair && (pair + rest)[2..] == rest;
  }

  lemma GroupedHello()
    ensures Grouped("68656c6c6f") == "68 65 6c 6c 6f"
  {
    var a, b, c, d, e := "68", "65", "6c", "6c", "6f";
    GroupedPair(d, e);
    GroupedPair(c, d + e);
    GroupedPair(b, c + (d + e));
    GroupedPair(a, b + (c + (d + e)));
    assert a + (b + (c + (d + e))) == "68656c6c6f";
    assert a + " " + (b + " " + (c + " " + (d + " " + e))) == "68 65 6c 6c 6f";
  }

  lemma GroupedCafebabe()
    ensures Grouped("cafebabe") == "ca fe ba be"
  {
    var a, b, c, d := "ca", "fe", "ba", "be";
    GroupedPair(c, d);
    GroupedPair(b, c + d);
    GroupedPair(a, b + (c + d));
    assert a + (b + (c + d)) == "cafebabe";
    assert a + " " + (b + " " + (c + " " + d)) == "ca fe ba be";
  }

  /** "hello" encodes to "68656c6c6f", split as "68 65 6c 6c 6f". */
  lemma HexHello()
    ensures Encoded("hello", false, false) == "68656c6c6f"
    ensures Encoded("hello", false, true) == "68 65 6c 6c 6f"
  {
    HelloBytes();
    HelloHex();
    GroupedHello();
  }

  /** "hello" is rejected in numeric mode. */
  lemma HexHelloNumeric()
    ensures Encoded("hello", true, false) == HEX_NUMERIC_ERROR
  {
    assert !IsDigit("hello"[0], 10);
  }

  /** 3405691582 encodes to "cafebabe", split as "ca fe ba be". */
  lemma HexCafebabe()
    ensures HexNumericDefined("3405691582")
    ensures Encoded("3405691582", true, false) == "cafebabe"
    ensures Encoded("3405691582", true, true) == "ca fe ba be"
  {
    UtilHex.CafebabeExceedsI32();
    GroupedCafebabe();
  }

  /** The pass over "0x" prefixes is single: removing the inner "0x" of "00xx"
      leaves a new "0x" that is kept. */
  lemma StripIsOnePass()
    ensures StripHexPrefixes("00xx") == "0x"
    ensures StripHexPrefixes("0x41") == "41"
    ensures StripHexPrefixes("0|ff") == "ff"
  {
    assert "00xx"[1..] == "0xx";
    assert "0xx"[2..] == "x";
  }

  /** "68656c6c6f" decodes to "hello". */
  lemma UnHexHello()
    ensures Decoded("68656c6c6f", false, false) == "hello"
  {
    HexHello();
    assert IsAscii("hello");
    RoundTrip("hello");
  }

  /** "abcdefgabc" with its one invalid character marked. */
  const G_HIGHLIGHTED: string := "abcdef" + InRed('g') + "abc"

  lemma HighlightWithG()
    ensures Highlight("abcdefgabc") == G_HIGHLIGHTED
    ensures !AllDigits("abcdefgabc", 16)
  {
    var a, g, c := "abcdef", "g", "abc";
    assert "abcdefgabc" == a + g + c;
    HighlightAppend(a + g, c);
    HighlightAppend(a, g);
    HighlightDigits(a);
    HighlightDigits(c);
    assert Highlight(g) == InRed('g') by {
      assert g[..0] == [] && g[0] == 'g';
    }
    assert (a + g + c)[6] == 'g';
  }

  lemma HighlightDigits(s: string)
    requires s == "abcdef" || s == "abc"
    ensures Highlight(s) == s
  {
    HighlightLength(s);
  }

  lemma StripWithG()
    ensures StripHexPrefixes("abcdefgabc") == "abcdefgabc"
  {
    var s := "abcdefgabc";
    assert !HasHexPrefix(s) by {
      forall i | 0 <= i < |s| - 1 ensures s[i] != '0' { }
    }
    StripUnchanged(s);
  }

  /** Without prefixes and with an invalid character, validation reports the
      highlighted input. */
  lemma UnprefixedInvalid(s: string)
    requires StripHexPrefixes(s) == s && !AllDigits(s, 16)
    ensures Validated(s) == Err(InvalidChars(Highlight(s)))
  {
  }

  /** A 'g' among hex digits: every cleaned character is shown, the 'g' in red,
      whatever the flags. */
  lemma UnHexInvalidChar(numeric: bool, split: bool)
    ensures Decoded("abcdefgabc", numeric, split) == INVALID_CHARS_PREFIX + G_HIGHLIGHTED + "."
  {
    StripWithG();
    HighlightWithG();
    UnprefixedInvalid("abcdefgabc");
  }

  /** The hex value 0xff, with or without a prefix, decodes to "255". */
  lemma UnHexNumericFf()
    ensures Decoded("ff", true, false) == "255"
    ensures Decoded("0xff", true, false) == "255"
  {
    assert StripHexPrefixes("0xff") == "ff";
    assert StripHexPrefixes("ff") == "ff";
    assert AllDigits("ff", 16);
    assert "ff"[..1][..0] == [];
    assert Value("ff", 16) == 255;
    ParseDigits("ff", 16, I64);
    assert ToBase(2, 10) == "2";
    assert ToBase(25, 10) == "25";
    assert ToBase(255, 10) == "255";
  }

  lemma Pair41()
    ensures FromStrRadix("41", 16, U8) == Ok(65)
    ensures FromStrRadix("41", 16, I64) == Ok(65)
  {
    assert AllDigits("41", 16);
    assert "41"[..1][..0] == [];
    assert Value("41", 16) == 65;
    ParseDigits("41", 16, I64);
    ParseDigits("41", 16, U8);
  }

  /** "0x41" decodes to "65" in numeric mode and to "A" byte-wise. */
  lemma UnHex0x41()
    ensures Decoded("0x41", true, false) == "65"
    ensures Decoded("0x41", false, false) == "A"
  {
    assert StripHexPrefixes("0x41") == "41";
    Pair41();
    assert ToBase(6, 10) == "6";
    assert ToBase(65, 10) == "65";
    var s := "41";
    assert s[..2] == s && s[2..] == [];
    assert DecodedPairs(s) == Prepend([65 as char], DecodedPairs([]));
    assert [65 as char] + [] == "A";
  }

  lemma ValueCafebabe()
    ensures AllDigits("cafebabe", 16) && Value("cafebabe", 16) == 0xCAFEBABE
  {
    var h := "cafebabe";
    assert AllDigits(h, 16);
    assert h[..1][..0] == [];
    assert Value(h[..1], 16) == 0xC;
    assert h[..2][..1] == h[..1];
    assert Value(h[..2], 16) == 0xCA;
    assert h[..3][..2] == h[..2];
    assert Value(h[..3], 16) == 0xCAF;
    assert h[..4][..3] == h[..3];
    assert Value(h[..4], 16) == 0xCAFE;
    assert h[..5][..4] == h[..4];
    assert Value(h[..5], 16) == 0xCAFEB;
    assert h[..6][..5] == h[..5];
    assert Value(h[..6], 16) == 0xCAFEBA;
    assert h[..7][..6] == h[..6];
    assert Value(h[..7], 16) == 0xCAFEBAB;
    assert h[..8] == h && h[..8][..7] == h[..7];
  }

  lemma DecimalCafebabe()
    ensures Decimal(0xCAFEBABE) == "3405691582"
  {
    assert ToBase(3, 10) == "3";
    assert ToBase(34, 10) == "34";
    assert ToBase(340, 10) == "340";
    assert ToBase(3405, 10) == "3405";
    assert ToBase(34056, 10) == "34056";
    assert ToBase(340569, 10) == "340569";
    assert ToBase(3405691, 10) == "3405691";
    assert ToBase(34056915, 10) == "34056915";
    assert ToBase(340569158, 10) == "340569158";
    assert ToBase(3405691582, 10) == "3405691582";
  }

  /** "cafebabe" decodes numerically to "3405691582". */
  lemma UnHexCafebabe()
    ensures Decoded("cafebabe", true, false) == "3405691582"
  {
    var h := "cafebabe";
    assert !HasHexPrefix(h) by {
      forall i | 0 <= i < |h| - 1 ensures h[i] != '0' { }
    }
    StripUnchanged(h);
    ValueCafebabe();
    ParseDigits(h, 16, I64);
    DecimalCafebabe();
  }
}
