/**
 * The cases of test/unit/advlibepc.test.js, stated as lemmas about the model.
 */
module AdvlibEpcTest {
  import opened Wrappers
  import opened Utils
  import opened AdvlibEpc

  const INPUT_DATA_INVALID_EPC: string := "0123"
  const INPUT_DATA_SGTIN_96: string := "3074257bf7194e4000001a85"

  /** The URI the unit test expects for INPUT_DATA_SGTIN_96. */
  const EXPECTED_SGTIN_96_URI: string := "urn:epc:tag:sgtin-96:3.0614141.812345.6789"

  /** The URI the code produces for INPUT_DATA_SGTIN_96: the company prefix is not zero-padded. */
  const PRODUCED_SGTIN_96_URI: string := "urn:epc:tag:sgtin-96:3.614141.812345.6789"

  const SGTIN_96_BYTES: seq<byte> :=
    [0x30, 0x74, 0x25, 0x7b, 0xf7, 0x19, 0x4e, 0x40, 0x00, 0x00, 0x1a, 0x85]

  /** "should handle no input data": processEPC() is null. */
  lemma NoInputData()
    ensures ProcessEPC(Other) == None
  {
  }

  /** "should handle an invalid EPC as input": '0123' decodes to two bytes, too short. */
  lemma InvalidEpc()
    ensures ConvertToBuffer(StrIn(INPUT_DATA_INVALID_EPC)) == Some([0x01, 0x23])
    ensures ProcessEPC(StrIn(INPUT_DATA_INVALID_EPC)) == None
  {
    ConvertWellFormedHex(INPUT_DATA_INVALID_EPC);
    var r := ConvertToBuffer(StrIn(INPUT_DATA_INVALID_EPC)).value;
    assert r[0] == 0x01 && r[1] == 0x23;
    assert r == [0x01, 0x23];
  }

  /** Decoding a text that starts with two well-formed pairs. */
  lemma DecodeTwoPairsThen(a: string, b: string, da: seq<byte>, db: seq<byte>)
    requires |a| == 4
    requires HexNibble(a[0]).Some? && HexNibble(a[1]).Some?
    requires HexNibble(a[2]).Some? && HexNibble(a[3]).Some?
    requires HexDecode(a) == da && HexDecode(b) == db
    ensures HexDecode(a + b) == da + db
  {
    HexDecodeAppend(a, b);
  }

  // The SGTIN-96 hex text from its last two bytes back to its first.
  const HEX_TAIL_4: string := "1a85"
  const HEX_TAIL_3: string := "0000" + HEX_TAIL_4
  const HEX_TAIL_2: string := "4e40" + HEX_TAIL_3
  const HEX_TAIL_1: string := "f719" + HEX_TAIL_2
  const HEX_TAIL_0: string := "257b" + HEX_TAIL_1

  lemma DecodeTail3()
    ensures HexDecode(HEX_TAIL_3) == [0x00, 0x00, 0x1a, 0x85]
  {
    assert HexDecode(HEX_TAIL_4) == [0x1a, 0x85];
    DecodeTwoPairsThen("0000", HEX_TAIL_4, [0x00, 0x00], [0x1a, 0x85]);
  }

  lemma DecodeTail2()
    ensures HexDecode(HEX_TAIL_2) == [0x4e, 0x40, 0x00, 0x00, 0x1a, 0x85]
  {
    DecodeTail3();
    DecodeTwoPairsThen("4e40", HEX_TAIL_3, [0x4e, 0x40], [0x00, 0x00, 0x1a, 0x85]);
  }

  lemma DecodeTail1()
    ensures HexDecode(HEX_TAIL_1) == [0xf7, 0x19, 0x4e, 0x40, 0x00, 0x00, 0x1a, 0x85]
  {
    DecodeTail2();
    DecodeTwoPairsThen("f719", HEX_TAIL_2, [0xf7, 0x19], [0x4e, 0x40, 0x00, 0x00, 0x1a, 0x85]);
  }

  lemma DecodeTail0()
    ensures HexDecode(HEX_TAIL_0) == [0x25, 0x7b, 0xf7, 0x19, 0x4e, 0x40, 0x00, 0x00, 0x1a, 0x85]
  {
    DecodeTail1();
    DecodeTwoPairsThen("257b", HEX_TAIL_1, [0x25, 0x7b], [0xf7, 0x19, 0x4e, 0x40, 0x00, 0x00, 0x1a, 0x85]);
  }

  /** The SGTIN-96 hex text decodes to its twelve bytes, two at a time. */
  lemma Sgtin96HexDecode()
    ensures HexDecode(INPUT_DATA_SGTIN_96) == SGTIN_96_BYTES
  {
    DecodeTail0();
    DecodeTwoPairsThen("3074", HEX_TAIL_0, [0x30, 0x74],
      [0x25, 0x7b, 0xf7, 0x19, 0x4e, 0x40, 0x00, 0x00, 0x1a, 0x85]);
    Sgtin96Pieces();
  }

  /** The SGTIN-96 text and bytes, split into two-byte pieces. */
  lemma Sgtin96Pieces()
    ensures INPUT_DATA_SGTIN_96 == "3074" + HEX_TAIL_0
    ensures SGTIN_96_BYTES == [0x30, 0x74] + [0x25, 0x7b, 0xf7, 0x19, 0x4e, 0x40, 0x00, 0x00, 0x1a, 0x85]
  {
  }

  /** Lower-casing a text that starts with four characters that are not capitals. */
  lemma LowerFourThen(a: string, b: string)
    requires |a| == 4
    requires !('A' <= a[0] <= 'Z') && !('A' <= a[1] <= 'Z')
    requires !('A' <= a[2] <= 'Z') && !('A' <= a[3] <= 'Z')
    requires ToLowerCase(b) == b
    ensures ToLowerCase(a + b) == a + b
  {
    var ab := a + b;
    forall i | 0 <= i < |ab| ensures !('A' <= ab[i] <= 'Z') {
      if i >= 4 {
        assert ab[i] == b[i - 4] == ToLowerCase(b)[i - 4];
      }
    }
    ToLowerCaseNoCapitals(ab);
  }

  /** The hex text of the SGTIN-96 case contains a hex digit. */
  lemma Sgtin96TextIsHex()
    ensures HexPatternTest(INPUT_DATA_SGTIN_96)
  {
    assert IsHexClassChar(INPUT_DATA_SGTIN_96[0]);
  }

  lemma LowerTail2()
    ensures ToLowerCase(HEX_TAIL_2) == HEX_TAIL_2
  {
    ToLowerCaseNoCapitals(HEX_TAIL_4);
    LowerFourThen("0000", HEX_TAIL_4);
    LowerFourThen("4e40", HEX_TAIL_3);
  }

  lemma LowerTail0()
    ensures ToLowerCase(HEX_TAIL_0) == HEX_TAIL_0
  {
    LowerTail2();
    LowerFourThen("f719", HEX_TAIL_2);
    LowerFourThen("257b", HEX_TAIL_1);
  }

  /** The hex text of the SGTIN-96 case has no capitals. */
  lemma Sgtin96TextIsLower()
    ensures ToLowerCase(INPUT_DATA_SGTIN_96) == INPUT_DATA_SGTIN_96
  {
    LowerTail0();
    LowerFourThen("3074", HEX_TAIL_0);
    Sgtin96Pieces();
  }

  /** The hex text of the SGTIN-96 case decodes to its twelve bytes. */
  lemma Sgtin96Bytes()
    ensures ConvertToBuffer(StrIn(INPUT_DATA_SGTIN_96)) == Some(SGTIN_96_BYTES)
  {
    Sgtin96TextIsLower();
    Sgtin96TextIsHex();
    Sgtin96HexDecode();
  }

  /** Bytes 2..7 of the SGTIN-96 case, as one number. */
  lemma Sgtin96MiddleBytes()
    ensures BigEndian(SGTIN_96_BYTES[2..8]) == 41214356835904
  {
    var m := SGTIN_96_BYTES[2..8];
    assert m == [0x25, 0x7b, 0xf7, 0x19, 0x4e, 0x40];
    BigEndianSix(m);
    assert m[2..] == [0xf7, 0x19, 0x4e, 0x40];
    BigEndianFour(m[2..]);
  }

  /** Partition 5 and the partition table value of the SGTIN-96 case. */
  lemma Sgtin96Table()
    ensures PartitionOf(SGTIN_96_BYTES) == 5
    ensures PartitionTableOf(SGTIN_96_BYTES) == 643974325561
  {
    Sgtin96MiddleBytes();
  }

  /** Bytes 8..11 of the SGTIN-96 case, read as a signed number. */
  lemma Sgtin96SerialBytes()
    ensures SignedBE32(SGTIN_96_BYTES[8..12]) == 6789
  {
    var t := SGTIN_96_BYTES[8..12];
    assert t == [0x00, 0x00, 0x1a, 0x85];
    BigEndianFour(t);
  }

  /**
   * The worked values of the SGTIN-96 case: filter 3, partition 5, company
   * prefix 614141, indicator 812345, serial 6789.
   */
  lemma Sgtin96Values()
    ensures Sgtin96Reference(SGTIN_96_BYTES) ==
      Sgtin96Parts(3, Some(614141), Some(812345), 6789)
  {
    Sgtin96Table();
    Sgtin96SerialBytes();
  }

  /** The decimal spellings of the company prefix. */
  lemma CompanyPrefixString()
    ensures JsNumbers.NumberToString(614141) == "614141"
  {
    assert JsNumbers.NatToString(61) == "61";
    assert JsNumbers.NatToString(614) == "614";
    assert JsNumbers.NatToString(6141) == "6141";
    assert JsNumbers.NatToString(61414) == "61414";
  }

  /** The decimal spellings of the indicator. */
  lemma IndicatorString()
    ensures JsNumbers.NumberToString(812345) == "812345"
  {
    assert JsNumbers.NatToString(81) == "81";
    assert JsNumbers.NatToString(812) == "812";
    assert JsNumbers.NatToString(8123) == "8123";
    assert JsNumbers.NatToString(81234) == "81234";
  }

  /** The decimal spellings of the filter and the serial. */
  lemma FilterAndSerialStrings()
    ensures JsNumbers.NumberToString(3) == "3"
    ensures JsNumbers.NumberToString(6789) == "6789"
  {
    assert JsNumbers.NatToString(67) == "67";
    assert JsNumbers.NatToString(678) == "678";
  }

  /** The four fields of the worked values, joined by dots. */
  lemma Sgtin96FieldText()
    ensures "3" + "." + "614141" + "." + "812345" + "." + "6789" == "3.614141.812345.6789"
  {
  }

  lemma Sgtin96UriText()
    ensures SGTIN_96_URI_PREFIX + "3.614141.812345.6789" == PRODUCED_SGTIN_96_URI
  {
  }

  /** The URI assembled from the worked values. */
  lemma Sgtin96UriValue()
    ensures Sgtin96Uri(Sgtin96Parts(3, Some(614141), Some(812345), 6789)) == PRODUCED_SGTIN_96_URI
  {
    CompanyPrefixString();
    IndicatorString();
    FilterAndSerialStrings();
    Sgtin96FieldText();
    Sgtin96UriText();
  }

  /** processSGTIN96 on the twelve bytes of the SGTIN-96 case. */
  lemma ProcessSgtin96Value()
    ensures ProcessSGTIN96(SGTIN_96_BYTES) == EpcResult(PRODUCED_SGTIN_96_URI)
  {
    Sgtin96Values();
    Sgtin96UriValue();
  }

  /** The produced URI is one character shorter than the expected one. */
  lemma ProducedIsNotExpected()
    ensures PRODUCED_SGTIN_96_URI != EXPECTED_SGTIN_96_URI
  {
    assert |PRODUCED_SGTIN_96_URI| == 41 && |EXPECTED_SGTIN_96_URI| == 42;
  }

  /**
   * "should handle valid SGTIN-96 data as input": the code produces
   * `3.614141.812345.6789` after the prefix. The test expects the company
   * prefix zero-padded to seven digits, `0614141`; the code concatenates the
   * plain number, so the model's result differs from the test's expectation.
   */
  lemma ValidSgtin96()
    ensures ProcessEPC(StrIn(INPUT_DATA_SGTIN_96)) == Some(EpcResult(PRODUCED_SGTIN_96_URI))
    ensures ProcessEPC(StrIn(INPUT_DATA_SGTIN_96)) != Some(EpcResult(EXPECTED_SGTIN_96_URI))
  {
    Sgtin96Bytes();
    ProcessSgtin96Value();
    ProducedIsNotExpected();
  }
}
