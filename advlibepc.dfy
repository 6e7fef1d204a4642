/**
 * The EPC decoder of lib/advlibepc.js: `processEPC` normalises its argument,
 * refuses anything shorter than 12 bytes, dispatches on the header byte (only
 * 0x30, SGTIN-96, is recognised) and `processSGTIN96` slices the buffer into
 * filter, partition, company prefix/indicator and serial and joins them into
 * a `urn:epc:tag:sgtin-96:` URI.
 *
 * The arithmetic is JavaScript's, written out with the operators of
 * JsNumbers; each field is then proved equal to a closed form over the bytes
 * (Sgtin96Reference). Three places of the code behave differently from what
 * the bit layout of SGTIN-96 suggests, and the model keeps the code's
 * behaviour:
 *  - `(leadByte & 0x03) << 42` shifts by 42 mod 32 = 10 (PartitionTableShift);
 *  - `readUIntBE(7, 5) & 0x3fffffffff` meets a mask whose ToInt32 is -1, so the
 *    serial is the signed 32-bit value of bytes 8..11 (Serial);
 *  - the company prefix is concatenated as a plain number, so 614141 is not
 *    written "0614141" as the unit test expects (AdvlibEpcTest).
 */
module AdvlibEpc {
  import opened Wrappers
  import opened JsNumbers
  import opened Utils

  const MIN_EPC_LENGTH_BYTES: nat := 12
  const SGTIN_96_HEADER: byte := 0x30
  const SGTIN_96_URI_PREFIX: string := "urn:epc:tag:sgtin-96:"

  /** The object `{ uri: uri }` that processEPC returns when it does not return null. */
  datatype EpcResult = EpcResult(uri: string)

  // ---------------------------------------------------------------------
  // Reading the buffer

  /** The bytes of s read as one big-endian unsigned integer. */
  function BigEndian(s: seq<byte>): (r: nat)
    ensures r < Pow2(8 * |s|)
  {
    if |s| == 0 then 0
    else
      var high := BigEndian(s[..|s| - 1]);
      Pow2Add(8 * (|s| - 1), 8);
      Pow2Eight();
      256 * high + s[|s| - 1]
  }

  /** Splitting the bytes splits the number: the high part is scaled by the width of the low part. */
  lemma {:induction false} BigEndianAppend(a: seq<byte>, b: seq<byte>)
    ensures BigEndian(a + b) == BigEndian(a) * Pow2(8 * |b|) + BigEndian(b)
    decreases |b|
  {
    if |b| > 0 {
      var b', l := b[..|b| - 1], b[|b| - 1];
      DropLastOfAppend(a, b);
      BigEndianLast(a + b);
      BigEndianLast(b);
      BigEndianAppend(a, b');
      Pow2NextByte(|b'|);
      ShiftByteIn(BigEndian(a), BigEndian(b'), Pow2(8 * |b'|), l, Pow2(8 * |b|));
    } else {
      assert a + b == a;
    }
  }

  lemma DropLastOfAppend(a: seq<byte>, b: seq<byte>)
    requires |b| > 0
    ensures (a + b)[..|a + b| - 1] == a + b[..|b| - 1] && (a + b)[|a + b| - 1] == b[|b| - 1]
  {
  }

  /** The last byte is the low eight bits. */
  lemma BigEndianLast(s: seq<byte>)
    requires |s| > 0
    ensures BigEndian(s) == 256 * BigEndian(s[..|s| - 1]) + s[|s| - 1]
  {
  }

  lemma Pow2NextByte(n: nat)
    ensures Pow2(8 * (n + 1)) == 256 * Pow2(8 * n)
  {
    Pow2Add(8 * n, 8);
    Pow2Eight();
  }

  /** One more low byte: 256 (x p + y) + l is x (256 p) + (256 y + l). */
  lemma ShiftByteIn(x: int, y: int, p: int, l: int, scaled: int)
    requires scaled == 256 * p
    ensures 256 * (x * p + y) + l == x * scaled + (256 * y + l)
  {
    MulLeftCommute(256, x, p);
  }

  /** Appending one byte shifts the number up by eight bits. */
  lemma BigEndianSnoc(s: seq<byte>, b: byte)
    ensures BigEndian(s + [b]) == 256 * BigEndian(s) + b
  {
    assert (s + [b])[..|s|] == s;
  }

  /** Four bytes, most significant first. */
  lemma BigEndianFour(s: seq<byte>)
    requires |s| == 4
    ensures BigEndian(s) == s[0] as int * 0x100_0000 + s[1] as int * 0x1_0000 + s[2] as int * 0x100 + s[3]
  {
    BigEndianSnoc([], s[0]);
    assert [] + [s[0]] == s[..1];
    BigEndianSnoc(s[..1], s[1]);
    assert s[..1] + [s[1]] == s[..2];
    BigEndianSnoc(s[..2], s[2]);
    assert s[..2] + [s[2]] == s[..3];
    BigEndianSnoc(s[..3], s[3]);
    assert s[..3] + [s[3]] == s;
  }

  /** Six bytes: the first two above the last four. */
  lemma BigEndianSix(s: seq<byte>)
    requires |s| == 6
    ensures BigEndian(s) == (s[0] as int * 0x100 + s[1]) * 0x1_0000_0000 + BigEndian(s[2..])
  {
    BigEndianSnoc([], s[0]);
    assert [] + [s[0]] == s[..1];
    BigEndianSnoc(s[..1], s[1]);
    assert s[..1] + [s[1]] == s[..2];
    BigEndianAppend(s[..2], s[2..]);
    assert s[..2] + s[2..] == s;
    Pow2ThirtyTwo();
  }

  /** The k low-order bytes of s are the number modulo 2^(8k). */
  lemma BigEndianLowBytes(s: seq<byte>, k: nat)
    requires k <= |s|
    ensures BigEndian(s) % Pow2(8 * k) == BigEndian(s[|s| - k..])
  {
    var hi, lo := s[..|s| - k], s[|s| - k..];
    assert s == hi + lo;
    BigEndianLowPart(hi, lo);
  }

  lemma BigEndianLowPart(hi: seq<byte>, lo: seq<byte>)
    ensures BigEndian(hi + lo) % Pow2(8 * |lo|) == BigEndian(lo)
  {
    BigEndianAppend(hi, lo);
    ModOfAffine(BigEndian(hi + lo), BigEndian(hi), Pow2(8 * |lo|), BigEndian(lo));
  }

  /** Four bytes read as a two's-complement 32-bit integer. */
  function SignedBE32(s: seq<byte>): (r: int)
    requires |s| == 4
    ensures -TWO_31 <= r < TWO_31
    ensures r >= 0 <==> s[0] < 128
  {
    var u := BigEndian(s);
    BigEndianFour(s);
    if s[0] < 128 then u else u - TWO_32
  }

  /** ToInt32 of a big-endian number keeps only its last four bytes, read as signed. */
  lemma ToInt32OfBytes(s: seq<byte>)
    requires |s| >= 4
    ensures ToInt32(BigEndian(s)) == SignedBE32(s[|s| - 4..])
  {
    Pow2ThirtyTwo();
    BigEndianLowBytes(s, 4);
    var low := s[|s| - 4..];
    assert ToUint32(BigEndian(s)) == BigEndian(low);
    var u := BigEndian(low);
    assert u >= TWO_31 <==> low[0] >= 128 by {
      assert SignedBE32(low) >= 0 <==> low[0] < 128;
    }
  }

  /** `buf.readUInt8(offset)`. */
  function ReadUInt8(data: seq<byte>, offset: nat): (r: byte)
    requires offset < |data|
    ensures r == data[offset]
  {
    data[offset]
  }

  /** `buf.readUIntBE(offset, byteLength)`: Node reads between one and six bytes. */
  function ReadUIntBE(data: seq<byte>, offset: nat, byteLength: nat): (r: nat)
    requires 1 <= byteLength <= 6 && offset + byteLength <= |data|
    ensures r < Pow2(8 * byteLength) && r < 0x1_0000_0000_0000
  {
    Pow2Monotone(8 * byteLength, 48);
    Pow2Large();
    BigEndian(data[offset..offset + byteLength])
  }

  // ---------------------------------------------------------------------
  // processSGTIN96, field by field, with the code's own operators; each
  // field's contract gives its closed form over the bytes

  /** `leadByte >> 5` is the top three bits of byte 1. */
  function Filter(data: seq<byte>): (r: int)
    requires |data| >= MIN_EPC_LENGTH_BYTES
    ensures r == data[1] / 32
    ensures 0 <= r < 8
  {
    Pow2Small();
    ShiftRightNonNegative(data[1], 5);
    ShiftRight(ReadUInt8(data, 1), 5)
  }

  /** `(leadByte >> 2) & 0x07` is bits 3..5 of byte 1. */
  function Partition(data: seq<byte>): (r: int)
    requires |data| >= MIN_EPC_LENGTH_BYTES
    ensures r == PartitionOf(data)
  {
    Pow2Small();
    ShiftRightNonNegative(data[1], 2);
    BitAndLowMask(data[1] / 4, 3);
    BitAnd(ShiftRight(ReadUInt8(data, 1), 2), 0x07)
  }

  /**
   * With the JavaScript shift the count 42 is taken mod 32, so the two low
   * bits of byte 1 land at bit 10, not bit 42.
   */
  lemma PartitionTableShift(b: byte)
    ensures ShiftLeft(BitAnd(b, 0x03), 42) == (b as int % 4) * 1024
  {
    Pow2Small();
    BitAndLowMask(b, 2);
    assert BitAnd(b, 0x03) == b as int % 4;
    ShiftLeftSmall(b as int % 4, 42);
  }

  /**
   * `((leadByte & 0x03) << 42) + (data.readUIntBE(2, 6) / 64)`.
   * The division is a Number division whose fraction (a multiple of 1/64) is
   * dropped here: both readers of the value floor it (PartitionTableExact).
   */
  function PartitionTable(data: seq<byte>): (r: int)
    requires |data| >= MIN_EPC_LENGTH_BYTES
    ensures r == PartitionTableOf(data)
  {
    PartitionTableShift(data[1]);
    ShiftLeft(BitAnd(ReadUInt8(data, 1), 0x03), 42) + ReadUIntBE(data, 2, 6) / 64
  }

  /**
   * `data.readUIntBE(7, 5) & 0x3fffffffff`: the mask acts as -1, so the serial
   * is bytes 8..11 as a signed 32-bit number.
   */
  function Serial(data: seq<byte>): (r: int)
    requires |data| >= MIN_EPC_LENGTH_BYTES
    ensures r == SignedBE32(data[8..12])
  {
    assert ToUint32(0x3f_ffff_ffff) == TWO_32 - 1;
    BitAndAllOnes(ReadUIntBE(data, 7, 5), 0x3f_ffff_ffff);
    ToInt32OfBytes(data[7..12]);
    assert data[7..12][1..] == data[8..12];
    BitAnd(ReadUIntBE(data, 7, 5), 0x3f_ffff_ffff)
  }

  /** `readUIntBE(1, 6) >> 0` is bytes 3..6 as a signed 32-bit number. */
  lemma PartitionZeroPrefixValue(data: seq<byte>)
    requires |data| >= MIN_EPC_LENGTH_BYTES
    ensures ShiftRight(ReadUIntBE(data, 1, 6), 0) == SignedBE32(data[3..7])
  {
    var u := ReadUIntBE(data, 1, 6);
    assert Pow2(0) == 1;
    assert ShiftRight(u, 0) == ToInt32(u);
    ToInt32OfBytes(data[1..7]);
    assert data[1..7][2..] == data[3..7];
  }

  /** `partitionTable & 0xfffff` is the remainder of the partition table value by 2^20. */
  lemma PartitionFiveIndicatorValue(data: seq<byte>)
    requires |data| >= MIN_EPC_LENGTH_BYTES
    ensures BitAnd(PartitionTable(data), 0xf_ffff) == PartitionTableOf(data) % 0x10_0000
  {
    Pow2Large();
    BitAndLowMask(PartitionTable(data), 20);
  }

  /**
   * The `switch(partition)`: partition 0 sets only the company prefix, to
   * `data.readUIntBE(1, 6) >> 0`; partition 5 sets the company prefix to
   * `Math.floor(partitionTable / 1048576)` and the indicator to
   * `partitionTable & 0xfffff`; every other partition leaves both undefined.
   */
  function CompanyPrefixAndIndicator(data: seq<byte>): (r: (Option<int>, Option<int>))
    requires |data| >= MIN_EPC_LENGTH_BYTES
    ensures r.0 == Sgtin96Reference(data).companyPrefix
    ensures r.1 == Sgtin96Reference(data).indicator
  {
    PartitionZeroPrefixValue(data);
    PartitionFiveIndicatorValue(data);
    match Partition(data)
    case 0 => (Some(ShiftRight(ReadUIntBE(data, 1, 6), 0)), None)
    case 5 => (Some(PartitionTable(data) / 1048576), Some(BitAnd(PartitionTable(data), 0xf_ffff)))
    case _ => (None, None)
  }

  /** The four values that processSGTIN96 concatenates into its URI. */
  datatype Sgtin96Parts = Sgtin96Parts(
    filter: int, companyPrefix: Option<int>, indicator: Option<int>, serial: int)

  /** The code's arithmetic computes exactly the closed-form fields. */
  function DecodeSgtin96(data: seq<byte>): (r: Sgtin96Parts)
    requires |data| >= MIN_EPC_LENGTH_BYTES
    ensures r == Sgtin96Reference(data)
  {
    var (companyPrefix, indicator) := CompanyPrefixAndIndicator(data);
    Sgtin96Parts(Filter(data), companyPrefix, indicator, Serial(data))
  }

  // ---------------------------------------------------------------------
  // The same fields as closed forms over the bytes

  /** The partition selector: bits 3..5 of byte 1. */
  function PartitionOf(data: seq<byte>): (r: nat)
    requires |data| >= MIN_EPC_LENGTH_BYTES
    ensures r < 8
  {
    (data[1] / 4) % 8
  }

  /** The partition table value: the low two bits of byte 1 at bit 10, plus bytes 2..7 without their low six bits. */
  function PartitionTableOf(data: seq<byte>): (r: nat)
    requires |data| >= MIN_EPC_LENGTH_BYTES
    ensures r < 0x800_0000_0000
  {
    BigEndianBound6(data[2..8]);
    (data[1] as int % 4) * 1024 + BigEndian(data[2..8]) / 64
  }

  lemma BigEndianBound6(s: seq<byte>)
    requires |s| == 6
    ensures BigEndian(s) < 0x1_0000_0000_0000
  {
    Pow2Large();
  }

  /**
   * What processSGTIN96 computes, stated on the bytes: filter is the top three
   * bits of byte 1; with partition 0 the company prefix is bytes 3..6 as a
   * signed 32-bit number and there is no indicator; with partition 5 the
   * partition table value splits into quotient and remainder by 2^20; other
   * partitions give neither; the serial is bytes 8..11 as a signed 32-bit
   * number.
   */
  function Sgtin96Reference(data: seq<byte>): (p: Sgtin96Parts)
    requires |data| >= MIN_EPC_LENGTH_BYTES
    ensures 0 <= p.filter < 8
    ensures p.companyPrefix.Some? ==> -TWO_31 <= p.companyPrefix.value < TWO_31
    ensures p.indicator.Some? ==> 0 <= p.indicator.value < 0x10_0000
    ensures -TWO_31 <= p.serial < TWO_31
  {
    var partition := PartitionOf(data);
    var table := PartitionTableOf(data);
    Sgtin96Parts(
      data[1] / 32,
      if partition == 0 then Some(SignedBE32(data[3..7]))
      else if partition == 5 then Some(table / 0x10_0000)
      else None,
      if partition == 5 then Some(table % 0x10_0000) else None,
      SignedBE32(data[8..12]))
  }

  /**
   * The Number arithmetic agrees with the integer model: the exact quotient
   * by 64 is non-negative, its floor is PartitionTable, and the floor of its
   * quotient by 1048576 is the integer quotient of PartitionTable.
   */
  lemma PartitionTableExact(data: seq<byte>)
    requires |data| >= MIN_EPC_LENGTH_BYTES
    ensures var exact := ShiftLeft(BitAnd(data[1], 0x03), 42) as real
                         + ReadUIntBE(data, 2, 6) as real / 64.0;
      exact >= 0.0 &&
      exact.Floor == PartitionTable(data) &&
      (exact / 1048576.0).Floor == PartitionTable(data) / 1048576
  {
    PartitionTableShift(data[1]);
    var a := ShiftLeft(BitAnd(data[1], 0x03), 42);
    var u := ReadUIntBE(data, 2, 6);
    FloorAfterDivision(a, u);
    var t := a + u / 64;
    var f := u as real / 64.0 - (u / 64) as real;
    FloorOfFractionQuotient(t, f);
    assert a as real + u as real / 64.0 == t as real + f;
  }

  /** a + u/64 computed exactly floors to a plus the integer quotient; the fraction lies in [0, 1). */
  lemma FloorAfterDivision(a: int, u: nat)
    ensures (a as real + u as real / 64.0).Floor == a + u / 64
    ensures 0.0 <= u as real / 64.0 - (u / 64) as real < 1.0
  {
    var q, r := u / 64, u % 64;
    assert u == 64 * q + r;
    assert u as real / 64.0 == q as real + r as real / 64.0;
  }

  /** Adding a fraction below one to an integer does not change the floor of its quotient by 2^20. */
  lemma FloorOfFractionQuotient(t: nat, f: real)
    requires 0.0 <= f < 1.0
    ensures ((t as real + f) / 1048576.0).Floor == t / 1048576
  {
    var q, r := t / 1048576, t % 1048576;
    assert t == 1048576 * q + r;
    assert (t as real + f) / 1048576.0 == q as real + (r as real + f) / 1048576.0;
  }

  // ---------------------------------------------------------------------
  // URI assembly

  /**
   * `uri += filter + '.' + companyPrefix + '.' + indicator + '.' + serial`:
   * the right-hand side is one string, appended to the prefix, so the URI
   * starts with `urn:epc:tag:sgtin-96:` and what follows splits on '.' into
   * the four rendered values.
   */
  function Sgtin96Uri(p: Sgtin96Parts): (r: string)
    requires -DECIMAL_LIMIT < p.filter < DECIMAL_LIMIT
    requires p.companyPrefix.Some? ==> -DECIMAL_LIMIT < p.companyPrefix.value < DECIMAL_LIMIT
    requires p.indicator.Some? ==> -DECIMAL_LIMIT < p.indicator.value < DECIMAL_LIMIT
    requires -DECIMAL_LIMIT < p.serial < DECIMAL_LIMIT
    ensures |r| > |SGTIN_96_URI_PREFIX| && r[..|SGTIN_96_URI_PREFIX|] == SGTIN_96_URI_PREFIX
    ensures SplitOn(r[|SGTIN_96_URI_PREFIX|..], '.') ==
      [NumberToString(p.filter), RenderOptional(p.companyPrefix),
       RenderOptional(p.indicator), NumberToString(p.serial)]
  {
    var f0, f1 := NumberToString(p.filter), RenderOptional(p.companyPrefix);
    var f2, f3 := RenderOptional(p.indicator), NumberToString(p.serial);
    var rest := f0 + "." + f1 + "." + f2 + "." + f3;
    SplitFourFields(f0, f1, f2, f3);
    assert (SGTIN_96_URI_PREFIX + rest)[|SGTIN_96_URI_PREFIX|..] == rest;
    SGTIN_96_URI_PREFIX + rest
  }

  /** `processSGTIN96(data)`: no length check of its own (its caller guarantees 12 bytes). */
  function ProcessSGTIN96(data: seq<byte>): (r: EpcResult)
    requires |data| >= MIN_EPC_LENGTH_BYTES
    ensures r.uri == Sgtin96Uri(Sgtin96Reference(data))
  {
    EpcResult(Sgtin96Uri(DecodeSgtin96(data)))
  }

  /** `String.prototype.split(sep)` for a one-character separator. */
  function SplitOn(s: string, sep: char): (r: seq<string>)
    ensures |r| >= 1
    decreases |s|
  {
    if |s| == 0 then [""]
    else
      var rest := SplitOn(s[1..], sep);
      if s[0] == sep then [""] + rest else [[s[0]] + rest[0]] + rest[1..]
  }

  /** A separator-free head joins the first piece of what follows it. */
  lemma {:induction false} SplitOnHead(a: string, t: string, sep: char)
    requires sep !in a
    ensures SplitOn(a + t, sep) == [a + SplitOn(t, sep)[0]] + SplitOn(t, sep)[1..]
    decreases |a|
  {
    if |a| > 0 {
      assert (a + t)[1..] == a[1..] + t;
      assert (a + t)[0] == a[0];
      SplitOnHead(a[1..], t, sep);
      assert [a[0]] + (a[1..] + SplitOn(t, sep)[0]) == a + SplitOn(t, sep)[0];
    } else {
      var r := SplitOn(t, sep);
      assert a + t == t;
      assert a + r[0] == r[0];
      assert [r[0]] + r[1..] == r;
    }
  }

  /** Splitting `a + sep + b` on sep, with no sep in a, gives a and the pieces of b. */
  lemma SplitOnJoin(a: string, b: string, sep: char)
    requires sep !in a
    ensures SplitOn(a + [sep] + b, sep) == [a] + SplitOn(b, sep)
  {
    var t := [sep] + b;
    assert a + [sep] + b == a + t;
    SplitOnHead(a, t, sep);
    assert t[0] == sep && t[1..] == b;
    var r := SplitOn(t, sep);
    assert r == [""] + SplitOn(b, sep);
    assert r[0] == "" && r[1..] == SplitOn(b, sep);
    assert a + r[0] == a;
  }

  /** A separator-free string is one piece. */
  lemma SplitOnNone(a: string, sep: char)
    requires sep !in a
    ensures SplitOn(a, sep) == [a]
  {
    SplitOnHead(a, "", sep);
    assert a + "" == a;
  }

  /** Four dot-free fields joined by dots split back into those four fields. */
  lemma SplitFourFields(f0: string, f1: string, f2: string, f3: string)
    requires '.' !in f0 && '.' !in f1 && '.' !in f2 && '.' !in f3
    ensures SplitOn(f0 + "." + f1 + "." + f2 + "." + f3, '.') == [f0, f1, f2, f3]
  {
    var t3 := f3;
    var t2 := f2 + ['.'] + t3;
    var t1 := f1 + ['.'] + t2;
    var t0 := f0 + ['.'] + t1;
    assert f0 + "." + f1 + "." + f2 + "." + f3 == t0;
    SplitOnNone(t3, '.');
    SplitOnJoin(f2, t3, '.');
    SplitOnJoin(f1, t2, '.');
    SplitOnJoin(f0, t1, '.');
  }

  /** The decimal or "undefined" texts of the four fields, computed from the closed forms. */
  function Sgtin96FieldTexts(data: seq<byte>): (r: seq<string>)
    requires |data| >= MIN_EPC_LENGTH_BYTES
    ensures |r| == 4 && forall i :: 0 <= i < 4 ==> '.' !in r[i]
  {
    var ref := Sgtin96Reference(data);
    [NumberToString(ref.filter), RenderOptional(ref.companyPrefix),
     RenderOptional(ref.indicator), NumberToString(ref.serial)]
  }

  /**
   * Which fields read "undefined": the indicator unless the partition is 5,
   * the company prefix unless the partition is 0 or 5.
   */
  lemma UndefinedFields(data: seq<byte>)
    requires |data| >= MIN_EPC_LENGTH_BYTES
    ensures (Sgtin96FieldTexts(data)[2] == "undefined") <==> PartitionOf(data) != 5
    ensures (Sgtin96FieldTexts(data)[1] == "undefined") <==> PartitionOf(data) !in {0, 5}
  {
  }

  /** The serial depends on bytes 8..11 only: not on byte 7, nor on the partition. */
  lemma SerialIndependent(a: seq<byte>, b: seq<byte>)
    requires |a| >= MIN_EPC_LENGTH_BYTES && |b| >= MIN_EPC_LENGTH_BYTES
    requires a[8..12] == b[8..12]
    ensures Serial(a) == Serial(b)
  {
  }

  /**
   * The URI of processSGTIN96 starts with `urn:epc:tag:sgtin-96:` and what
   * follows splits on '.' into exactly four fields: filter, company prefix,
   * indicator and serial, each rendered from its closed form.
   */
  lemma ProcessSgtin96Uri(data: seq<byte>)
    requires |data| >= MIN_EPC_LENGTH_BYTES
    ensures var uri := ProcessSGTIN96(data).uri;
      |uri| > |SGTIN_96_URI_PREFIX| &&
      uri[..|SGTIN_96_URI_PREFIX|] == SGTIN_96_URI_PREFIX &&
      SplitOn(uri[|SGTIN_96_URI_PREFIX|..], '.') == Sgtin96FieldTexts(data)
  {
  }

  /** processSGTIN96 reads bytes 0..11 only: buffers that agree on those give the same URI. */
  lemma ProcessSgtin96FirstTwelveBytes(a: seq<byte>, b: seq<byte>)
    requires |a| >= MIN_EPC_LENGTH_BYTES && |b| >= MIN_EPC_LENGTH_BYTES
    requires a[..12] == b[..12]
    ensures ProcessSGTIN96(a) == ProcessSGTIN96(b)
  {
    ReferenceFirstTwelveBytes(a, b);
  }

  lemma ReferenceFirstTwelveBytes(a: seq<byte>, b: seq<byte>)
    requires |a| >= MIN_EPC_LENGTH_BYTES && |b| >= MIN_EPC_LENGTH_BYTES
    requires a[..12] == b[..12]
    ensures Sgtin96Reference(a) == Sgtin96Reference(b)
  {
    assert a[1] == a[..12][1] && b[1] == b[..12][1];
    assert a[2..8] == a[..12][2..8] && b[2..8] == b[..12][2..8];
    assert a[3..7] == a[..12][3..7] && b[3..7] == b[..12][3..7];
    assert a[8..12] == a[..12][8..12] && b[8..12] == b[..12][8..12];
  }

  // ---------------------------------------------------------------------
  // processEPC

  /**
   * `processEPC(data)`: null unless the argument converts to a Buffer of at
   * least 12 bytes; then the header byte 0x30 goes to processSGTIN96 and
   * every other header gives null.
   */
  function ProcessEPC(data: Input): (r: Option<EpcResult>)
    ensures ConvertToBuffer(data).None? ==> r.None?
    ensures ConvertToBuffer(data).Some? && |ConvertToBuffer(data).value| < MIN_EPC_LENGTH_BYTES ==> r.None?
  {
    var buf := ConvertToBuffer(data);
    if buf.None? || |buf.value| < MIN_EPC_LENGTH_BYTES then None
    else
      var header := ReadUInt8(buf.value, 0);
      if header == SGTIN_96_HEADER then Some(ProcessSGTIN96(buf.value)) else None
  }

  /** For a buffer of 12 bytes or more the result is present exactly when the header is 0x30. */
  lemma ProcessEPCDispatch(data: Input)
    requires ConvertToBuffer(data).Some? && |ConvertToBuffer(data).value| >= MIN_EPC_LENGTH_BYTES
    ensures ProcessEPC(data).Some? <==> ConvertToBuffer(data).value[0] == 0x30
  {
  }

  /**
   * A result of processEPC is always an SGTIN-96 URI of four fields, rendered
   * from the closed forms of the buffer's bytes.
   */
  lemma ProcessEPCUri(data: Input)
    requires ProcessEPC(data).Some?
    ensures ConvertToBuffer(data).Some?
    ensures var buf := ConvertToBuffer(data).value;
      var uri := ProcessEPC(data).value.uri;
      |buf| >= MIN_EPC_LENGTH_BYTES && buf[0] == SGTIN_96_HEADER &&
      uri[..|SGTIN_96_URI_PREFIX|] == SGTIN_96_URI_PREFIX &&
      SplitOn(uri[|SGTIN_96_URI_PREFIX|..], '.') == Sgtin96FieldTexts(buf)
  {
    ProcessSgtin96Uri(ConvertToBuffer(data).value);
  }

  /** Only the first 12 bytes of a Buffer argument matter. */
  lemma ProcessEPCFirstTwelveBytes(a: seq<byte>, b: seq<byte>)
    requires |a| >= MIN_EPC_LENGTH_BYTES && |b| >= MIN_EPC_LENGTH_BYTES
    requires a[..12] == b[..12]
    ensures ProcessEPC(BufferIn(a)) == ProcessEPC(BufferIn(b))
  {
    assert a[0] == a[..12][0] && b[0] == b[..12][0];
    ProcessSgtin96FirstTwelveBytes(a, b);
  }
}
