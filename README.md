# advlib-epc: the SGTIN-96 decoder, modelled in Dafny

advlib-epc decodes Electronic Product Code (EPC) data read from RFID tags.
It takes a hexadecimal string or a Node `Buffer` and returns an EPC tag URI.
This project models its two core files as pure Dafny functions and proves
properties of them:

- `processEPC` (lib/advlibepc.js) normalises its argument with
  `convertToBuffer`. It returns null for anything shorter than 12 bytes. It
  then dispatches on header byte 0. Only `0x30` (SGTIN-96) is recognised.
- `processSGTIN96` (lib/advlibepc.js) splits byte 1 and bytes 2..11 into four
  fields: filter, partition, company prefix/indicator and serial. It joins them
  into `urn:epc:tag:sgtin-96:F.C.I.S`.
- `convertToBuffer` (lib/utils.js) does three things:
  - it passes a Buffer through unchanged;
  - it lower-cases a string, tests it against `/[0-9a-f]+/` and hex-decodes it;
  - it returns null for anything else.

Modules:

- `Wrappers`: `Option`, which stands for JavaScript's null and undefined.
- `JsNumbers`: the JavaScript Number semantics the decoder relies on,
  written out on unbounded integers:
  - `ToUint32` and `ToInt32`;
  - `&` (`BitAnd`), with both operands converted by ToInt32 and ANDed bit by bit;
  - `<<` (`ShiftLeft`), with the count taken mod 32 and the result wrapped to 32 bits;
  - `>>` (`ShiftRight`), an arithmetic shift with the count taken mod 32;
  - `String(x)` for integers (`NumberToString`);
  - the `"undefined"` rendering of an absent value (`RenderOptional`).
- `Utils`: `convertToBuffer`, together with models of
  `toLowerCase`, the unanchored pattern test and Node's hex decoder.
  Node's hex decoder works pairwise, stops at the first malformed pair and
  drops a trailing odd character.
- `AdvlibEpc`: the dispatcher and the SGTIN-96 decoder.
  - `buf.readUInt8(offset)` is `ReadUInt8`, and `buf.readUIntBE(offset, n)`
    is `ReadUIntBE`, a big-endian read (`BigEndian`).
  - Each field is written with the code's own operators (`Filter`,
    `Partition`, `PartitionTable`, `Serial`, `CompanyPrefixAndIndicator`).
  - Each is proved equal to a closed form over the bytes (`Sgtin96Reference`).
- `AdvlibEpcTest`: the three cases of test/unit/advlibepc.test.js, stated as
  lemmas.

The argument's dynamic type is the datatype
`Input = BufferIn(bytes) | StrIn(text) | Other`. `Other` stands for
`undefined`, numbers, objects and so on.

## Where the code differs from the SGTIN-96 layout

The model follows the code in all three places. Each is proved as a lemma.

- `(leadByte & 0x03) << 42` (lib/advlibepc.js:48): JavaScript takes the shift
  count mod 32, so the two bits land at bit 10, not bit 42. See
  `PartitionTableShift`.
- `data.readUIntBE(7, 5) & 0x3fffffffff` (lib/advlibepc.js:50): `&` converts
  both operands with ToInt32. The mask becomes -1, so the serial is the signed
  32-bit value of bytes 8..11, not a 38-bit field. See `Serial`.
- The company prefix is concatenated as a plain number (lib/advlibepc.js:64).
  For `3074257bf7194e4000001a85` the code gives
  `urn:epc:tag:sgtin-96:3.614141.812345.6789`. The unit test expects
  `...:3.0614141.812345.6789` (test/unit/advlibepc.test.js:19-21). The code
  and its test disagree. `ValidSgtin96` proves what the code returns and that
  it is not what the test expects.

## Model

| member | source | states |
|---|---|---|
| Utils.ConvertToBuffer | lib/utils.js:12-26 | A Buffer argument is returned unchanged. An argument that is neither a Buffer nor a string gives null. |
| Utils.ToLowerCase | lib/utils.js:18 | Lower-casing keeps the length and maps each character on its own (A..Z to a..z). |
| Utils.HexPatternTest | lib/utils.js:19 | The unanchored test `/[0-9a-f]+/` passes exactly when some character of the text is in 0-9a-f. |
| Utils.HexNibble | lib/utils.js:21 | A hex digit is accepted in either case, exactly for the characters 0-9, a-f, A-F. Its value is below 16 and is the position of the lower-cased character among 0123456789abcdef. |
| Utils.HexDecode | lib/utils.js:21 | `Buffer.from(s, 'hex')` yields at most one byte per two characters. The exact decoding is the contract of `HexDecodeLongestPrefix`. |
| Utils.HexDecodeLongestPrefix | lib/utils.js:21 | `Buffer.from(s, 'hex')` returns exactly the longest run of well-formed pairs at the start of s. Byte i is spelled by characters 2i and 2i+1, and the next pair, if any, is malformed. |
| Utils.HexDecodeWellFormed | lib/utils.js:21 | An even-length all-hex string decodes in full, to half as many bytes. |
| Utils.HexDecodeAppend | lib/utils.js:21 | Decoding distributes over concatenation when the first part is whole well-formed pairs. |
| Utils.ConvertStringNull | lib/utils.js:17-25 | A string gives null exactly when no character of it, lower-cased, is in 0-9a-f (the empty string included). |
| Utils.ConvertStringUnanchored | lib/utils.js:19-21 | One hex digit anywhere lets a string through, and the result is the hex decoding of the lower-cased text. |
| Utils.ConvertCaseInsensitive | lib/utils.js:18-21 | Two spellings that agree up to letter case give the same result. |
| Utils.ConvertWellFormedHex | lib/utils.js:17-22 | An even-length hex string in either case gives half as many bytes as characters, byte i = 16·hex(s[2i]) + hex(s[2i+1]). |
| JsNumbers.ToUint32 | lib/advlibepc.js:46-60 | ToUint32 lies in [0, 2^32), agrees with its argument mod 2^32, and is the identity on that range. |
| JsNumbers.ToInt32 | lib/advlibepc.js:46-60 | ToInt32 lies in [-2^31, 2^31), agrees with its argument mod 2^32, and is the identity on that range. |
| JsNumbers.BitAnd | lib/advlibepc.js:47-60 | `x & y` is a signed 32-bit value. With a non-negative mask y it lies between 0 and y. This is a bound, not the value: `BitAndLowMask` and `BitAndAllOnes` give the value for every mask the decoder uses (0x07, 0x03, 0xfffff, 0x3fffffffff). |
| JsNumbers.BitAndLowMask | lib/advlibepc.js:47-60 | `x & (2^k - 1)` with k ≤ 31 is x mod 2^k. |
| JsNumbers.BitAndAllOnes | lib/advlibepc.js:50 | `x & y` with a y whose low 32 bits are all ones is ToInt32(x). |
| JsNumbers.AndBitsLowMask | lib/advlibepc.js:47-60 | ANDing the low n bits with the mask 2^k - 1 (k ≤ n) keeps the residue mod 2^k. |
| JsNumbers.LowBitsIsMod | lib/advlibepc.js:47-60 | The k low binary digits of a number are its residue mod 2^k. |
| JsNumbers.ShiftLeft | lib/advlibepc.js:48 | `x << n` is a signed 32-bit value congruent mod 2^32 to ToInt32(x)·2^(n mod 32). |
| JsNumbers.ShiftRight | lib/advlibepc.js:46-56 | `x >> n` is the floor of ToInt32(x) divided by 2^(n mod 32): r·2^(n mod 32) ≤ ToInt32(x) < (r+1)·2^(n mod 32). It keeps the sign of ToInt32(x) and is no farther from 0. |
| JsNumbers.ShiftLeftSmall | lib/advlibepc.js:48 | `x << n` for a small non-negative x multiplies by 2^(n mod 32). |
| JsNumbers.ShiftRightNonNegative | lib/advlibepc.js:46-47 | `x >> n` on a non-negative 31-bit x is floor division by 2^(n mod 32), between 0 and x. |
| JsNumbers.NumberToString | lib/advlibepc.js:64 | `String(x)` of an integer below 10^21 has no '.', starts with '-' exactly when x < 0, and is decimal digits otherwise (the first character included when x ≥ 0), with no leading zero except for 0 itself. |
| JsNumbers.NumberToStringRoundTrip | lib/advlibepc.js:64 | Reading the decimal text back gives the number. |
| JsNumbers.NatToStringRoundTrip | lib/advlibepc.js:64 | The decimal spelling of a natural number reads back to it. |
| JsNumbers.RenderOptional | lib/advlibepc.js:64 | An absent value renders as "undefined". A present one renders as its decimal text, which is never "undefined". Neither contains '.'. |
| AdvlibEpc.BigEndian | lib/advlibepc.js:48-56 | A big-endian read of n bytes is below 2^(8n). |
| AdvlibEpc.BigEndianAppend | lib/advlibepc.js:48-56 | Reading a + b big-endian is the value of a scaled by 2^(8 times the length of b) plus the value of b. |
| AdvlibEpc.BigEndianLowBytes | lib/advlibepc.js:50-56 | The k low-order bytes are the value mod 2^(8k). |
| AdvlibEpc.ReadUIntBE | lib/advlibepc.js:48-56 | `readUIntBE(offset, n)` (1 ≤ n ≤ 6) is below 2^(8n) and below 2^48. |
| AdvlibEpc.SignedBE32 | lib/advlibepc.js:50-56 | Four bytes read as a signed 32-bit number lie in range and are negative exactly when the top bit is set. |
| AdvlibEpc.ToInt32OfBytes | lib/advlibepc.js:50-56 | ToInt32 of a big-endian number is its last four bytes read as signed. |
| AdvlibEpc.Filter | lib/advlibepc.js:46 | `leadByte >> 5` is byte 1 div 32, in 0..7. |
| AdvlibEpc.Partition | lib/advlibepc.js:47 | `(leadByte >> 2) & 0x07` is (byte 1 div 4) mod 8, in 0..7. |
| AdvlibEpc.PartitionTableShift | lib/advlibepc.js:48 | `(leadByte & 0x03) << 42` acts as a shift by 10: it is (byte 1 mod 4)·2^10. |
| AdvlibEpc.PartitionTable | lib/advlibepc.js:48 | The partition table value is (byte 1 mod 4)·2^10 + (bytes 2..7) div 64. |
| AdvlibEpc.PartitionTableExact | lib/advlibepc.js:48-60 | The exact real value of the Number expression is non-negative. Its floor is the integer model, and the floor of its quotient by 2^20 is the integer quotient, so `Math.floor` and `&` both see the integer value. |
| AdvlibEpc.Serial | lib/advlibepc.js:50 | The mask acts as -1. The serial is bytes 8..11 read as a signed 32-bit number. |
| AdvlibEpc.SerialIndependent | lib/advlibepc.js:50 | The serial depends on bytes 8..11 only, not on byte 7 or the partition. |
| AdvlibEpc.PartitionZeroPrefixValue | lib/advlibepc.js:55-56 | With partition 0, `readUIntBE(1, 6) >> 0` is bytes 3..6 read as a signed 32-bit number. |
| AdvlibEpc.PartitionFiveIndicatorValue | lib/advlibepc.js:60 | With partition 5, the indicator is the partition table value mod 2^20. |
| AdvlibEpc.CompanyPrefixAndIndicator | lib/advlibepc.js:54-62 | The switch gives (ToInt32 of bytes 1..6, absent) for partition 0, (T div 2^20, T mod 2^20) for partition 5, and neither otherwise. |
| AdvlibEpc.Sgtin96Reference | lib/advlibepc.js:45-62 | Closed forms of the fields: filter in 0..7, company prefix in the signed 32-bit range, indicator below 2^20, and a signed 32-bit serial. |
| AdvlibEpc.DecodeSgtin96 | lib/advlibepc.js:45-62 | The code's arithmetic computes exactly the closed-form fields of Sgtin96Reference. |
| AdvlibEpc.Sgtin96Uri | lib/advlibepc.js:64 | The URI starts with `urn:epc:tag:sgtin-96:`. The rest splits on '.' into exactly the four rendered values. |
| AdvlibEpc.ProcessSGTIN96 | lib/advlibepc.js:41-67 | The URI is the one assembled from the closed-form fields of the bytes. |
| AdvlibEpc.UndefinedFields | lib/advlibepc.js:51-64 | The indicator renders "undefined" exactly when the partition is not 5. The company prefix renders "undefined" exactly when the partition is neither 0 nor 5. |
| AdvlibEpc.ProcessSgtin96Uri | lib/advlibepc.js:44-66 | The URI starts with `urn:epc:tag:sgtin-96:`. The rest splits on '.' into exactly the four rendered fields. |
| AdvlibEpc.ProcessSgtin96FirstTwelveBytes | lib/advlibepc.js:41-67 | processSGTIN96 reads bytes 0..11 only: buffers that agree there give the same URI. |
| AdvlibEpc.ProcessEPC | lib/advlibepc.js:18-23 | null whenever the conversion yields null or fewer than 12 bytes. |
| AdvlibEpc.ProcessEPCDispatch | lib/advlibepc.js:25-32 | For 12 bytes or more, the result is present exactly when byte 0 is 0x30. |
| AdvlibEpc.ProcessEPCUri | lib/advlibepc.js:18-33 | Any result comes from a buffer of 12 or more bytes with header 0x30. Its URI is the SGTIN-96 prefix followed by the four rendered fields. |
| AdvlibEpc.ProcessEPCFirstTwelveBytes | lib/advlibepc.js:18-33 | Two Buffer arguments that agree on their first 12 bytes give the same result. |
| AdvlibEpc.SplitOnJoin | lib/advlibepc.js:64 | Splitting `a.b` on '.' with no '.' in a gives a, then the pieces of b. |
| AdvlibEpcTest.NoInputData | test/unit/advlibepc.test.js:28-30 | `processEPC()` is null. |
| AdvlibEpcTest.InvalidEpc | test/unit/advlibepc.test.js:33-36 | '0123' decodes to the two bytes 0x01 0x23, so processEPC returns null. |
| AdvlibEpcTest.Sgtin96Bytes | test/unit/advlibepc.test.js:13 | The test's hex text converts to its twelve bytes. |
| AdvlibEpcTest.Sgtin96Values | test/unit/advlibepc.test.js:13-21 | Those bytes decode to filter 3, company prefix 614141, indicator 812345 and serial 6789. |
| AdvlibEpcTest.ValidSgtin96 | test/unit/advlibepc.test.js:39-42 | processEPC on the test's hex text returns `urn:epc:tag:sgtin-96:3.614141.812345.6789`, which is not the `3.0614141...` the test expects. |

## Left out

- Floating point. `readUIntBE(2, 6) / 64` is a Number division. It is
  modelled as integer division, because both of its readers floor it
  (`Math.floor` and `&`). `PartitionTableExact` proves this over the reals.
  IEEE rounding does not arise: every value involved is below 2^43 with at
  most six fraction bits.
- NumberToString: covers integers of magnitude below 10^21 only. These never
  take the exponent form, and every field lies in the signed 32-bit range.
- ToLowerCase: `toLowerCase` is modelled for ASCII letters only. No other
  character lower-cases into 0-9a-f, and hex decoding stops at the first pair
  that holds a character outside it. So no result depends on the difference.
- `/[0-9a-f]+/.test` is modelled as "some character is in the class". No
  regular-expression engine is modelled.
- `Buffer` object identity is left out. The model returns the same bytes,
  not the same object.
- HexDecode: its own contract bounds the length only. The full
  characterisation is the separate lemma `HexDecodeLongestPrefix`, which keeps
  the recursive definition cheap for the solver.
- ProcessSGTIN96: requires 12 bytes. The source has no length check of its
  own (the TODO at lib/advlibepc.js:42). Its only caller guarantees 12 bytes,
  and `readUIntBE` would throw on a shorter buffer.
- The generic bitfield decoder, the STID decoder, other headers, table
  rows for partitions 1-4, 6 and 7, and zero-padding of the company prefix
  are left out. None of them exists in these files.
- JavaScript dynamic typing is reduced to `Input`: a Buffer, a string, or
  anything else.
