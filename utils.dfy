/**
 * The input normaliser of lib/utils.js: `convertToBuffer` turns its argument
 * into the Buffer that the decoder reads, or into null.
 */
module Utils {
  import opened Wrappers

  type byte = x: int | 0 <= x < 256

  /**
   * The argument as JavaScript sees its dynamic type: a Node Buffer, a string,
   * or anything else (undefined, a number, a plain object, ...).
   */
  datatype Input = BufferIn(bytes: seq<byte>) | StrIn(text: string) | Other

  // ---------------------------------------------------------------------
  // String.prototype.toLowerCase

  /** Lower-casing of one character; only A..Z change among the characters that matter here. */
  function LowerChar(c: char): char {
    if 'A' <= c <= 'Z' then (c as int + ('a' as int - 'A' as int)) as char else c
  }

  /** `s.toLowerCase()`, character by character. */
  function ToLowerCase(s: string): (r: string)
    ensures |r| == |s|
    ensures forall i :: 0 <= i < |s| ==> r[i] == LowerChar(s[i])
  {
    if |s| == 0 then [] else [LowerChar(s[0])] + ToLowerCase(s[1..])
  }

  /** Text without capital letters is its own lower-casing. */
  lemma ToLowerCaseNoCapitals(s: string)
    requires forall i :: 0 <= i < |s| ==> !('A' <= s[i] <= 'Z')
    ensures ToLowerCase(s) == s
  {
  }

  // ---------------------------------------------------------------------
  // The test /[0-9a-f]+/.test(s)

  /** A character of the class [0-9a-f]. */
  predicate IsHexClassChar(c: char) {
    '0' <= c <= '9' || 'a' <= c <= 'f'
  }

  /**
   * The unanchored pattern /[0-9a-f]+/ matches somewhere in s exactly when
   * some character of s is in the class: scanning from the left.
   */
  function HexPatternTest(s: string): (r: bool)
    ensures r <==> exists i :: 0 <= i < |s| && IsHexClassChar(s[i])
  {
    if |s| == 0 then false
    else if IsHexClassChar(s[0]) then true
    else
      var rest := HexPatternTest(s[1..]);
      assert forall i :: 1 <= i < |s| ==> s[i] == s[1..][i - 1];
      rest
  }

  // ---------------------------------------------------------------------
  // Buffer.from(s, 'hex')

  /** The lower-case hexadecimal digit that spells v. */
  function HexDigitChar(v: nat): char
    requires v < 16
  {
    if v < 10 then ('0' as int + v) as char else ('a' as int + v - 10) as char
  }

  /** The value of one hexadecimal digit, as Node's hex decoder reads it (either case). */
  function HexNibble(c: char): (r: Option<nat>)
    ensures r.Some? ==> r.value < 16
    ensures r.Some? ==> HexDigitChar(r.value) == LowerChar(c)
    ensures '0' <= c <= '9' || 'a' <= c <= 'f' || 'A' <= c <= 'F' <==> r.Some?
  {
    if '0' <= c <= '9' then Some(c as int - '0' as int)
    else if 'a' <= c <= 'f' then Some(c as int - 'a' as int + 10)
    else if 'A' <= c <= 'F' then Some(c as int - 'A' as int + 10)
    else None
  }

  /** Characters 2i and 2i+1 of s form a pair of hexadecimal digits. */
  predicate IsHexPair(s: string, i: nat)
    requires 2 * i + 1 < |s|
  {
    HexNibble(s[2 * i]).Some? && HexNibble(s[2 * i + 1]).Some?
  }

  /** The byte spelled by the hexadecimal pair at position i. */
  function PairValue(s: string, i: nat): byte
    requires 2 * i + 1 < |s| && IsHexPair(s, i)
  {
    16 * HexNibble(s[2 * i]).value + HexNibble(s[2 * i + 1]).value
  }

  /**
   * `Buffer.from(s, 'hex')`: decodes the string two characters at a time from
   * the start and stops at the first pair that is not two hexadecimal digits;
   * a trailing odd character is dropped.
   */
  function HexDecode(s: string): (r: seq<byte>)
    ensures 2 * |r| <= |s|
    decreases |s|
  {
    if |s| < 2 then []
    else match (HexNibble(s[0]), HexNibble(s[1]))
      case (Some(hi), Some(lo)) => [16 * hi + lo] + HexDecode(s[2..])
      case _ => []
  }

  /**
   * The decoding is exactly the longest run of well-formed pairs at the start
   * of s: every decoded byte is spelled by its pair, and the pair after the
   * last decoded one, if there is one, is not well-formed.
   */
  lemma {:induction false} HexDecodeLongestPrefix(s: string)
    ensures var r := HexDecode(s);
      (forall i :: 0 <= i < |r| ==> IsHexPair(s, i) && r[i] == PairValue(s, i)) &&
      (2 * |r| + 1 < |s| ==> !IsHexPair(s, |r|))
    decreases |s|
  {
    if |s| >= 2 && HexNibble(s[0]).Some? && HexNibble(s[1]).Some? {
      var rest := HexDecode(s[2..]);
      HexDecodeLongestPrefix(s[2..]);
      PairsAfterFirst(s, rest);
      var r := HexDecode(s);
      assert r == [PairValue(s, 0)] + rest;
      forall i | 0 <= i < |r| ensures IsHexPair(s, i) && r[i] == PairValue(s, i) {
        if i > 0 {
          assert r[i] == rest[i - 1];
        }
      }
      if 2 * |r| + 1 < |s| {
        assert s[2..][2 * |rest|] == s[2 * |r|];
        assert s[2..][2 * |rest| + 1] == s[2 * |r| + 1];
      }
    }
  }

  /** The pairs of s[2..] are the pairs of s from the second on. */
  lemma PairsAfterFirst(s: string, rest: seq<byte>)
    requires |s| >= 2 && 2 * |rest| <= |s| - 2
    requires forall i :: 0 <= i < |rest| ==> IsHexPair(s[2..], i) && rest[i] == PairValue(s[2..], i)
    ensures forall j :: 1 <= j <= |rest| ==> IsHexPair(s, j) && rest[j - 1] == PairValue(s, j)
  {
    forall j | 1 <= j <= |rest|
      ensures IsHexPair(s, j) && rest[j - 1] == PairValue(s, j)
    {
      var t, i := s[2..], j - 1;
      assert IsHexPair(t, i) && rest[i] == PairValue(t, i);
      assert t[2 * i] == s[2 * j];
      assert t[2 * i + 1] == s[2 * j + 1];
    }
  }

  /** An even-length string of hex digits decodes in full. */
  lemma {:induction false} HexDecodeWellFormed(s: string)
    requires |s| % 2 == 0
    requires forall i :: 0 <= i < |s| ==> HexNibble(s[i]).Some?
    ensures |HexDecode(s)| == |s| / 2
    decreases |s|
  {
    if |s| >= 2 {
      var t := s[2..];
      assert forall i :: 0 <= i < |t| ==> t[i] == s[i + 2];
      HexDecodeWellFormed(t);
    }
  }

  /** Decoding is compositional once the first part is a whole number of well-formed pairs. */
  lemma {:induction false} HexDecodeAppend(a: string, b: string)
    requires |a| % 2 == 0
    requires forall i :: 0 <= i < |a| ==> HexNibble(a[i]).Some?
    ensures HexDecode(a + b) == HexDecode(a) + HexDecode(b)
    decreases |a|
  {
    if |a| == 0 {
      assert a + b == b;
    } else {
      var t, ab := a[2..], a + b;
      NibblesAfterFirstPair(a);
      HexDecodeAppend(t, b);
      DropFirstPairOfAppend(a, b);
      HexDecodeFirstPair(a);
      HexDecodeFirstPair(ab);
      var v := PairValue(a, 0);
      assert PairValue(ab, 0) == v;
      assert HexDecode(ab) == [v] + (HexDecode(t) + HexDecode(b));
    }
  }

  lemma NibblesAfterFirstPair(a: string)
    requires |a| >= 2
    requires forall i :: 0 <= i < |a| ==> HexNibble(a[i]).Some?
    ensures forall i :: 0 <= i < |a| - 2 ==> HexNibble(a[2..][i]).Some?
  {
    forall i | 0 <= i < |a| - 2 ensures HexNibble(a[2..][i]).Some? {
      assert a[2..][i] == a[i + 2];
    }
  }

  lemma DropFirstPairOfAppend(a: string, b: string)
    requires |a| >= 2
    ensures (a + b)[0] == a[0] && (a + b)[1] == a[1] && (a + b)[2..] == a[2..] + b
  {
  }

  /** A string that starts with a well-formed pair decodes to that byte, then the rest. */
  lemma HexDecodeFirstPair(s: string)
    requires |s| >= 2 && HexNibble(s[0]).Some? && HexNibble(s[1]).Some?
    ensures HexDecode(s) == [PairValue(s, 0)] + HexDecode(s[2..])
  {
  }

  // ---------------------------------------------------------------------
  // convertToBuffer

  /**
   * A Buffer is returned as it is; a string is lower-cased, checked against
   * /[0-9a-f]+/ and, if the test passes, hex-decoded; anything else is null.
   */
  function ConvertToBuffer(data: Input): (r: Option<seq<byte>>)
    ensures data.BufferIn? ==> r == Some(data.bytes)
    ensures data.Other? ==> r == None
  {
    match data
    case BufferIn(bytes) => Some(bytes)
    case StrIn(text) =>
      var lower := ToLowerCase(text);
      if HexPatternTest(lower) then Some(HexDecode(lower)) else None
    case Other => None
  }

  /** A string is refused exactly when no character of it is a hex digit in either case. */
  lemma ConvertStringNull(s: string)
    ensures ConvertToBuffer(StrIn(s)).None? <==>
      forall i :: 0 <= i < |s| ==> !IsHexClassChar(LowerChar(s[i]))
  {
    var lower := ToLowerCase(s);
    if !HexPatternTest(lower) {
      forall i | 0 <= i < |s| ensures !IsHexClassChar(LowerChar(s[i])) {
        assert lower[i] == LowerChar(s[i]);
      }
    }
  }

  /**
   * The test is unanchored: one hex digit anywhere lets the string through,
   * and what is returned is the decoding of the lower-cased text, however
   * little of it is hex.
   */
  lemma ConvertStringUnanchored(s: string, k: nat)
    requires k < |s| && IsHexClassChar(LowerChar(s[k]))
    ensures ConvertToBuffer(StrIn(s)) == Some(HexDecode(ToLowerCase(s)))
  {
    assert ToLowerCase(s)[k] == LowerChar(s[k]);
  }

  /** Two spellings that agree up to letter case give the same result. */
  lemma ConvertCaseInsensitive(s: string, t: string)
    requires |s| == |t|
    requires forall i :: 0 <= i < |s| ==> LowerChar(s[i]) == LowerChar(t[i])
    ensures ConvertToBuffer(StrIn(s)) == ConvertToBuffer(StrIn(t))
  {
    assert ToLowerCase(s) == ToLowerCase(t);
  }

  /**
   * A well-formed hex string (even length, every character a hex digit in
   * either case) decodes in full: |s|/2 bytes, byte i spelled by characters
   * 2i and 2i+1.
   */
  lemma ConvertWellFormedHex(s: string)
    requires |s| > 0 && |s| % 2 == 0
    requires forall i :: 0 <= i < |s| ==> IsHexClassChar(LowerChar(s[i]))
    ensures ConvertToBuffer(StrIn(s)).Some?
    ensures var r := ConvertToBuffer(StrIn(s)).value;
      |r| == |s| / 2 &&
      forall i :: 0 <= i < |r| ==>
        r[i] == 16 * HexNibble(s[2 * i]).value + HexNibble(s[2 * i + 1]).value
  {
    var lower := ToLowerCase(s);
    assert IsHexClassChar(lower[0]);
    var r := HexDecode(lower);
    HexDecodeWellFormed(lower);
    HexDecodeLongestPrefix(lower);
    forall i | 0 <= i < |r|
      ensures r[i] == 16 * HexNibble(s[2 * i]).value + HexNibble(s[2 * i + 1]).value
    {
      LowerNibble(s[2 * i]);
      LowerNibble(s[2 * i + 1]);
    }
  }

  /** Lower-casing does not change the value of a hex digit. */
  lemma LowerNibble(c: char)
    ensures HexNibble(LowerChar(c)) == HexNibble(c)
  {
  }
}
