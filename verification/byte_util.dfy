/**
 * `ByteUtil` of the RTF scanner: a string of hex digit pairs turned into
 * bytes, and those bytes decoded in a charset.
 */
module ByteUtil {
  import opened Wrappers
  import opened JavaLang
  import opened Collaborators
  import MapiProperty

  /**
   * The byte two characters stand for: `(byte) ((digit(hi) << 4) + digit(lo))`.
   * A character that is no hex digit counts as -1, as `Character.digit`
   * reports it; the cast keeps the low eight bits.
   */
  function HexPair(hi: char, lo: char): (b: uint8)
    ensures Digit(hi, 16) >= 0 && Digit(lo, 16) >= 0 ==> b as int == Digit(hi, 16) * 16 + Digit(lo, 16)
  {
    var v := Digit(hi, 16) * 16 + Digit(lo, 16);
    assert 0 <= v < 256 ==> v % 256 == v;
    (v % 256) as uint8
  }

  /**
   * `hexStringToByteArray`: one byte per pair of characters. An odd length
   * makes the last pair read one character past the end.
   */
  function HexStringToByteArray(s: string): (r: Result<seq<uint8>, Exception>)
    ensures r.Ok? <==> |s| % 2 == 0
    ensures r.Err? ==> r.error == StringIndexOutOfBounds
    ensures r.Ok? ==> |r.value| == |s| / 2
    ensures r.Ok? ==> forall k :: 0 <= k < |r.value| ==> r.value[k] == HexPair(s[2 * k], s[2 * k + 1])
    decreases |s|
  {
    if |s| == 0 then Ok([])
    else if |s| == 1 then Err(StringIndexOutOfBounds)
    else
      match HexStringToByteArray(s[2..])
      case Err(e) => Err(e)
      case Ok(rest) =>
        PairsShift(s, rest);
        Ok([HexPair(s[0], s[1])] + rest)
  }

  /** The pairs after the first one are those of `s[2..]`, shifted by one byte. */
  lemma PairsShift(s: string, rest: seq<uint8>)
    requires |s| >= 2 && |rest| == (|s| - 2) / 2
    requires forall k :: 0 <= k < |rest| ==> rest[k] == HexPair(s[2..][2 * k], s[2..][2 * k + 1])
    ensures forall k :: 0 <= k < |rest| + 1 ==> ([HexPair(s[0], s[1])] + rest)[k] == HexPair(s[2 * k], s[2 * k + 1])
  {
    var r := [HexPair(s[0], s[1])] + rest;
    forall k | 1 <= k < |r| ensures r[k] == HexPair(s[2 * k], s[2 * k + 1]) {
      assert r[k] == rest[k - 1];
      assert s[2..][2 * (k - 1)] == s[2 * k];
      assert s[2..][2 * (k - 1) + 1] == s[2 * k + 1];
    }
  }

  /** `hexToString`: the bytes of a hex string decoded in `charset`. */
  function HexToString(hex: string, charset: Charset, env: Collaborators): (r: Result<string, Exception>)
    ensures r.Ok? <==> |hex| % 2 == 0
    ensures r.Err? ==> r.error == StringIndexOutOfBounds
  {
    match HexStringToByteArray(hex)
    case Err(e) => Err(e)
    case Ok(bytes) => Ok(env.decode(charset, bytes))
  }

  lemma DigitIgnoresCase(c: char)
    ensures Digit(ToLowerChar(c), 16) == Digit(c, 16)
  {
  }

  /** Upper- and lower-case hex digits give the same bytes. */
  lemma HexStringCaseInsensitive(s: string)
    ensures HexStringToByteArray(ToLower(s)) == HexStringToByteArray(s)
  {
    LowerDigits(s);
    SameDigitsSameBytes(ToLower(s), s);
  }

  /** Lower-casing keeps the length and the value of every hex digit. */
  lemma LowerDigits(s: string)
    ensures |ToLower(s)| == |s| && forall i :: 0 <= i < |s| ==> Digit(ToLower(s)[i], 16) == Digit(s[i], 16)
  {
    var l := ToLower(s);
    assert forall i :: 0 <= i < |s| ==> l[i] == ToLowerChar(s[i]);
    forall i | 0 <= i < |s| ensures Digit(l[i], 16) == Digit(s[i], 16) {
      DigitIgnoresCase(s[i]);
    }
  }

  /** Two texts whose characters have the same hex values give the same bytes. */
  lemma {:induction false} SameDigitsSameBytes(x: string, y: string)
    requires |x| == |y| && forall i :: 0 <= i < |x| ==> Digit(x[i], 16) == Digit(y[i], 16)
    ensures HexStringToByteArray(x) == HexStringToByteArray(y)
    decreases |x|
  {
    if |x| >= 2 {
      assert Digit(x[0], 16) == Digit(y[0], 16) && Digit(x[1], 16) == Digit(y[1], 16);
      assert HexPair(x[0], x[1]) == HexPair(y[0], y[1]);
      assert forall i :: 0 <= i < |x| - 2 ==> x[2..][i] == x[i + 2] && y[2..][i] == y[i + 2];
      SameDigitsSameBytes(x[2..], y[2..]);
    }
  }

  /** The two upper-case hex digits of a byte stand for that byte. */
  lemma HexPairOfByteHex(b: uint8)
    ensures HexPair(MapiProperty.ByteHex(b)[0], MapiProperty.ByteHex(b)[1]) == b
  {
    var h := MapiProperty.ByteHex(b);
    MapiProperty.TwoDigitsValue(h[0], h[1], 16);
    assert [h[0], h[1]] == h;
  }

  /** Reading back the hex rendering that `bytesToHex` writes gives the bytes back. */
  lemma {:induction false} HexRoundTrip(bytes: seq<uint8>)
    ensures HexStringToByteArray(MapiProperty.BytesToHex(bytes)) == Ok(bytes)
    decreases |bytes|
  {
    if |bytes| > 0 {
      var h := MapiProperty.ByteHex(bytes[0]);
      var rest := MapiProperty.BytesToHex(bytes[1..]);
      var s := MapiProperty.BytesToHex(bytes);
      assert s == h + rest;
      assert s[2..] == rest && s[0] == h[0] && s[1] == h[1];
      HexRoundTrip(bytes[1..]);
      HexPairOfByteHex(bytes[0]);
      assert [bytes[0]] + bytes[1..] == bytes;
    }
  }

  /** `hexToString` of a `bytesToHex` rendering decodes exactly the rendered bytes. */
  lemma HexToStringOfHex(bytes: seq<uint8>, charset: Charset, env: Collaborators)
    ensures HexToString(MapiProperty.BytesToHex(bytes), charset, env) == Ok(env.decode(charset, bytes))
  {
    HexRoundTrip(bytes);
  }
}
