/**
 * MAPI properties as the parser sees them: the name of a property stream
 * (`__substg1.0_` followed by four hex digits of property tag and four of
 * MAPI type), the field information derived from it, and the typed value
 * decoded from the stream's bytes.
 */
module MapiProperty {
  import opened Wrappers
  import opened JavaLang
  import opened Collaborators

  /** The decoded value of a property: a Java `String`, `byte[]` or `Date` (epoch milliseconds). */
  datatype Value = Text(text: string) | Binary(bytes: seq<uint8>) | Time(millis: int)

  /**
   * One property handed to an entity's setter: the property tag as four
   * lower-case hex digits (or "unknown"), the decoded value (`None` for Java
   * `null`) and the size declared by the container for the stream.
   */
  datatype Property = Property(clazz: Option<string>, data: Option<Value>, size: int)

  const UNKNOWN: string := "unknown"
  const UNKNOWN_MAPITYPE: int := -1
  const PROPERTY_STREAM_PREFIX: string := "__substg1.0_"

  const PT_LONG: int := 0x3
  const PT_STRING8: int := 0x1e
  const PT_UNICODE: int := 0x1f
  const PT_BINARY: int := 0x102
  const PT_SYSTIME: int := 0x40

  /**
   * The class and MAPI type of a property stream. The `typ` field is what
   * the Java constructor stores, which is always "unknown".
   */
  datatype FieldInformation = FieldInformation(clazz: string, typ: string, mapiType: int)

  /** `new OutlookFieldInformation()`. */
  function UnknownField(): (f: FieldInformation)
    ensures f.clazz == UNKNOWN && f.mapiType == UNKNOWN_MAPITYPE
  {
    MakeField(UNKNOWN, UNKNOWN_MAPITYPE)
  }

  /** `new OutlookFieldInformation(clazz, mapiType)`: the type string is not kept. */
  function MakeField(clazz: string, mapiType: int): (f: FieldInformation)
    ensures f.clazz == clazz && f.mapiType == mapiType && f.typ == UNKNOWN
  {
    FieldInformation(clazz, UNKNOWN, mapiType)
  }

  /**
   * `analyzeDocumentEntry`: a property stream name yields its lower-cased
   * class (four characters) and the MAPI type parsed from the next four;
   * any other name, a name too short, or a type that does not parse as a
   * hexadecimal `int` yields the unknown field.
   */
  function AnalyzeName(name: string): (f: FieldInformation)
    ensures f.typ == UNKNOWN
    ensures !StartsWith(name, PROPERTY_STREAM_PREFIX) ==> f == UnknownField()
    ensures |name| < |PROPERTY_STREAM_PREFIX| + 8 ==> f == UnknownField()
    ensures f != UnknownField() ==>
      f.clazz == ToLower(name[12..16]) && ParseInt(ToLower(name[16..20]), 16) == Some(f.mapiType)
  {
    if !StartsWith(name, PROPERTY_STREAM_PREFIX) then UnknownField()
    else
      var val := ToLower(name[|PROPERTY_STREAM_PREFIX|..]);
      if |val| < 8 then UnknownField()
      else
        match ParseInt(val[4..8], 16)
        case None => UnknownField()
        case Some(t) =>
          assert val[..4] == ToLower(name[12..16]);
          assert val[4..8] == ToLower(name[16..20]);
          MakeField(val[..4], t)
  }

  /**
   * `analyzeDocumentEntry` of the legacy parser: the type is everything
   * after the class, not just the next four characters.
   */
  function LegacyAnalyzeName(name: string): (f: FieldInformation)
    ensures f.typ == UNKNOWN
    ensures !StartsWith(name, PROPERTY_STREAM_PREFIX) ==> f == UnknownField()
    ensures f != UnknownField() ==>
      |name| >= 16 && f.clazz == ToLower(name[12..16]) && ParseInt(ToLower(name[16..]), 16) == Some(f.mapiType)
  {
    if !StartsWith(name, PROPERTY_STREAM_PREFIX) then UnknownField()
    else
      var val := ToLower(name[|PROPERTY_STREAM_PREFIX|..]);
      if |val| < 4 then UnknownField()
      else
        match ParseInt(val[4..], 16)
        case None => UnknownField()
        case Some(t) =>
          assert val[..4] == ToLower(name[12..16]);
          assert val[4..] == ToLower(name[16..]);
          MakeField(val[..4], t)
  }

  /** The two analyses agree on every name whose remainder is exactly eight characters. */
  lemma AnalyzersAgreeOnEightDigits(name: string)
    requires |name| == |PROPERTY_STREAM_PREFIX| + 8
    ensures AnalyzeName(name) == LegacyAnalyzeName(name)
  {
    if StartsWith(name, PROPERTY_STREAM_PREFIX) {
      var val := ToLower(name[|PROPERTY_STREAM_PREFIX|..]);
      assert val[4..8] == val[4..];
    }
  }

  // ---------------------------------------------------------------------
  // Hexadecimal property names

  /** `String.format("%02X", b & 0xff)`. */
  function ByteHex(b: uint8): (r: string)
    ensures |r| == 2 && AllDigits(r, 16)
    ensures DigitsValue(r, 16) == b as int
    ensures forall i :: 0 <= i < 2 ==> !('a' <= r[i] <= 'z')
  {
    var hi := b as int / 16;
    var lo := b as int % 16;
    DigitOfDigitChar(hi, true);
    DigitOfDigitChar(lo, true);
    var r := [DigitChar(hi, true), DigitChar(lo, true)];
    TwoDigitsValue(r[0], r[1], 16);
    assert [r[0], r[1]] == r;
    r
  }

  lemma TwoDigitsValue(c1: char, c2: char, radix: nat)
    requires 2 <= radix <= 36 && Digit(c1, radix) >= 0 && Digit(c2, radix) >= 0
    ensures AllDigits([c1, c2], radix)
    ensures DigitsValue([c1, c2], radix) == Digit(c1, radix) * radix + Digit(c2, radix)
  {
    assert [c1, c2][..1] == [c1];
    assert [c1][..0] == [];
    assert DigitsValue([c1], radix) == Digit(c1, radix);
  }

  /** `bytesToHex`: two upper-case hex digits per byte, in order. */
  function BytesToHex(bytes: seq<uint8>): (r: string)
    ensures |r| == 2 * |bytes|
    decreases |bytes|
  {
    if |bytes| == 0 then [] else ByteHex(bytes[0]) + BytesToHex(bytes[1..])
  }

  /** The hex digits of byte `i` sit at positions `2i` and `2i + 1`. */
  lemma {:induction false} BytesToHexAt(bytes: seq<uint8>, i: int)
    requires 0 <= i < |bytes|
    ensures BytesToHex(bytes)[2 * i..2 * i + 2] == ByteHex(bytes[i])
    decreases i
  {
    if i > 0 {
      BytesToHexAt(bytes[1..], i - 1);
      var h := ByteHex(bytes[0]);
      var rest := BytesToHex(bytes[1..]);
      assert BytesToHex(bytes) == h + rest;
      assert (h + rest)[2 * i..2 * i + 2] == rest[2 * i - 2..2 * i];
      assert bytes[1..][i - 1] == bytes[i];
    }
  }

  lemma BytesToHexAllDigits(bytes: seq<uint8>)
    ensures AllDigits(BytesToHex(bytes), 16)
  {
    var r := BytesToHex(bytes);
    forall j | 0 <= j < |r| ensures Digit(r[j], 16) >= 0 {
      BytesToHexAt(bytes, j / 2);
      assert r[j] == r[2 * (j / 2)..2 * (j / 2) + 2][j % 2];
    }
  }

  /** The value of the hex digits of two bytes is the big-endian 16-bit number they form. */
  lemma TwoBytesHexValue(hi: uint8, lo: uint8)
    ensures AllDigits(ByteHex(hi) + ByteHex(lo), 16)
    ensures DigitsValue(ByteHex(hi) + ByteHex(lo), 16) == hi as int * 256 + lo as int
  {
    DigitsValueAppend(ByteHex(hi), ByteHex(lo), 16);
    assert Pow(16, 2) == 256;
  }

  /** Lower-casing upper-case hex digits keeps every digit's value. */
  lemma {:induction false} ToLowerKeepsHexValue(s: string)
    requires AllDigits(s, 16)
    ensures AllDigits(ToLower(s), 16)
    ensures DigitsValue(ToLower(s), 16) == DigitsValue(s, 16)
    decreases |s|
  {
    if |s| > 0 {
      var front := s[..|s| - 1];
      ToLowerKeepsHexValue(front);
      assert ToLower(s)[..|s| - 1] == ToLower(front);
    }
  }

  /**
   * A property stream name built from a class and a 16-bit type in
   * upper-case hex, as Outlook writes them, analyses back to that class
   * (lower-cased) and that type.
   */
  lemma AnalyzeStreamName(tag: uint8, tagLow: uint8, typeHigh: uint8, typeLow: uint8)
    ensures var name := PROPERTY_STREAM_PREFIX + BytesToHex([tag, tagLow, typeHigh, typeLow]);
      AnalyzeName(name) == MakeField(ToLower(BytesToHex([tag, tagLow])), typeHigh as int * 256 + typeLow as int)
  {
    var hex := BytesToHex([tag, tagLow, typeHigh, typeLow]);
    FourBytesHex(tag, tagLow, typeHigh, typeLow);
    assert hex[..4] == BytesToHex([tag, tagLow]);
    assert hex[4..] == ByteHex(typeHigh) + ByteHex(typeLow);
    TypeDigitsParse(typeHigh, typeLow);
    AnalyzeEightDigits(hex, typeHigh as int * 256 + typeLow as int);
  }

  /** The hex of four bytes is the hex of each byte in turn. */
  lemma FourBytesHex(a: uint8, b: uint8, c: uint8, d: uint8)
    ensures BytesToHex([a, b]) == ByteHex(a) + ByteHex(b)
    ensures BytesToHex([a, b, c, d]) == BytesToHex([a, b]) + (ByteHex(c) + ByteHex(d))
  {
    var bs := [a, b, c, d];
    assert BytesToHex(bs[3..]) == ByteHex(d) by {
      assert bs[3..][1..] == [];
    }
    assert BytesToHex(bs[2..]) == ByteHex(c) + ByteHex(d) by {
      assert bs[2..][1..] == bs[3..];
    }
    assert BytesToHex(bs[1..]) == ByteHex(b) + (ByteHex(c) + ByteHex(d)) by {
      assert bs[1..][1..] == bs[2..];
    }
    assert BytesToHex([a, b]) == ByteHex(a) + ByteHex(b) by {
      assert [a, b][1..][1..] == [];
    }
  }

  /** The four upper-case hex digits of a 16-bit type parse back to it once lower-cased. */
  lemma TypeDigitsParse(hi: uint8, lo: uint8)
    ensures ParseInt(ToLower(ByteHex(hi) + ByteHex(lo)), 16) == Some(hi as int * 256 + lo as int)
  {
    var t := ByteHex(hi) + ByteHex(lo);
    TwoBytesHexValue(hi, lo);
    ToLowerKeepsHexValue(t);
    var lt := ToLower(t);
    assert lt[0] != '-' && lt[0] != '+' by {
      assert Digit(lt[0], 16) >= 0;
    }
    assert lt[0..] == lt;
  }

  /** A prefixed name with eight characters after the prefix analyses to its class and parsed type. */
  lemma AnalyzeEightDigits(hex: string, t: int)
    requires |hex| == 8 && ParseInt(ToLower(hex[4..]), 16) == Some(t)
    ensures AnalyzeName(PROPERTY_STREAM_PREFIX + hex) == MakeField(ToLower(hex[..4]), t)
  {
    var name := PROPERTY_STREAM_PREFIX + hex;
    assert name[..12] == PROPERTY_STREAM_PREFIX;
    assert name[12..] == hex;
    var val := ToLower(hex);
    assert val[4..8] == ToLower(hex[4..]);
    assert val[..4] == ToLower(hex[..4]);
  }

  // ---------------------------------------------------------------------
  // Decoding property values

  /** `new String(bytes, ISO_8859_1)`: each byte is the character with that code. */
  function Latin1(bytes: seq<uint8>): (r: string)
    ensures |r| == |bytes|
    ensures forall i :: 0 <= i < |bytes| ==> r[i] as int == bytes[i] as int
  {
    seq(|bytes|, i requires 0 <= i < |bytes| => bytes[i] as char)
  }

  /** `(int) b` for a Java `byte`: the signed value. */
  function SignedByte(b: uint8): (r: int)
    ensures -128 <= r < 128
    ensures (r - b as int) % 256 == 0
  {
    if b as int >= 128 then b as int - 256 else b as int
  }

  /** The code unit of a byte pair: the high byte shifted as a signed value, plus the low byte. */
  lemma UnitValue(lo: uint8, hi: uint8)
    ensures (SignedByte(hi) * 256 + lo as int) % 0x1_0000 == lo as int + 256 * hi as int
  {
    if hi as int >= 128 {
      assert SignedByte(hi) * 256 + lo as int == lo as int + 256 * hi as int - 0x1_0000;
    }
  }

  /**
   * The PT_UNICODE decoding: one character per pair of bytes, low byte
   * first; the high byte is shifted as a signed value and the sum is cast to
   * `char`, i.e. reduced modulo 2^16. A trailing odd byte is ignored.
   */
  function Utf16Le(bytes: seq<uint8>): (r: string)
    ensures |r| == |bytes| / 2
    ensures forall k :: 0 <= k < |r| ==> r[k] == Utf16Unit(bytes[2 * k], bytes[2 * k + 1])
  {
    seq(|bytes| / 2, k requires 0 <= k < |bytes| / 2 => Utf16Unit(bytes[2 * k], bytes[2 * k + 1]))
  }

  /** One decoded character: the unit `lo + 256 * hi` (U+FFFD for a lone surrogate). */
  function Utf16Unit(lo: uint8, hi: uint8): (c: char)
    ensures !IsSurrogate(lo as int + 256 * hi as int) ==> c as int == lo as int + 256 * hi as int
    ensures IsSurrogate(lo as int + 256 * hi as int) ==> c == REPLACEMENT_CHARACTER
  {
    UnitValue(lo, hi);
    JavaChar(SignedByte(hi) * 256 + lo as int)
  }

  /** The two bytes of one code unit, low byte first. */
  function UnitBytes(c: char): (r: seq<uint8>)
    requires c as int < 0x1_0000
    ensures |r| == 2 && r[0] as int + 256 * r[1] as int == c as int
  {
    var u := c as int;
    [(u % 256) as uint8, (u / 256) as uint8]
  }

  /** Encodes each character as one code unit, low byte first; the partner of `Utf16Le`. */
  function EncodeUtf16Le(s: string): (r: seq<uint8>)
    requires IsBmp(s)
    ensures |r| == 2 * |s|
    decreases |s|
  {
    if |s| == 0 then [] else UnitBytes(s[0]) + EncodeUtf16Le(s[1..])
  }

  lemma {:induction false} EncodeUtf16LeAt(s: string, k: int)
    requires IsBmp(s) && 0 <= k < |s|
    ensures EncodeUtf16Le(s)[2 * k..2 * k + 2] == UnitBytes(s[k])
    decreases k
  {
    if k > 0 {
      EncodeUtf16LeAt(s[1..], k - 1);
      var rest := EncodeUtf16Le(s[1..]);
      assert EncodeUtf16Le(s)[2 * k..2 * k + 2] == rest[2 * (k - 1)..2 * (k - 1) + 2];
    }
  }

  /** Decoding the little-endian encoding of a BMP string gives the string back. */
  lemma DecodeEncodeUtf16Le(s: string)
    requires IsBmp(s)
    ensures Utf16Le(EncodeUtf16Le(s)) == s
  {
    var r := Utf16Le(EncodeUtf16Le(s));
    forall k | 0 <= k < |s| ensures r[k] == s[k] {
      DecodedUnitAt(s, k);
    }
  }

  /** Character `k` of the decoded encoding is character `k` of the string. */
  lemma DecodedUnitAt(s: string, k: int)
    requires IsBmp(s) && 0 <= k < |s|
    ensures Utf16Le(EncodeUtf16Le(s))[k] == s[k]
  {
    var e := EncodeUtf16Le(s);
    var u := UnitBytes(s[k]);
    EncodeUtf16LeAt(s, k);
    assert e[2 * k] == u[0] && e[2 * k + 1] == u[1];
    UnitRoundTrip(s[k]);
  }

  /** The two bytes of a BMP character decode back to it. */
  lemma UnitRoundTrip(c: char)
    requires c as int < 0x1_0000
    ensures Utf16Unit(UnitBytes(c)[0], UnitBytes(c)[1]) == c
  {
    var u := UnitBytes(c);
    assert !IsSurrogate(u[0] as int + 256 * u[1] as int);
  }

  /** The signed 64-bit little-endian value of eight bytes (`ByteBuffer.getLong`). */
  function LittleEndianLong(b: seq<uint8>): (r: int)
    requires |b| == 8
    ensures -0x8000_0000_0000_0000 <= r < 0x8000_0000_0000_0000
  {
    var u := UnsignedLittleEndian(b);
    if u >= 0x8000_0000_0000_0000 then u - 0x1_0000_0000_0000_0000 else u
  }

  function UnsignedLittleEndian(b: seq<uint8>): (r: nat)
    ensures r < Power256(|b|)
    decreases |b|
  {
    if |b| == 0 then 0 else b[0] as int + 256 * UnsignedLittleEndian(b[1..])
  }

  function Power256(n: nat): (r: nat)
    ensures r >= 1
  {
    if n == 0 then 1 else 256 * Power256(n - 1)
  }

  /** Java's `long` division, which truncates toward zero. */
  function TruncatingDiv(a: int, b: int): (q: int)
    requires b > 0
    ensures a >= 0 ==> q == a / b
    ensures a < 0 ==> q == -((-a) / b)
    ensures (a - q * b < b) && (-(a - q * b) < b)
  {
    if a >= 0 then a / b else -((-a) / b)
  }

  const FILETIME_TICKS_PER_MILLI: int := 10000
  const FILETIME_EPOCH_OFFSET_MILLIS: int := 11644473600000

  /**
   * The PT_SYSTIME decoding: the bytes (at most eight, zero-padded) are a
   * count of 100-nanosecond ticks since 1601, turned into milliseconds since
   * 1970. More than eight bytes overflow the Java buffer.
   */
  function FileTimeMillis(bytes: seq<uint8>): (r: Result<int, Exception>)
    ensures |bytes| > 8 <==> r == Err(BufferOverflow)
    ensures |bytes| == 0 ==> r == Ok(-FILETIME_EPOCH_OFFSET_MILLIS)
  {
    if |bytes| > 8 then Err(BufferOverflow)
    else
      var padded := bytes + seq(8 - |bytes|, _ => 0 as uint8);
      if |bytes| == 0 then
        assert padded == seq(8, _ => 0 as uint8);
        ZeroBytesValue(8);
        Ok(TruncatingDiv(LittleEndianLong(padded), FILETIME_TICKS_PER_MILLI) - FILETIME_EPOCH_OFFSET_MILLIS)
      else
        Ok(TruncatingDiv(LittleEndianLong(padded), FILETIME_TICKS_PER_MILLI) - FILETIME_EPOCH_OFFSET_MILLIS)
  }

  lemma {:induction false} ZeroBytesValue(n: nat)
    ensures UnsignedLittleEndian(seq(n, _ => 0 as uint8)) == 0
    decreases n
  {
    if n > 0 {
      ZeroBytesValue(n - 1);
      assert seq(n, _ => 0 as uint8)[1..] == seq(n - 1, _ => 0 as uint8);
    }
  }

  /** Eight bytes holding `ticks` little-endian, the partner of `LittleEndianLong`. */
  function EncodeLong(ticks: int): (r: seq<uint8>)
    requires -0x8000_0000_0000_0000 <= ticks < 0x8000_0000_0000_0000
    ensures |r| == 8
  {
    var u: nat := if ticks < 0 then ticks + 0x1_0000_0000_0000_0000 else ticks;
    EncodeUnsigned(u, 8)
  }

  function EncodeUnsigned(u: nat, n: nat): (r: seq<uint8>)
    ensures |r| == n
    decreases n
  {
    if n == 0 then [] else [(u % 256) as uint8] + EncodeUnsigned(u / 256, n - 1)
  }

  lemma {:induction false} DecodeEncodeUnsigned(u: nat, n: nat)
    requires u < Power256(n)
    ensures UnsignedLittleEndian(EncodeUnsigned(u, n)) == u
    decreases n
  {
    if n > 0 {
      DivBound(u, Power256(n - 1));
      DecodeEncodeUnsigned(u / 256, n - 1);
      var e := EncodeUnsigned(u, n);
      assert e[1..] == EncodeUnsigned(u / 256, n - 1);
      assert e[0] as int == u % 256;
      DivMod256(u);
    }
  }

  lemma DivMod256(u: nat)
    ensures u == u % 256 + 256 * (u / 256)
  {
  }

  lemma DivBound(u: nat, p: nat)
    requires u < 256 * p
    ensures u / 256 < p
  {
  }

  /**
   * A FILETIME written as eight little-endian bytes decodes to its tick
   * count divided (toward zero) into milliseconds, shifted to the Unix epoch.
   */
  lemma FileTimeRoundTrip(ticks: int)
    requires -0x8000_0000_0000_0000 <= ticks < 0x8000_0000_0000_0000
    ensures FileTimeMillis(EncodeLong(ticks)) == Ok(TruncatingDiv(ticks, 10000) - 11644473600000)
  {
    LongRoundTrip(ticks);
    var b := EncodeLong(ticks);
    assert b + seq(0, _ => 0 as uint8) == b;
  }

  /** `ByteBuffer.getLong` reads back the two's-complement bytes of any `long`. */
  lemma LongRoundTrip(ticks: int)
    requires -0x8000_0000_0000_0000 <= ticks < 0x8000_0000_0000_0000
    ensures LittleEndianLong(EncodeLong(ticks)) == ticks
  {
    var u: nat := if ticks < 0 then ticks + 0x1_0000_0000_0000_0000 else ticks;
    assert Power256(8) == 0x1_0000_0000_0000_0000;
    DecodeEncodeUnsigned(u, 8);
  }

  /** A FILETIME of exactly 1970-01-01 decodes to the epoch. */
  lemma FileTimeUnixEpoch()
    ensures FileTimeMillis(EncodeLong(116444736000000000)) == Ok(0)
  {
    FileTimeRoundTrip(116444736000000000);
  }

  /**
   * `getData` of the current parser: the value of a property stream's bytes
   * for its MAPI type. PT_STRING8 is read as ISO-8859-1 and re-decoded with
   * the charset it declares when that charset exists.
   */
  function GetData(info: FieldInformation, bytes: seq<uint8>, env: Collaborators): (r: Result<Option<Value>, Exception>)
    ensures info.mapiType == PT_UNICODE ==> r == Ok(Some(Text(Utf16Le(bytes))))
    ensures info.mapiType == PT_BINARY ==> r == Ok(Some(Binary(bytes)))
    ensures r.Err? <==> info.mapiType == PT_SYSTIME && |bytes| > 8
    ensures info.mapiType !in {PT_STRING8, PT_UNICODE, PT_BINARY, PT_SYSTIME} ==> r == Ok(None)
    ensures r.Ok? && r.value.Some? && r.value.value.Text? ==> info.mapiType in {PT_STRING8, PT_UNICODE}
  {
    if info.mapiType == PT_STRING8 then
      var latin := Latin1(bytes);
      var declared := match env.charsetDeclaration(latin)
        case None => None
        case Some(name) => env.forName(name);
      match declared
      case None => Ok(Some(Text(latin)))
      case Some(cs) => Ok(Some(Text(env.decode(cs, bytes))))
    else if info.mapiType == PT_UNICODE then Ok(Some(Text(Utf16Le(bytes))))
    else if info.mapiType == PT_BINARY then Ok(Some(Binary(bytes)))
    else if info.mapiType == PT_SYSTIME then
      match FileTimeMillis(bytes)
      case Err(e) => Err(e)
      case Ok(ms) => Ok(Some(Time(ms)))
    else Ok(None)
  }

  /** `getData` of the legacy parser: PT_STRING8 is always ISO-8859-1. */
  function LegacyGetData(info: FieldInformation, bytes: seq<uint8>): (r: Result<Option<Value>, Exception>)
    ensures info.mapiType == PT_STRING8 ==> r == Ok(Some(Text(Latin1(bytes))))
    ensures r.Err? <==> info.mapiType == PT_SYSTIME && |bytes| > 8
  {
    if info.mapiType == PT_STRING8 then Ok(Some(Text(Latin1(bytes))))
    else if info.mapiType == PT_UNICODE then Ok(Some(Text(Utf16Le(bytes))))
    else if info.mapiType == PT_BINARY then Ok(Some(Binary(bytes)))
    else if info.mapiType == PT_SYSTIME then
      match FileTimeMillis(bytes)
      case Err(e) => Err(e)
      case Ok(ms) => Ok(Some(Time(ms)))
    else Ok(None)
  }

  /** The parsers differ only on PT_STRING8 text that declares an existing charset. */
  lemma GetDataAgreesWithLegacy(info: FieldInformation, bytes: seq<uint8>, env: Collaborators)
    requires info.mapiType != PT_STRING8 || env.charsetDeclaration(Latin1(bytes)).None?
    ensures GetData(info, bytes, env) == LegacyGetData(info, bytes)
  {
  }

  /**
   * The property tag an entity's setter switches on: the class parsed as a
   * hexadecimal `int`, or -1 where it does not parse.
   */
  function MapiClass(clazz: string): (tag: int)
    ensures tag == -1 || IsInt32(tag)
    ensures ParseInt(clazz, 16).None? ==> tag == -1
  {
    match ParseInt(clazz, 16)
    case None => -1
    case Some(t) => t
  }

  /** The `(String) value` cast: a value that is not text throws `ClassCastException`. */
  function AsText(v: Value): (r: Result<string, Exception>)
    ensures r.Ok? <==> v.Text?
    ensures r.Ok? ==> r.value == v.text
    ensures r.Err? ==> r.error == ClassCast
  {
    if v.Text? then Ok(v.text) else Err(ClassCast)
  }

  /** The `(byte[]) value` cast: a value that is not binary throws `ClassCastException`. */
  function AsBinary(v: Value): (r: Result<seq<uint8>, Exception>)
    ensures r.Ok? <==> v.Binary?
    ensures r.Ok? ==> r.value == v.bytes
    ensures r.Err? ==> r.error == ClassCast
  {
    if v.Binary? then Ok(v.bytes) else Err(ClassCast)
  }

  /** `getMessagePropertyFromDocumentEntry` of the current parser. */
  function ReadProperty(name: string, bytes: seq<uint8>, declaredSize: int, env: Collaborators): (r: Result<Property, Exception>)
    ensures r.Ok? ==> r.value.clazz == Some(AnalyzeName(name).clazz) && r.value.size == declaredSize
    ensures AnalyzeName(name).mapiType == UNKNOWN_MAPITYPE ==> r == Ok(Property(Some(AnalyzeName(name).clazz), None, declaredSize))
    ensures r.Err? <==> AnalyzeName(name).mapiType == PT_SYSTIME && |bytes| > 8
    ensures !StartsWith(name, PROPERTY_STREAM_PREFIX) ==> r == Ok(Property(Some(UNKNOWN), None, declaredSize))
  {
    var info := AnalyzeName(name);
    match GetData(info, bytes, env)
    case Err(e) => Err(e)
    case Ok(data) => Ok(Property(Some(info.clazz), data, declaredSize))
  }

  /** `getMessagePropertyFromDocumentEntry` of the legacy parser. */
  function LegacyReadProperty(name: string, bytes: seq<uint8>, declaredSize: int): (r: Result<Property, Exception>)
    ensures r.Ok? ==> r.value.clazz == Some(LegacyAnalyzeName(name).clazz) && r.value.size == declaredSize
    ensures !StartsWith(name, PROPERTY_STREAM_PREFIX) ==> r == Ok(Property(Some(UNKNOWN), None, declaredSize))
  {
    var info := LegacyAnalyzeName(name);
    match LegacyGetData(info, bytes)
    case Err(e) => Err(e)
    case Ok(data) => Ok(Property(Some(info.clazz), data, declaredSize))
  }
}
