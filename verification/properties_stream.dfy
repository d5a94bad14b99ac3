/**
 * The `__properties_version1.0` stream holds the fixed-size properties of a
 * message or recipient as a sequence of records. The parser turns each
 * record into a synthetic property stream named `__substg1.0_` followed by
 * the record's tag in upper-case hex, so that the ordinary property path can
 * decode it.
 */
module PropertiesStream {
  import opened Wrappers
  import opened JavaLang
  import opened MapiProperty

  const PROPS_KEY: string := "__properties_version1.0"

  /** A synthetic document entry: a name and the bytes of its stream. */
  datatype StreamEntry = StreamEntry(name: string, data: seq<uint8>)

  /** Variable-length types: the value lives in its own stream, the record holds only a size. */
  const VARIABLE_LENGTH_TYPES: set<int> := {0x48, 0x1e, 0x1f, 0xd, 0x102}
  /** Types stored as four bytes followed by four bytes of padding. */
  const FOUR_BYTE_TYPES: set<int> := {0x3, 0x4, 0xa, 0xb, 0x2}
  /** Types stored as eight bytes. */
  const EIGHT_BYTE_TYPES: set<int> := {0x5, 0x7, 0x6, 0x14, 0x40}

  function Zeros(n: nat): (r: seq<uint8>)
    ensures |r| == n && forall i :: 0 <= i < n ==> r[i] == 0
  {
    seq(n, _ => 0 as uint8)
  }

  /**
   * `read(buffer)` on a document stream: copies as many of the remaining
   * bytes as fit into the front of the buffer, leaving the rest of the buffer
   * as it was; answers the buffer and the bytes still unread.
   */
  function ReadInto(buffer: seq<uint8>, stream: seq<uint8>): (r: (seq<uint8>, seq<uint8>))
    ensures |r.0| == |buffer|
    ensures |stream| >= |buffer| ==> r == (stream[..|buffer|], stream[|buffer|..])
    ensures |stream| < |buffer| ==> r.1 == [] && r.0 == stream + buffer[|stream|..]
  {
    if |stream| < |buffer| then (stream + buffer[|stream|..], [])
    else
      assert buffer[|buffer|..] == [];
      (stream[..|buffer|], stream[|buffer|..])
  }

  /** The header string of a record: its four bytes in reverse order as upper-case hex. */
  function RecordHeader(h: seq<uint8>): (r: string)
    requires |h| == 4
    ensures |r| == 8
  {
    BytesToHex([h[3], h[2], h[1], h[0]])
  }

  /** The type number of a record: its header's last four hex digits, or -1 where they do not parse. */
  function TypeNumber(header: string): int
    requires |header| == 8
  {
    match ParseInt(header[4..], 16)
    case None => -1
    case Some(t) => t
  }

  /** The entry name of a record header. */
  function RecordName(h: seq<uint8>): (name: string)
    requires |h| == 4
    ensures |name| == |PROPERTY_STREAM_PREFIX| + 8 && StartsWith(name, PROPERTY_STREAM_PREFIX)
  {
    var name := PROPERTY_STREAM_PREFIX + RecordHeader(h);
    assert name[..|PROPERTY_STREAM_PREFIX|] == PROPERTY_STREAM_PREFIX;
    name
  }

  /**
   * One pass of the loop of `getDocumentEntriesFromPropertiesStream` over
   * a stream with a full header: the entry the record yields, if any, and
   * the bytes after the record. A record whose class is `0000` is only its
   * four header bytes. Otherwise four flag bytes follow and then, by type:
   * a four-byte size and no entry; two four-byte reads into the same
   * buffer, so the entry holds the second (padding) word; one eight-byte
   * read; or, for any other type, nothing more and the entry holds the
   * flags. Short reads leave zeros at the end of a fresh buffer.
   */
  function NextRecord(stream: seq<uint8>): (r: (Option<StreamEntry>, seq<uint8>))
    requires |stream| >= 4
    ensures |r.1| <= |stream| - 4
    ensures r.0.Some? ==> r.0.value.name == RecordName(stream[..4])
    ensures r.0.Some? ==> |r.0.value.data| == 4 || |r.0.value.data| == 8
  {
    var header := RecordHeader(stream[..4]);
    var afterHeader := stream[4..];
    if header[..4] == "0000" then (None, afterHeader)
    else
      var name := RecordName(stream[..4]);
      var typeNumber := TypeNumber(header);
      var (flags, afterFlags) := ReadInto(Zeros(4), afterHeader);
      if typeNumber in VARIABLE_LENGTH_TYPES then
        (None, ReadInto(Zeros(4), afterFlags).1)
      else if typeNumber in FOUR_BYTE_TYPES then
        var (value, afterValue) := ReadInto(Zeros(4), afterFlags);
        var (padding, afterPadding) := ReadInto(value, afterValue);
        (Some(StreamEntry(name, padding)), afterPadding)
      else if typeNumber in EIGHT_BYTE_TYPES then
        var (value, afterValue) := ReadInto(Zeros(8), afterFlags);
        (Some(StreamEntry(name, value)), afterValue)
      else
        (Some(StreamEntry(name, flags)), afterFlags)
  }

  /**
   * `getDocumentEntriesFromPropertiesStream`: the synthetic entries of a
   * properties stream, one per record that yields one, in record order,
   * until fewer than four bytes remain for a header.
   */
  function Split(stream: seq<uint8>): (r: seq<StreamEntry>)
    ensures forall i :: 0 <= i < |r| ==>
      |r[i].name| == |PROPERTY_STREAM_PREFIX| + 8 && StartsWith(r[i].name, PROPERTY_STREAM_PREFIX)
    ensures forall i :: 0 <= i < |r| ==> |r[i].data| == 4 || |r[i].data| == 8
    ensures 4 * |r| <= |stream|
    decreases |stream|
  {
    if |stream| < 4 then []
    else
      var (entry, rest) := NextRecord(stream);
      match entry
      case None => Split(rest)
      case Some(e) => [e] + Split(rest)
  }

  // ---------------------------------------------------------------------
  // The record header

  /** The class of a record is `0000` exactly when its two high bytes are zero. */
  lemma ZeroClassIff(h: seq<uint8>)
    requires |h| == 4
    ensures RecordHeader(h)[..4] == "0000" <==> h[3] == 0 && h[2] == 0
  {
    var hex := RecordHeader(h);
    HeaderParts(h);
    var a := ByteHex(h[3]);
    var b := ByteHex(h[2]);
    assert hex[..4] == a + b;
    if hex[..4] == "0000" {
      assert a == (a + b)[..2];
      assert b == (a + b)[2..];
      ZeroHex(h[3]);
      ZeroHex(h[2]);
    }
  }

  lemma ZeroHex(b: uint8)
    requires ByteHex(b) == "00"
    ensures b == 0
  {
    TwoDigitsValue('0', '0', 16);
  }

  lemma HeaderParts(h: seq<uint8>)
    requires |h| == 4
    ensures RecordHeader(h) == ByteHex(h[3]) + ByteHex(h[2]) + ByteHex(h[1]) + ByteHex(h[0])
  {
    var bs := [h[3], h[2], h[1], h[0]];
    assert BytesToHex(bs[3..]) == ByteHex(h[0]) by {
      assert bs[3..][1..] == [];
    }
    assert BytesToHex(bs[2..]) == ByteHex(h[1]) + ByteHex(h[0]) by {
      assert bs[2..][1..] == bs[3..];
    }
    assert BytesToHex(bs[1..]) == ByteHex(h[2]) + ByteHex(h[1]) + ByteHex(h[0]) by {
      assert bs[1..][1..] == bs[2..];
    }
  }

  /** The type number of a record is its second byte times 256 plus its first. */
  lemma TypeNumberValue(h: seq<uint8>)
    requires |h| == 4
    ensures TypeNumber(RecordHeader(h)) == h[1] as int * 256 + h[0] as int
  {
    var hex := RecordHeader(h);
    HeaderParts(h);
    var t := hex[4..];
    assert t == ByteHex(h[1]) + ByteHex(h[0]);
    TwoBytesHexValue(h[1], h[0]);
    assert t[0] != '-' && t[0] != '+' by {
      assert Digit(t[0], 16) >= 0;
    }
    assert t[0..] == t;
  }

  /** The name of every synthetic entry analyses to the record's class and type. */
  lemma RecordNameAnalysis(h: seq<uint8>)
    requires |h| == 4
    ensures AnalyzeName(PROPERTY_STREAM_PREFIX + RecordHeader(h))
         == MakeField(ToLower(BytesToHex([h[3], h[2]])), h[1] as int * 256 + h[0] as int)
  {
    AnalyzeStreamName(h[3], h[2], h[1], h[0]);
  }

  // ---------------------------------------------------------------------
  // Whole records

  /** The bytes of one record header with the given class and type. */
  function Header(tag: int, typ: int): (h: seq<uint8>)
    requires 0 <= tag < 0x1_0000 && 0 <= typ < 0x1_0000
    ensures |h| == 4
  {
    [(typ % 256) as uint8, (typ / 256) as uint8, (tag % 256) as uint8, (tag / 256) as uint8]
  }

  function EntryName(tag: int, typ: int): string
    requires 0 <= tag < 0x1_0000 && 0 <= typ < 0x1_0000
  {
    RecordName(Header(tag, typ))
  }

  lemma HeaderFacts(tag: int, typ: int)
    requires 0 <= tag < 0x1_0000 && 0 <= typ < 0x1_0000
    ensures TypeNumber(RecordHeader(Header(tag, typ))) == typ
    ensures RecordHeader(Header(tag, typ))[..4] == "0000" <==> tag == 0
  {
    TypeNumberValue(Header(tag, typ));
    ZeroClassIff(Header(tag, typ));
  }

  /** The record with header `h` has a class other than `0000` and a type in `types`. */
  predicate TaggedWithType(h: seq<uint8>, types: set<int>)
    requires |h| == 4
  {
    RecordHeader(h)[..4] != "0000" && TypeNumber(RecordHeader(h)) in types
  }

  lemma NextZeroClass(h: seq<uint8>, rest: seq<uint8>)
    requires |h| == 4 && RecordHeader(h)[..4] == "0000"
    ensures NextRecord(h + rest) == (None, rest)
  {
    assert (h + rest)[..4] == h;
    assert (h + rest)[4..] == rest;
  }

  lemma NextVariableLength(h: seq<uint8>, flags: seq<uint8>, size: seq<uint8>, rest: seq<uint8>)
    requires |h| == 4 && |flags| == 4 && |size| == 4 && TaggedWithType(h, VARIABLE_LENGTH_TYPES)
    ensures NextRecord(h + flags + size + rest) == (None, rest)
  {
    var s := h + flags + size + rest;
    assert s[..4] == h;
    assert s[4..] == flags + (size + rest);
    assert (flags + (size + rest))[..4] == flags;
    assert (flags + (size + rest))[4..] == size + rest;
    assert (size + rest)[..4] == size;
    assert (size + rest)[4..] == rest;
  }

  lemma NextFourByte(h: seq<uint8>, flags: seq<uint8>, value: seq<uint8>, padding: seq<uint8>, rest: seq<uint8>)
    requires |h| == 4 && |flags| == 4 && |value| == 4 && |padding| == 4
    requires TaggedWithType(h, FOUR_BYTE_TYPES)
    ensures NextRecord(h + flags + value + padding + rest) == (Some(StreamEntry(RecordName(h), padding)), rest)
  {
    var s := h + flags + value + padding + rest;
    assert s[..4] == h;
    assert s[4..] == flags + (value + padding + rest);
    assert (flags + (value + padding + rest))[..4] == flags;
    assert (flags + (value + padding + rest))[4..] == value + padding + rest;
    assert (value + padding + rest)[..4] == value;
    assert (value + padding + rest)[4..] == padding + rest;
    assert (padding + rest)[..4] == padding;
    assert (padding + rest)[4..] == rest;
  }

  /** An eight-byte record reads its value into a fresh eight-byte buffer after the flags. */
  lemma EightByteRecord(h: seq<uint8>, flags: seq<uint8>, tail: seq<uint8>)
    requires |h| == 4 && |flags| == 4 && TaggedWithType(h, EIGHT_BYTE_TYPES)
    ensures NextRecord(h + flags + tail)
         == (Some(StreamEntry(RecordName(h), ReadInto(Zeros(8), tail).0)), ReadInto(Zeros(8), tail).1)
  {
    var s := h + flags + tail;
    var t := TypeNumber(RecordHeader(h));
    assert t !in VARIABLE_LENGTH_TYPES && t !in FOUR_BYTE_TYPES;
    assert s[..4] == h;
    assert s[4..] == flags + tail;
    assert (flags + tail)[..4] == flags;
    assert (flags + tail)[4..] == tail;
  }

  lemma NextEightByte(h: seq<uint8>, flags: seq<uint8>, value: seq<uint8>, rest: seq<uint8>)
    requires |h| == 4 && |flags| == 4 && |value| == 8 && TaggedWithType(h, EIGHT_BYTE_TYPES)
    ensures NextRecord(h + flags + value + rest) == (Some(StreamEntry(RecordName(h), value)), rest)
  {
    assert h + flags + value + rest == h + flags + (value + rest);
    EightByteRecord(h, flags, value + rest);
    assert (value + rest)[..8] == value;
    assert (value + rest)[8..] == rest;
  }

  lemma NextOtherType(h: seq<uint8>, flags: seq<uint8>, rest: seq<uint8>)
    requires |h| == 4 && |flags| == 4 && RecordHeader(h)[..4] != "0000"
    requires !(TypeNumber(RecordHeader(h)) in VARIABLE_LENGTH_TYPES + FOUR_BYTE_TYPES + EIGHT_BYTE_TYPES)
    ensures NextRecord(h + flags + rest) == (Some(StreamEntry(RecordName(h), flags)), rest)
  {
    var s := h + flags + rest;
    assert s[..4] == h;
    assert s[4..] == flags + rest;
    assert (flags + rest)[..4] == flags;
    assert (flags + rest)[4..] == rest;
  }

  lemma NextTruncatedEightByte(h: seq<uint8>, flags: seq<uint8>, partial: seq<uint8>)
    requires |h| == 4 && |flags| == 4 && |partial| < 8 && TaggedWithType(h, EIGHT_BYTE_TYPES)
    ensures NextRecord(h + flags + partial) == (Some(StreamEntry(RecordName(h), partial + Zeros(8 - |partial|))), [])
  {
    EightByteRecord(h, flags, partial);
    ShortReadPads(partial);
  }

  /** A short read into a fresh eight-byte buffer leaves zeros after the bytes read. */
  lemma ShortReadPads(partial: seq<uint8>)
    requires |partial| < 8
    ensures ReadInto(Zeros(8), partial) == (partial + Zeros(8 - |partial|), [])
  {
    assert Zeros(8)[|partial|..] == Zeros(8 - |partial|);
  }

  /** A record of class `0000` is skipped after its header. */
  lemma SplitZeroClass(typ: int, rest: seq<uint8>)
    requires 0 <= typ < 0x1_0000
    ensures Split(Header(0, typ) + rest) == Split(rest)
  {
    HeaderFacts(0, typ);
    NextZeroClass(Header(0, typ), rest);
  }

  /** A variable-length record yields no entry. */
  lemma SplitVariableLength(tag: int, typ: int, flags: seq<uint8>, size: seq<uint8>, rest: seq<uint8>)
    requires 0 < tag < 0x1_0000 && typ in VARIABLE_LENGTH_TYPES
    requires |flags| == 4 && |size| == 4
    ensures Split(Header(tag, typ) + flags + size + rest) == Split(rest)
  {
    HeaderFacts(tag, typ);
    NextVariableLength(Header(tag, typ), flags, size, rest);
  }

  /**
   * A four-byte record yields one entry whose bytes are the padding word
   * that follows the value: both reads go into the same buffer.
   */
  lemma SplitFourByte(tag: int, typ: int, flags: seq<uint8>, value: seq<uint8>, padding: seq<uint8>, rest: seq<uint8>)
    requires 0 < tag < 0x1_0000 && typ in FOUR_BYTE_TYPES
    requires |flags| == 4 && |value| == 4 && |padding| == 4
    ensures Split(Header(tag, typ) + flags + value + padding + rest)
         == [StreamEntry(EntryName(tag, typ), padding)] + Split(rest)
  {
    HeaderFacts(tag, typ);
    NextFourByte(Header(tag, typ), flags, value, padding, rest);
  }

  /** An eight-byte record yields one entry holding the eight value bytes. */
  lemma SplitEightByte(tag: int, typ: int, flags: seq<uint8>, value: seq<uint8>, rest: seq<uint8>)
    requires 0 < tag < 0x1_0000 && typ in EIGHT_BYTE_TYPES
    requires |flags| == 4 && |value| == 8
    ensures Split(Header(tag, typ) + flags + value + rest)
         == [StreamEntry(EntryName(tag, typ), value)] + Split(rest)
  {
    HeaderFacts(tag, typ);
    NextEightByte(Header(tag, typ), flags, value, rest);
  }

  /** A record of any other type yields one entry holding its flags. */
  lemma SplitOtherType(tag: int, typ: int, flags: seq<uint8>, rest: seq<uint8>)
    requires 0 < tag < 0x1_0000 && 0 <= typ < 0x1_0000
    requires !(typ in VARIABLE_LENGTH_TYPES + FOUR_BYTE_TYPES + EIGHT_BYTE_TYPES)
    requires |flags| == 4
    ensures Split(Header(tag, typ) + flags + rest) == [StreamEntry(EntryName(tag, typ), flags)] + Split(rest)
  {
    HeaderFacts(tag, typ);
    NextOtherType(Header(tag, typ), flags, rest);
  }

  /** An eight-byte record cut short keeps the bytes there are and pads with zeros. */
  lemma SplitTruncatedEightByte(tag: int, typ: int, flags: seq<uint8>, partial: seq<uint8>)
    requires 0 < tag < 0x1_0000 && typ in EIGHT_BYTE_TYPES
    requires |flags| == 4 && |partial| < 8
    ensures Split(Header(tag, typ) + flags + partial)
         == [StreamEntry(EntryName(tag, typ), partial + Zeros(8 - |partial|))]
  {
    HeaderFacts(tag, typ);
    NextTruncatedEightByte(Header(tag, typ), flags, partial);
  }

  /** The lower-case hex of a property tag, as the property setters see it. */
  function TagHex(tag: int): string
    requires 0 <= tag < 0x1_0000
  {
    ToLower(BytesToHex([(tag / 256) as uint8, (tag % 256) as uint8]))
  }

  /**
   * The timestamp of a SYSTIME record reaches the message: the entry the
   * splitter makes for it decodes, through the ordinary property path, to
   * the record's FILETIME under the record's tag.
   */
  lemma SysTimeRecordDecodes(tag: int, flags: seq<uint8>, value: seq<uint8>, rest: seq<uint8>, env: Collaborators.Collaborators)
    requires 0 < tag < 0x1_0000 && |flags| == 4 && |value| == 8
    ensures Split(Header(tag, PT_SYSTIME) + flags + value + rest)
         == [StreamEntry(EntryName(tag, PT_SYSTIME), value)] + Split(rest)
    ensures ReadProperty(EntryName(tag, PT_SYSTIME), value, 8, env)
         == Ok(Property(Some(TagHex(tag)), Some(Time(FileTimeMillis(value).value)), 8))
  {
    SplitEightByte(tag, PT_SYSTIME, flags, value, rest);
    RecordNameAnalysis(Header(tag, PT_SYSTIME));
  }
}
