# outlook-message-parser, modelled in Dafny

This project models the core of outlook-message-parser, a Java library that
reads Outlook `.msg` files (the Compound File container described in
[MS-OXMSG]) into a message object. The model covers four groups.

- **Property decoding and the container walk.**
  - `MapiProperty` parses `__substg1.0_TTTTYYYY` leaf names into a tag and
    a type, and decodes raw bytes by type code. Type 0x1f is little-endian
    UTF-16. Type 0x40 is a FILETIME converted to Unix milliseconds.
  - `PropertiesStream` splits the packed `__properties_version1.0` stream
    into records, reproducing the reader's buffer reuse.
  - `OutlookMessageParser` and `WalkProperties` walk an abstract directory
    tree of the current parser. They dispatch on name prefixes, accept
    attachments and purge empty nested messages.
  - `MsgParser` and `MsgParserProperties` do the same for the older parser,
    which fills the older `Message` class.
  - `MsgContainer` is the tree: `Dir(name, children) | Leaf(name, bytes, size)`.
- **Entity property mergers.**
  - `OutlookMessage` and `MessagePolicies` cover the current message's
    `setProperty` dispatch and its overwrite policies: last non-null wins,
    first wins, only if at least as long, and only with an `@`.
  - `OutlookRecipient`, `OutlookFileAttachment` and `FileOutlookAttachment`
    model the recipient and the two attachment classes.
  - `OutlookSmime` is the three-variant S/MIME descriptor.
  - `LegacyMessage` and `LegacyPolicies` model the older `Message` class.
    The older `RecipientEntry` (`src/main/java/com/auxilii/msgparser/RecipientEntry.java`,
    lines 58-134) has the same `setProperty` dispatch, the same first-wins
    e-mail with an `@`, the same last-non-null name and the same equality.
    `OutlookRecipient` therefore models both classes, and the older parser
    builds its recipients with it.
- **Derived views.**
  - `MessageView` covers To/Cc/Bcc filtering and `toString`.
  - `CidAttachments` covers inline (`cid:`) versus downloadable attachments.
  - `SmimeHeader` covers the S/MIME Content-Type parameter split.
  - The `From:` and `Date:` header scraping lives in `OutlookMessage`.
- **RTF and header text.**
  - `RtfConverter` models the explicit-stack RTF scanner of the current
    converter as a step function. `RtfConverterProperties` proves its
    properties.
  - `LegacyRtfConverter` models the string passes of the older regex-based
    converter.
  - `ByteUtil` models hex decoding, and `CharsetHelper` models code-page name
    probing.
  - `MimeUtility` and `HeaderFolding` model the vendored header utilities:
    `quote`, `fold`, `makesafe`, `unfold` and ASCII classification. Their
    conventions follow sections 2.2.3 and 3.2.4 of RFC 5322.

Supporting modules:

- `JavaLang` models the parts of the Java library the code relies on: `String` methods, `split`, `trim`, `Integer.parseInt`, `Character.digit` and 32-bit arithmetic.
- `Wrappers` holds `Option` and `Result`. A Java exception is an `Err` carrying its kind.
- `Collaborators` gathers everything outside the core as total function values, so every statement holds whatever they compute:
  - charset lookup and decoding;
  - date parsing and printing;
  - compressed-RTF decompression;
  - the RFC-compliant RTF converter;
  - the MIME type table;
  - the regular expressions for Reply-To, the S/MIME header and `charset=`.

Details of the code that the model keeps exactly as written:

- A 4-byte property in the packed stream yields its padding word, not its data word, because the padding read reuses the buffer.
- A run of `\'XX` escapes is decoded as one byte sequence, not one character per escape.
- The scan ends at the `}` that leaves exactly one group on the stack, not when the outermost group is popped.
- The `<html>` extraction, the envelope and the auto-linking belong to the older converter only. The current scanner has none of them, and neither converter strips NUL characters.
- Nested messages are never among the downloadable attachments.
- Recipients have no X.500 address handling and no "name used as address" flag.
- `OutlookMessageParser` calls a two-argument `setProperty` that `OutlookMessage.java` does not declare. The model uses the one-argument `setProperty`, and the RTF converter that call installs is a collaborator.
- `OutlookMessage` reads a content id that `OutlookFileAttachment.java` does not declare. The attachment carries an optional `contentId` field for it.

## Model

| member | source | states |
|---|---|---|
| ByteUtil.HexPair | src/main/java/org/simplejavamail/outlookmessageparser/rtf/util/ByteUtil.java:42-43 | two hex digits stand for the byte sixteen times the first plus the second; a non-digit counts as -1 and the cast keeps the low eight bits |
| ByteUtil.HexStringToByteArray | src/main/java/org/simplejavamail/outlookmessageparser/rtf/util/ByteUtil.java:38-46 | an even-length text gives one byte per character pair, byte k being the pair at 2k; an odd length reads past the end and throws StringIndexOutOfBoundsException |
| ByteUtil.HexToString | src/main/java/org/simplejavamail/outlookmessageparser/rtf/util/ByteUtil.java:27-30 | decoding succeeds exactly on even-length hex text; otherwise the same index exception escapes |
| ByteUtil.HexStringCaseInsensitive | src/main/java/org/simplejavamail/outlookmessageparser/rtf/util/ByteUtil.java:42-43 | upper- and lower-case hex digits give the same bytes (Character.digit ignores case) |
| ByteUtil.SameDigitsSameBytes | src/main/java/org/simplejavamail/outlookmessageparser/rtf/util/ByteUtil.java:38-46 | two texts whose characters have equal digit values decode to the same bytes |
| ByteUtil.HexRoundTrip | src/main/java/org/simplejavamail/outlookmessageparser/rtf/util/ByteUtil.java:38-46 | reading back the hex text that bytesToHex writes gives the original bytes |
| ByteUtil.HexToStringOfHex | src/main/java/org/simplejavamail/outlookmessageparser/rtf/util/ByteUtil.java:27-30 | hexToString of a bytesToHex rendering decodes exactly the rendered bytes in the given charset |
| CharsetHelper.Probe | src/main/java/org/simplejavamail/outlookmessageparser/rtf/util/CharsetHelper.java:27-34 | a charset found is the one some prefix-plus-code-page name resolves to; failure is UnsupportedCharsetException or an escaping IllegalCharsetNameException |
| CharsetHelper.FindCharset | src/main/java/org/simplejavamail/outlookmessageparser/rtf/util/CharsetHelper.java:22-35 | the same for the six prefixes "", cp, iso-, ibm, x-windows-, ms |
| CharsetHelper.FirstResolvingWins | src/main/java/org/simplejavamail/outlookmessageparser/rtf/util/CharsetHelper.java:27-33 | the first candidate that resolves decides, after legal unresolved ones; registries that agree up to it give the same charset |
| CharsetHelper.ProbeSkips | src/main/java/org/simplejavamail/outlookmessageparser/rtf/util/CharsetHelper.java:30-32 | a legal name that no provider knows hands over to the next prefix |
| CharsetHelper.CandidatesLegal | src/main/java/org/simplejavamail/outlookmessageparser/rtf/util/CharsetHelper.java:29 | with no code page or a non-negative one, every candidate name is a legal charset name |
| CharsetHelper.NoneResolvesUnsupported | src/main/java/org/simplejavamail/outlookmessageparser/rtf/util/CharsetHelper.java:34 | when no candidate resolves and the code page is absent or non-negative, the result is UnsupportedCharsetException |
| CharsetHelper.NegativeCodePageIllegal | src/main/java/org/simplejavamail/outlookmessageparser/rtf/util/CharsetHelper.java:29 | a negative code page first yields a name starting with "-", which escapes as IllegalCharsetNameException unless a provider knows it |
| OutlookRecipient.NewRecipient | src/main/java/org/simplejavamail/outlookmessageparser/model/OutlookRecipient.java:38-41 | a new recipient has no name, no address and an empty property map |
| OutlookRecipient.SetAddress | src/main/java/org/simplejavamail/outlookmessageparser/model/OutlookRecipient.java:123-127 | the first non-null address with an @ wins; later ones are ignored, and the name and map are untouched |
| OutlookRecipient.SetName | src/main/java/org/simplejavamail/outlookmessageparser/model/OutlookRecipient.java:139-143 | the last non-null name wins; the address and map are untouched |
| OutlookRecipient.SetProperty | src/main/java/org/simplejavamail/outlookmessageparser/model/OutlookRecipient.java:49-73 | a null class or value changes nothing; it throws exactly when an address or name tag carries a non-text value; otherwise the value is recorded under the parsed tag, and a held address is kept |
| OutlookRecipient.AddressIsFirstOffered | src/main/java/org/simplejavamail/outlookmessageparser/model/OutlookRecipient.java:65-66 | a recipient read from scratch ends with the first @-address its 3003/39fe properties offer |
| OutlookRecipient.KeepsAddress | src/main/java/org/simplejavamail/outlookmessageparser/model/OutlookRecipient.java:123-127 | once an address is held, no further property changes it |
| OutlookRecipient.HashCode | src/main/java/org/simplejavamail/outlookmessageparser/model/OutlookRecipient.java:89-91 | Objects.hash(address, name) as a 32-bit int, each string hashed over its UTF-16 code units |
| JavaLang.StringHashStep | src/main/java/org/simplejavamail/outlookmessageparser/model/OutlookRecipient.java:89-91 | appending a character of the Basic Multilingual Plane to a string takes one step of String.hashCode's polynomial, wrapped to 32 bits |
| OutlookRecipient.EqualsHashCode | src/main/java/org/simplejavamail/outlookmessageparser/model/OutlookRecipient.java:76-91 | recipients equal by address and name hash alike |
| OutlookRecipient.ToString | src/main/java/org/simplejavamail/outlookmessageparser/model/OutlookRecipient.java:94-104 | the name (or "null") plus a space when non-empty, then the address in angle brackets when there is a non-empty one |
| OutlookFileAttachment.NewFileAttachment | src/main/java/org/simplejavamail/outlookmessageparser/model/OutlookFileAttachment.java:29-49 | a new attachment has size -1 and no data, names or MIME tag |
| OutlookFileAttachment.SetProperty | src/main/java/org/simplejavamail/outlookmessageparser/model/OutlookFileAttachment.java:54-80 | only the five lower-case classes act; 3701 records bytes and declared size, a wrong value kind throws ClassCastException; the size changes only through 3701 |
| OutlookFileAttachment.CheckSmimeFilename | src/main/java/org/simplejavamail/outlookmessageparser/model/OutlookFileAttachment.java:82-90 | the file name changes exactly when it is missing and the MIME tag is multipart/signed with no protocol or the PKCS#7 one, and then becomes smime.p7s; nothing else changes |
| OutlookFileAttachment.CheckSmimeFilenameIdempotent | src/main/java/org/simplejavamail/outlookmessageparser/model/OutlookFileAttachment.java:82-90 | naming the signature twice is the same as once |
| OutlookFileAttachment.SmimeScenarioNoProtocol | src/main/java/org/simplejavamail/outlookmessageparser/model/OutlookFileAttachment.java:84-86 | a multipart/signed tag with no protocol is named smime.p7s |
| OutlookFileAttachment.SmimeScenarioPkcs7 | src/main/java/org/simplejavamail/outlookmessageparser/model/OutlookFileAttachment.java:85-86 | the PKCS#7 signature protocol is named smime.p7s |
| OutlookFileAttachment.SmimeScenarioOtherProtocol | src/main/java/org/simplejavamail/outlookmessageparser/model/OutlookFileAttachment.java:85 | another protocol is not a signature |
| OutlookFileAttachment.SmimeScenarioNamed | src/main/java/org/simplejavamail/outlookmessageparser/model/OutlookFileAttachment.java:83 | an existing file name is kept |
| OutlookFileAttachment.SmimeScenarioPng | src/main/java/org/simplejavamail/outlookmessageparser/model/OutlookFileAttachment.java:84 | an image tag is not a signature |
| OutlookFileAttachment.CheckMimeTag | src/main/java/org/simplejavamail/outlookmessageparser/model/OutlookFileAttachment.java:92-101 | a missing or empty MIME tag becomes the type of the file name, else of the long file name, when non-empty; a present tag is kept and nothing else changes |
| OutlookFileAttachment.CheckMimeTagIdempotent | src/main/java/org/simplejavamail/outlookmessageparser/model/OutlookFileAttachment.java:92-101 | looking the MIME tag up twice gives what once gave |
| OutlookFileAttachment.ToString | src/main/java/org/simplejavamail/outlookmessageparser/model/OutlookFileAttachment.java:103-105 | the long file name when there is one, else the short one |
| FileOutlookAttachment.NewFileAttachment | src/main/java/org/simplejavamail/outlookmessageparser/attachment/FileOutlookAttachment.java:14-34 | a new attachment has size -1 and every other field null |
| FileOutlookAttachment.SetProperty | src/main/java/org/simplejavamail/outlookmessageparser/attachment/FileOutlookAttachment.java:39-64 | only the five classes act; a name class throws exactly on a non-text value; the size changes only through 3701 |
| FileOutlookAttachment.ToString | src/main/java/org/simplejavamail/outlookmessageparser/attachment/FileOutlookAttachment.java:66-68 | the long file name when there is one, else the short one |
| FileOutlookAttachment.SetPropertyAgreesWithCurrent | src/main/java/org/simplejavamail/outlookmessageparser/attachment/FileOutlookAttachment.java:39-68 | this class and OutlookFileAttachment take every property alike: they throw on the same properties, otherwise end with the same fields, and print the same |
| FileOutlookAttachment.NewAgreesWithCurrent | src/main/java/org/simplejavamail/outlookmessageparser/attachment/FileOutlookAttachment.java:14-34 | a new attachment of this class is a new OutlookFileAttachment |
| OutlookSmime.EqualsSymmetric | src/main/java/org/simplejavamail/outlookmessageparser/model/OutlookSmime.java:35-43 | equality is reflexive on one object and symmetric |
| OutlookSmime.EqualsByValue | src/main/java/org/simplejavamail/outlookmessageparser/model/OutlookSmime.java:35-107 | two distinct objects are equal exactly when they hold the same values and are not of the octet-stream kind, which keeps identity equality |
| OutlookSmime.HashCode | src/main/java/org/simplejavamail/outlookmessageparser/model/OutlookSmime.java:45-47 | a 32-bit hash; the octet-stream kind keeps its identity hash |
| OutlookSmime.EqualsHashCode | src/main/java/org/simplejavamail/outlookmessageparser/model/OutlookSmime.java:35-88 | equal descriptors hash alike |
| OutlookSmime.ToString | src/main/java/org/simplejavamail/outlookmessageparser/model/OutlookSmime.java:50-57 | the two overriding kinds print their class name and quoted fields; the octet-stream kind has no override |
| MapiProperty.UnknownField | src/main/java/org/simplejavamail/outlookmessageparser/model/OutlookFieldInformation.java:54-56 | the default field information has the unknown class and the unknown MAPI type |
| MapiProperty.MakeField | src/main/java/org/simplejavamail/outlookmessageparser/model/OutlookFieldInformation.java:62-66 | the two-argument constructor keeps class and MAPI type and leaves the type string unknown |
| MapiProperty.AnalyzeName | src/main/java/org/simplejavamail/outlookmessageparser/OutlookMessageParser.java:588-618 | a name without the property-stream prefix, or too short, yields the unknown field; any other result carries the lower-cased four-character class and the type parsed from the next four characters |
| MapiProperty.LegacyAnalyzeName | src/main/java/org/simplejavamail/outlookmessageparser/MsgParser.java:595-625 | the legacy analysis parses everything after the class as the type |
| MapiProperty.AnalyzersAgreeOnEightDigits | src/main/java/org/simplejavamail/outlookmessageparser/MsgParser.java:611 | the two analyses agree on every name with exactly eight characters after the prefix |
| MapiProperty.ByteHex | src/main/java/org/simplejavamail/outlookmessageparser/OutlookMessageParser.java:573 | two upper-case hex digits whose value is the byte |
| MapiProperty.BytesToHexAt | src/main/java/org/simplejavamail/outlookmessageparser/OutlookMessageParser.java:570-576 | the digits of byte i sit at positions 2i and 2i+1 of bytesToHex |
| MapiProperty.TwoBytesHexValue | src/main/java/org/simplejavamail/outlookmessageparser/OutlookMessageParser.java:570-576 | the hex of two bytes has the value of the big-endian 16-bit number they form |
| MapiProperty.AnalyzeStreamName | src/main/java/org/simplejavamail/outlookmessageparser/OutlookMessageParser.java:598-611 | a stream name built from a class and a 16-bit type in upper-case hex analyses back to that class, lower-cased, and that type |
| MapiProperty.TypeDigitsParse | src/main/java/org/simplejavamail/outlookmessageparser/OutlookMessageParser.java:604-606 | the four hex digits of a 16-bit type parse back to it once lower-cased |
| MapiProperty.AnalyzeEightDigits | src/main/java/org/simplejavamail/outlookmessageparser/OutlookMessageParser.java:598-611 | a prefixed name with eight characters after the prefix analyses to its class and parsed type |
| MapiProperty.Latin1 | src/main/java/org/simplejavamail/outlookmessageparser/OutlookMessageParser.java:462 | ISO-8859-1 decoding maps each byte to the character with that code |
| MapiProperty.SignedByte | src/main/java/org/simplejavamail/outlookmessageparser/OutlookMessageParser.java:483 | the Java byte value: in -128..127 and congruent to the unsigned byte modulo 256 |
| MapiProperty.UnitValue | src/main/java/org/simplejavamail/outlookmessageparser/OutlookMessageParser.java:483-485 | shifting the signed high byte and adding the unsigned low byte gives, modulo 2^16, the unsigned 16-bit unit |
| MapiProperty.Utf16Le | src/main/java/org/simplejavamail/outlookmessageparser/OutlookMessageParser.java:476-487 | one character per byte pair, low byte first; a trailing odd byte is ignored |
| MapiProperty.Utf16Unit | src/main/java/org/simplejavamail/outlookmessageparser/OutlookMessageParser.java:485 | a non-surrogate unit decodes to itself; a lone surrogate becomes U+FFFD |
| MapiProperty.EncodeUtf16Le | src/main/java/org/simplejavamail/outlookmessageparser/OutlookMessageParser.java:476-487 | two bytes per character; the partner encoder of the PT_UNICODE decoding |
| MapiProperty.DecodeEncodeUtf16Le | src/main/java/org/simplejavamail/outlookmessageparser/OutlookMessageParser.java:476-487 | decoding the little-endian encoding of a string without surrogates gives it back |
| MapiProperty.UnitRoundTrip | src/main/java/org/simplejavamail/outlookmessageparser/OutlookMessageParser.java:483-485 | the two bytes of a 16-bit character decode back to it |
| MapiProperty.LittleEndianLong | src/main/java/org/simplejavamail/outlookmessageparser/OutlookMessageParser.java:507-511 | eight bytes read as a signed 64-bit little-endian value |
| MapiProperty.TruncatingDiv | src/main/java/org/simplejavamail/outlookmessageparser/OutlookMessageParser.java:513 | Java long division truncates toward zero |
| MapiProperty.FileTimeMillis | src/main/java/org/simplejavamail/outlookmessageparser/OutlookMessageParser.java:498-517 | more than eight bytes overflow the buffer (and only then); no bytes give the 1601 epoch in Unix milliseconds |
| MapiProperty.DecodeEncodeUnsigned | src/main/java/org/simplejavamail/outlookmessageparser/OutlookMessageParser.java:507-511 | reading back n little-endian bytes of a number below 256^n gives that number |
| MapiProperty.LongRoundTrip | src/main/java/org/simplejavamail/outlookmessageparser/OutlookMessageParser.java:507-511 | ByteBuffer.getLong reads back the two's-complement bytes of any long |
| MapiProperty.FileTimeRoundTrip | src/main/java/org/simplejavamail/outlookmessageparser/OutlookMessageParser.java:505-517 | a FILETIME written as eight bytes decodes to its ticks divided toward zero by 10000, minus 11644473600000 |
| MapiProperty.FileTimeUnixEpoch | src/main/java/org/simplejavamail/outlookmessageparser/OutlookMessageParser.java:513-515 | the FILETIME of 1970-01-01 decodes to 0 |
| MapiProperty.GetData | src/main/java/org/simplejavamail/outlookmessageparser/OutlookMessageParser.java:437-524 | PT_UNICODE decodes as UTF-16LE, PT_BINARY keeps the bytes, only an over-long PT_SYSTIME throws, other types give null, and text comes only from the two string types |
| MapiProperty.LegacyGetData | src/main/java/org/simplejavamail/outlookmessageparser/MsgParser.java:454-531 | the legacy parser always reads PT_STRING8 as ISO-8859-1 and otherwise throws under the same condition |
| MapiProperty.GetDataAgreesWithLegacy | src/main/java/org/simplejavamail/outlookmessageparser/OutlookMessageParser.java:458-472 | the two parsers differ only on PT_STRING8 text that declares an existing charset |
| MapiProperty.MapiClass | src/main/java/org/simplejavamail/outlookmessageparser/model/OutlookMessage.java:171-177 | the class parsed as a hexadecimal int, or -1 where it does not parse |
| MapiProperty.AsText | src/main/java/org/simplejavamail/outlookmessageparser/model/OutlookRecipient.java:66 | the (String) cast succeeds exactly on text and otherwise throws ClassCastException |
| MapiProperty.AsBinary | src/main/java/org/simplejavamail/outlookmessageparser/model/OutlookFileAttachment.java:62 | the (byte[]) cast succeeds exactly on bytes and otherwise throws ClassCastException |
| MapiProperty.ReadProperty | src/main/java/org/simplejavamail/outlookmessageparser/OutlookMessageParser.java:410-422 | the property carries the analysed class and the entry's size; a name outside the property streams gives class "unknown" and null data, an unknown type gives null data, and the read throws exactly for a PT_SYSTIME value longer than eight bytes |
| MapiProperty.LegacyReadProperty | src/main/java/org/simplejavamail/outlookmessageparser/MsgParser.java:427-439 | the same for the legacy parser's analysis |
| PropertiesStream.ReadInto | src/main/java/org/simplejavamail/outlookmessageparser/OutlookMessageParser.java:323 | a stream read copies what fits to the front of the buffer, keeps the rest of the buffer, and returns the unread bytes |
| PropertiesStream.RecordHeader | src/main/java/org/simplejavamail/outlookmessageparser/OutlookMessageParser.java:324-327 | the four header bytes in reverse order as eight hex digits |
| PropertiesStream.RecordName | src/main/java/org/simplejavamail/outlookmessageparser/OutlookMessageParser.java:385 | the synthetic entry name is the property-stream prefix plus eight header digits |
| PropertiesStream.NextRecord | src/main/java/org/simplejavamail/outlookmessageparser/OutlookMessageParser.java:330-390 | one record consumes at least its header and yields, if anything, an entry named after the header holding four or eight bytes |
| PropertiesStream.Split | src/main/java/org/simplejavamail/outlookmessageparser/OutlookMessageParser.java:313-401 | every synthetic entry has a prefixed twelve-plus-eight-character name and four or eight bytes, and there are at most a quarter as many entries as bytes |
| PropertiesStream.ZeroClassIff | src/main/java/org/simplejavamail/outlookmessageparser/OutlookMessageParser.java:331-340 | the class is 0000 exactly when the two high header bytes are zero |
| PropertiesStream.TypeNumberValue | src/main/java/org/simplejavamail/outlookmessageparser/OutlookMessageParser.java:330-338 | the type number is the second header byte times 256 plus the first |
| PropertiesStream.RecordNameAnalysis | src/main/java/org/simplejavamail/outlookmessageparser/OutlookMessageParser.java:385 | every synthetic entry name analyses to the record's class and type |
| PropertiesStream.HeaderFacts | src/main/java/org/simplejavamail/outlookmessageparser/OutlookMessageParser.java:330-340 | a header built from class and type reads back that type, and has class 0000 exactly for class 0 |
| PropertiesStream.NextZeroClass | src/main/java/org/simplejavamail/outlookmessageparser/OutlookMessageParser.java:340 | a record of class 0000 is only its header |
| PropertiesStream.NextVariableLength | src/main/java/org/simplejavamail/outlookmessageparser/OutlookMessageParser.java:348-358 | a variable-length record skips flags and size and yields nothing |
| PropertiesStream.NextFourByte | src/main/java/org/simplejavamail/outlookmessageparser/OutlookMessageParser.java:359-369 | a four-byte record yields the padding word, because both reads go into one buffer |
| PropertiesStream.EightByteRecord | src/main/java/org/simplejavamail/outlookmessageparser/OutlookMessageParser.java:370-379 | an eight-byte record reads its value into a fresh eight-byte buffer after the flags |
| PropertiesStream.NextEightByte | src/main/java/org/simplejavamail/outlookmessageparser/OutlookMessageParser.java:370-379 | a complete eight-byte record yields its eight value bytes |
| PropertiesStream.NextOtherType | src/main/java/org/simplejavamail/outlookmessageparser/OutlookMessageParser.java:342-345 | a record of any other type yields its four flag bytes, the buffer still holding them |
| PropertiesStream.NextTruncatedEightByte | src/main/java/org/simplejavamail/outlookmessageparser/OutlookMessageParser.java:376-378 | an eight-byte record cut short yields the bytes read padded with zeros, and the stream ends |
| PropertiesStream.ShortReadPads | src/main/java/org/simplejavamail/outlookmessageparser/OutlookMessageParser.java:376-378 | a short read into a fresh eight-byte buffer leaves zeros after the bytes read |
| PropertiesStream.SplitZeroClass | src/main/java/org/simplejavamail/outlookmessageparser/OutlookMessageParser.java:340 | a class-0000 record adds no entry to the split |
| PropertiesStream.SplitVariableLength | src/main/java/org/simplejavamail/outlookmessageparser/OutlookMessageParser.java:348-358 | a variable-length record adds no entry |
| PropertiesStream.SplitFourByte | src/main/java/org/simplejavamail/outlookmessageparser/OutlookMessageParser.java:359-386 | a four-byte record adds one entry holding the padding word |
| PropertiesStream.SplitEightByte | src/main/java/org/simplejavamail/outlookmessageparser/OutlookMessageParser.java:370-386 | an eight-byte record adds one entry holding its value |
| PropertiesStream.SplitOtherType | src/main/java/org/simplejavamail/outlookmessageparser/OutlookMessageParser.java:342-386 | a record of another type adds one entry holding its flags |
| PropertiesStream.SplitTruncatedEightByte | src/main/java/org/simplejavamail/outlookmessageparser/OutlookMessageParser.java:376-386 | a truncated eight-byte record ends the split with one zero-padded entry |
| PropertiesStream.SysTimeRecordDecodes | src/main/java/org/simplejavamail/outlookmessageparser/OutlookMessageParser.java:370-386 | a SYSTIME record reaches the property path as its tag and its decoded FILETIME |
| MsgContainer.Leaves | src/main/java/org/simplejavamail/outlookmessageparser/OutlookMessageParser.java:197-228 | an entry is among the result exactly when it is a document stream of the directory; a directory of streams only is kept whole |
| MsgContainer.LeavesKeepOrder | src/main/java/org/simplejavamail/outlookmessageparser/OutlookMessageParser.java:197-228 | the document streams of two joined entry lists are those of the first followed by those of the second, so the streams keep the directory's order |
| MsgContainer.PrefixesExclusive | src/main/java/org/simplejavamail/outlookmessageparser/OutlookMessageParser.java:206-220 | the name-id, recipient and attachment directory prefixes exclude one another |
| OutlookMessageParser.SetRecords | src/main/java/org/simplejavamail/outlookmessageparser/OutlookMessageParser.java:271-275 | the records of a properties stream, each read and set in order, touch neither attachments nor recipients |
| OutlookMessageParser.CheckDocument | src/main/java/org/simplejavamail/outlookmessageparser/OutlookMessageParser.java:267-279 | a document stream of the message changes only its properties and fields, never its attachments or recipients |
| OutlookMessageParser.CheckRecipientDirectory | src/main/java/org/simplejavamail/outlookmessageparser/OutlookMessageParser.java:238-256 | exactly one recipient is appended, the one built from a new recipient by the directory's entries, and nothing else changes |
| OutlookMessageParser.AttachmentEntries | src/main/java/org/simplejavamail/outlookmessageparser/OutlookMessageParser.java:638-656 | the entries of an attachment directory change only the attachments, keep the earlier ones, and add only nested messages |
| OutlookMessageParser.NestedFirst | src/main/java/org/simplejavamail/outlookmessageparser/OutlookMessageParser.java:652-654 | a nested message added before later nested messages still leaves a message whose new attachments are all nested messages |
| OutlookMessageParser.ParseAttachment | src/main/java/org/simplejavamail/outlookmessageparser/OutlookMessageParser.java:632-664 | only attachments change; earlier ones are kept, nested messages come first, and a file attachment, added last, has a positive size and bytes |
| OutlookMessageParser.CheckEntries | src/main/java/org/simplejavamail/outlookmessageparser/OutlookMessageParser.java:197-228 | a directory walk only appends to the attachments and the recipients |
| OutlookMessageParser.CheckEntry | src/main/java/org/simplejavamail/outlookmessageparser/OutlookMessageParser.java:200-226 | one entry only appends to the attachments and the recipients |
| OutlookMessageParser.PurgeEmptyAttachments | src/main/java/org/simplejavamail/outlookmessageparser/OutlookMessageParser.java:141-160 | the purge keeps no more than it had, and everything kept is a file or a non-empty nested message |
| OutlookMessageParser.ExtractReplyTo | src/main/java/org/simplejavamail/outlookmessageparser/OutlookMessageParser.java:162-178 | only the Reply-To name and address change, and only when the header matches; the name is the first group |
| OutlookMessageParser.ExtractSmimeHeader | src/main/java/org/simplejavamail/outlookmessageparser/OutlookMessageParser.java:180-188 | only a message without an S/MIME descriptor takes one from the headers, and it is of the application/pkcs7-mime kind |
| OutlookMessageParser.ConvertHeaders | src/main/java/org/simplejavamail/outlookmessageparser/OutlookMessageParser.java:130-136 | only the Reply-To fields and the S/MIME descriptor change, and nothing without a header block |
| OutlookMessageParser.ParseMsg | src/main/java/org/simplejavamail/outlookmessageparser/OutlookMessageParser.java:117-128 | every attachment of a parsed message is a file or a non-empty nested message |
| WalkProperties.DirectoryDispatch | src/main/java/org/simplejavamail/outlookmessageparser/OutlookMessageParser.java:205-219 | attachment and recipient directories go to their handlers, the named-property directory is skipped, any other directory is walked into the same message |
| WalkProperties.RecipientIgnoresDirectories | src/main/java/org/simplejavamail/outlookmessageparser/OutlookMessageParser.java:243-252 | sub-directories of a recipient directory contribute nothing to the recipient |
| WalkProperties.WalkRecipientCount | src/main/java/org/simplejavamail/outlookmessageparser/OutlookMessageParser.java:197-256 | a walk appends exactly one recipient per recipient directory it reaches |
| WalkProperties.EntryRecipientCount | src/main/java/org/simplejavamail/outlookmessageparser/OutlookMessageParser.java:205-223 | one entry appends exactly as many recipients as recipient directories it holds outside attachments |
| WalkProperties.SetPropertyKeepsValid | src/main/java/org/simplejavamail/outlookmessageparser/model/OutlookMessage.java:498-510 | setting any property keeps the sender address absent or containing an @ |
| WalkProperties.SetRecordsKeepsValid | src/main/java/org/simplejavamail/outlookmessageparser/OutlookMessageParser.java:271-275 | so do the records of a properties stream |
| WalkProperties.WalkKeepsValid | src/main/java/org/simplejavamail/outlookmessageparser/OutlookMessageParser.java:197-228 | so does a whole directory walk |
| WalkProperties.EntryKeepsValid | src/main/java/org/simplejavamail/outlookmessageparser/OutlookMessageParser.java:200-226 | so does one entry |
| WalkProperties.ParsedSenderIsAddress | src/main/java/org/simplejavamail/outlookmessageparser/OutlookMessageParser.java:117-128 | the sender address of a parsed message, if any, contains an @ |
| WalkProperties.LeavesOnlyFeedTheFile | src/main/java/org/simplejavamail/outlookmessageparser/OutlookMessageParser.java:640-648 | document streams alone never add to the message's attachments |
| WalkProperties.FileAttachmentOnlyWithData | src/main/java/org/simplejavamail/outlookmessageparser/OutlookMessageParser.java:658-663 | an attachment directory without sub-directories adds its fixed-up file attachment exactly when it has a positive size and bytes |
| WalkProperties.NestedMessageComesFirst | src/main/java/org/simplejavamail/outlookmessageparser/OutlookMessageParser.java:649-655 | a nested message is added ahead of the directory's file attachment, holding what its directory parses to |
| WalkProperties.PurgeMembers | src/main/java/org/simplejavamail/outlookmessageparser/OutlookMessageParser.java:141-152 | an attachment survives the purge exactly when it was there and is kept |
| WalkProperties.PurgeAppend | src/main/java/org/simplejavamail/outlookmessageparser/OutlookMessageParser.java:142-151 | the purge works element by element, so it keeps the order of what it keeps |
| WalkProperties.PurgeKeepsKept | src/main/java/org/simplejavamail/outlookmessageparser/OutlookMessageParser.java:145-150 | a list with nothing to purge is left as it is |
| WalkProperties.PurgeIdempotent | src/main/java/org/simplejavamail/outlookmessageparser/OutlookMessageParser.java:141-152 | purging twice is purging once |
| MsgParser.SetRecords | src/main/java/org/simplejavamail/outlookmessageparser/MsgParser.java:290-294 | the records of a properties stream never touch the attachments and only reorder the recipients |
| MsgParser.CheckDocument | src/main/java/org/simplejavamail/outlookmessageparser/MsgParser.java:286-298 | a document stream of the message leaves the attachments alone and only reorders the recipients |
| MsgParser.CheckRecipientDirectory | src/main/java/org/simplejavamail/outlookmessageparser/MsgParser.java:248-275 | the recipient built from a new entry by the directory's document streams is added through addRecipient, adding exactly that one recipient and no attachment |
| MsgParser.AttachmentEntries | src/main/java/org/simplejavamail/outlookmessageparser/MsgParser.java:645-672 | the entries of an attachment directory change only the attachments, keep the earlier ones, and add only nested messages |
| MsgParser.NestedFirst | src/main/java/org/simplejavamail/outlookmessageparser/MsgParser.java:666-670 | a nested message added before later nested messages still leaves a message whose new attachments are all nested messages |
| MsgParser.ParseAttachment | src/main/java/org/simplejavamail/outlookmessageparser/MsgParser.java:639-680 | only attachments change; earlier ones are kept, nested messages come first, and a file attachment, added last, has had its size set |
| MsgParser.CheckEntries | src/main/java/org/simplejavamail/outlookmessageparser/MsgParser.java:204-238 | a directory walk only appends attachments and never loses a recipient |
| MsgParser.CheckEntry | src/main/java/org/simplejavamail/outlookmessageparser/MsgParser.java:208-236 | one entry only appends attachments and never loses a recipient |
| MsgParser.ExtractReplyTo | src/main/java/org/simplejavamail/outlookmessageparser/MsgParser.java:176-192 | only the Reply-To name and address change, and only when the header matches; the name is the first group |
| MsgParser.ConvertHeaders | src/main/java/org/simplejavamail/outlookmessageparser/MsgParser.java:169-174 | only the Reply-To fields change, and nothing without a header block |
| MsgParser.ParseMsg | src/main/java/org/simplejavamail/outlookmessageparser/MsgParser.java:144-167 | the parsed message keeps every attachment the walk produced: nothing is purged |
| MsgParserProperties.DirectoryDispatch | src/main/java/org/simplejavamail/outlookmessageparser/MsgParser.java:214-227 | attachment and recipient directories go to their handlers, and the named-property directory is walked into like any other |
| MsgParserProperties.WalkRecipientCount | src/main/java/org/simplejavamail/outlookmessageparser/MsgParser.java:204-275 | the walk adds exactly one recipient per recipient directory it reaches outside attachments |
| MsgParserProperties.EntryRecipientCount | src/main/java/org/simplejavamail/outlookmessageparser/MsgParser.java:214-233 | one entry adds exactly as many recipients as recipient directories it holds outside attachments |
| MsgParserProperties.SetRecordsKeepsValid | src/main/java/org/simplejavamail/outlookmessageparser/MsgParser.java:290-294 | setting the records of a properties stream keeps the sender and "to" addresses absent or containing an @ |
| MsgParserProperties.RecipientDirectoryKeepsValid | src/main/java/org/simplejavamail/outlookmessageparser/MsgParser.java:273-274 | so does adding a recipient |
| MsgParserProperties.WalkKeepsValid | src/main/java/org/simplejavamail/outlookmessageparser/MsgParser.java:204-238 | so does a whole walk |
| MsgParserProperties.EntryKeepsValid | src/main/java/org/simplejavamail/outlookmessageparser/MsgParser.java:208-236 | so does one entry |
| MsgParserProperties.ParsedAddressesValid | src/main/java/org/simplejavamail/outlookmessageparser/MsgParser.java:144-167 | a message the older parser returns has its sender and "to" addresses absent or containing an @ |
| MsgParserProperties.LeavesOnlyFeedTheFile | src/main/java/org/simplejavamail/outlookmessageparser/MsgParser.java:647-657 | document streams alone never add to the message's attachments |
| MsgParserProperties.FileAttachmentWhenSized | src/main/java/org/simplejavamail/outlookmessageparser/MsgParser.java:674-678 | an attachment directory without sub-directories adds its file attachment exactly when the size was set, whatever the data |
| MsgParserProperties.NestedMessageComesFirst | src/main/java/org/simplejavamail/outlookmessageparser/MsgParser.java:659-671 | a nested message, parsed with the default converter, is added ahead of the file attachment |
| LegacyMessage.NewMessage | src/main/java/com/auxilii/msgparser/Message.java:56-144 | a new older message has class IPM.Note, no addresses or bodies, and empty lists and map |
| LegacyMessage.AddAttachment | src/main/java/com/auxilii/msgparser/Message.java:160-162 | the attachment is appended and nothing else changes |
| LegacyMessage.SetFromEmailForced | src/main/java/com/auxilii/msgparser/Message.java:486-490 | a value with an @ is taken when forced or when no sender address is set; nothing else is |
| LegacyMessage.SetFromEmail | src/main/java/com/auxilii/msgparser/Message.java:474-480 | a value with an @ always replaces the sender address and any other value is dropped |
| LegacyMessage.SetToEmail | src/main/java/com/auxilii/msgparser/Message.java:612-616 | a non-null value with an @ is taken when forced or when no "to" address is set; nothing else is |
| LegacyMessage.SetToEmailPresent | src/main/java/com/auxilii/msgparser/Message.java:604-616 | the "to" address changes exactly when the setter may overwrite and the new value has an @ and differs |
| LegacyMessage.SetToName | src/main/java/com/auxilii/msgparser/Message.java:630-635 | a non-null name is stored trimmed; null changes nothing |
| LegacyMessage.SetBodyText | src/main/java/com/auxilii/msgparser/Message.java:697-701 | the first text body wins |
| LegacyMessage.SetBodyHTML | src/main/java/com/auxilii/msgparser/Message.java:766-774 | a forced HTML body replaces the current one unless the current one is longer in UTF-16 code units, so the body never shrinks |
| LegacyMessage.SetBodyRTF | src/main/java/com/auxilii/msgparser/Message.java:714-733 | only the first byte array that decompresses is kept, decoded as windows-1252; the message's own converter output becomes the converted body; text values are ignored |
| LegacyMessage.SetHeaders | src/main/java/com/auxilii/msgparser/Message.java:786-799 | keeps the header block, takes its first parsable date, and offers its From: address to setFromEmail |
| LegacyMessage.ValueToString | src/main/java/com/auxilii/msgparser/Message.java:287-304 | text as is, bytes decoded as windows-1252, a date through Date.toString() |
| LegacyMessage.DispatchText | src/main/java/com/auxilii/msgparser/Message.java:203-240 | the text cases set only their own field as given; the display-to string changes only under its own tag |
| LegacyMessage.DispatchAddresses | src/main/java/com/auxilii/msgparser/Message.java:213-231 | the address cases change only the sender address and the "to" address and name |
| LegacyMessage.DispatchBody | src/main/java/com/auxilii/msgparser/Message.java:241-249 | the body cases change only the three bodies and the converted body |
| LegacyMessage.DispatchHeadersAndDates | src/main/java/com/auxilii/msgparser/Message.java:250-261 | the header and date cases change only the sender address, headers and dates |
| LegacyMessage.Dispatch | src/main/java/com/auxilii/msgparser/Message.java:202-262 | an unhandled tag changes nothing, no case touches attachments, recipients or the map, and only the display-to tag changes the display-to string |
| LegacyMessage.SetProperty | src/main/java/com/auxilii/msgparser/Message.java:184-269 | a null class or value changes nothing; the value is recorded under the parsed tag; only the "to" check can throw, with a NullPointerException; recipients are only reordered |
| LegacyMessage.SetProperties | src/main/java/com/auxilii/msgparser/Message.java:184-269 | any sequence of properties leaves the attachments alone and only reorders the recipients |
| LegacyMessage.FindListed | src/main/java/com/auxilii/msgparser/Message.java:645-650 | the position found is the first recipient, from the start, whose trimmed name the key contains, every earlier one being named and not listed; a nameless recipient reached first throws; no position means all were passed over |
| LegacyMessage.GetToRecipient | src/main/java/com/auxilii/msgparser/Message.java:642-653 | a null display-to string finds nobody; a recipient found is one whose name the trimmed display-to string lists |
| LegacyMessage.RemoveFirst | src/main/java/com/auxilii/msgparser/Message.java:314 | List.remove drops at most one element equal to the recipient and leaves a list without one untouched |
| LegacyMessage.RemoveFirstAt | src/main/java/com/auxilii/msgparser/Message.java:314 | removing by equality removes the first equal element and nothing else |
| LegacyMessage.CheckToRecipient | src/main/java/com/auxilii/msgparser/Message.java:309-317 | it throws exactly when the lookup throws; only the "to" fields and the recipient order change, and nothing when no recipient is named |
| LegacyMessage.MovesToFront | src/main/java/com/auxilii/msgparser/Message.java:310-316 | the named recipient moves to the front, the rest keep their order, and its trimmed name becomes the "to" name |
| LegacyMessage.MoveToFrontPermutes | src/main/java/com/auxilii/msgparser/Message.java:314-315 | taking one element out and putting it in front keeps the same elements, each as often as before |
| LegacyMessage.CheckToRecipientPermutes | src/main/java/com/auxilii/msgparser/Message.java:309-317 | the "to" check only permutes the recipients |
| LegacyMessage.CheckToRecipientIdempotent | src/main/java/com/auxilii/msgparser/Message.java:309-317 | checking twice is checking once |
| LegacyMessage.AddRecipient | src/main/java/com/auxilii/msgparser/Message.java:164-172 | the recipient is appended, and offers its address (with an @) and trimmed name to "to" fields that are still unset |
| LegacyMessage.CcRecipientsAsWritten | src/main/java/com/auxilii/msgparser/Message.java:659-669 | as written, a null display-cc string throws and anything else succeeds |
| LegacyMessage.BccRecipientsAsWritten | src/main/java/com/auxilii/msgparser/Message.java:676-686 | the same for the Bcc getter |
| LegacyMessage.RoleGettersAsWrittenAreEmpty | src/main/java/com/auxilii/msgparser/Message.java:659-686 | as written, both getters loop over their own fresh, empty list and never return a recipient |
| LegacyMessage.CcAsWrittenMissesListedRecipient | src/main/java/com/auxilii/msgparser/Message.java:659-669 | a message whose only recipient the display-cc string lists gets that recipient from the corrected getter and nobody from the getter as written |
| LegacyMessage.CcRecipients | src/main/java/com/auxilii/msgparser/Message.java:659-669 | the corrected getter succeeds exactly when there is a display-cc string and every recipient has a name |
| LegacyMessage.BccRecipients | src/main/java/com/auxilii/msgparser/Message.java:676-686 | the same for Bcc |
| LegacyMessage.RoleMembers | src/main/java/com/auxilii/msgparser/Message.java:659-686 | the corrected getters return exactly the message's recipients that their display string lists |
| LegacyMessage.PropertiesAsHex | src/main/java/com/auxilii/msgparser/Message.java:937-946 | the hex names are exactly the keys printed with %04x |
| LegacyMessage.PropertyFromHex | src/main/java/com/auxilii/msgparser/Message.java:970-978 | a name finds a value exactly when its parsed tag, or -1, is a key, and then finds that key's value |
| LegacyMessage.HexNameFindsKey | src/main/java/com/auxilii/msgparser/RecipientEntry.java:174-216 | looking a key up by its hex name finds it for every non-negative key and for -1; other negative keys print beyond the int range and fall back to -1 |
| LegacyPolicies.AddressesKeepValid | src/main/java/com/auxilii/msgparser/Message.java:213-231 | the address cases keep the sender and "to" addresses absent or containing an @ |
| LegacyPolicies.HeadersKeepValid | src/main/java/com/auxilii/msgparser/Message.java:786-799 | so does setting the header block |
| LegacyPolicies.DispatchKeepsValid | src/main/java/com/auxilii/msgparser/Message.java:202-262 | so does every case of the switch |
| LegacyPolicies.CheckToRecipientKeepsValid | src/main/java/com/auxilii/msgparser/Message.java:309-317 | so does the "to" check, which forces only addresses with an @ |
| LegacyPolicies.SetPropertyKeepsValid | src/main/java/com/auxilii/msgparser/Message.java:184-269 | so does setting any property |
| LegacyPolicies.SetPropertiesKeepsValid | src/main/java/com/auxilii/msgparser/Message.java:184-269 | so does any sequence of properties |
| LegacyPolicies.BodyCasesGrow | src/main/java/com/auxilii/msgparser/Message.java:241-249 | under the body cases the text and RTF bodies keep their first value and the HTML body never shrinks |
| LegacyPolicies.DispatchBodiesGrow | src/main/java/com/auxilii/msgparser/Message.java:202-262 | the same under every case of the switch |
| LegacyPolicies.SetPropertyBodiesGrow | src/main/java/com/auxilii/msgparser/Message.java:184-269 | the same for one property |
| LegacyPolicies.SetPropertiesBodiesGrow | src/main/java/com/auxilii/msgparser/Message.java:184-269 | the same over any sequence of properties |
| OutlookMessage.NewMessage | src/main/java/org/simplejavamail/outlookmessageparser/model/OutlookMessage.java:141-143 | a new message has class IPM.Note, no sender, bodies or S/MIME descriptor, and empty lists and map |
| OutlookMessage.AddAttachment | src/main/java/org/simplejavamail/outlookmessageparser/model/OutlookMessage.java:149-151 | the attachment is appended and nothing else changes |
| OutlookMessage.AddRecipient | src/main/java/org/simplejavamail/outlookmessageparser/model/OutlookMessage.java:153-155 | the recipient is appended and nothing else changes |
| OutlookMessage.SetFromEmailForced | src/main/java/org/simplejavamail/outlookmessageparser/model/OutlookMessage.java:506-510 | a value with an @ is taken when forced or when no address is set; the sender address stays absent or containing an @ |
| OutlookMessage.SetFromEmail | src/main/java/org/simplejavamail/outlookmessageparser/model/OutlookMessage.java:498-500 | a value with an @ always replaces the sender address and any other value is dropped |
| OutlookMessage.SetBodyText | src/main/java/org/simplejavamail/outlookmessageparser/model/OutlookMessage.java:675-679 | the first text body wins |
| OutlookMessage.SetBodyHTML | src/main/java/org/simplejavamail/outlookmessageparser/model/OutlookMessage.java:737-743 | a value replaces the HTML body exactly when there is none or it is not longer than the value in UTF-16 code units, so the body never shrinks |
| OutlookMessage.SetBodyRTF | src/main/java/org/simplejavamail/outlookmessageparser/model/OutlookMessage.java:692-709 | only the first byte array that decompresses is kept, decoded as windows-1252, and its HTML conversion becomes the converted body; text values are ignored |
| OutlookMessage.SetCreationDate | src/main/java/org/simplejavamail/outlookmessageparser/model/OutlookMessage.java:860-868 | a parsable value sets both the creation date and the date; otherwise nothing changes |
| OutlookMessage.SetLastModificationDate | src/main/java/org/simplejavamail/outlookmessageparser/model/OutlookMessage.java:877-884 | a parsable value sets the date of last modification; otherwise nothing changes |
| OutlookMessage.SetClientSubmitTime | src/main/java/org/simplejavamail/outlookmessageparser/model/OutlookMessage.java:844-851 | a parsable value sets the submit time; otherwise nothing changes |
| OutlookMessage.CleanAddressToken | src/main/java/org/simplejavamail/outlookmessageparser/model/OutlookMessage.java:783-786 | the token without angle brackets, trimmed, still holds the @ |
| OutlookMessage.FirstAddressToken | src/main/java/org/simplejavamail/outlookmessageparser/model/OutlookMessage.java:781-788 | there is no address exactly when no token has an @; otherwise it is the first such token, cleaned |
| OutlookMessage.LineAddresses | src/main/java/org/simplejavamail/outlookmessageparser/model/OutlookMessage.java:778-790 | each header line offers the first address token of a From: line, compared case-insensitively |
| OutlookMessage.FromEmailFromHeaders | src/main/java/org/simplejavamail/outlookmessageparser/model/OutlookMessage.java:776-791 | an address found in the headers contains an @ |
| OutlookMessage.LineDates | src/main/java/org/simplejavamail/outlookmessageparser/model/OutlookMessage.java:801-817 | each header line offers the parsed value of a date: line |
| OutlookMessage.SetHeaders | src/main/java/org/simplejavamail/outlookmessageparser/model/OutlookMessage.java:755-768 | keeps the header block, takes its first parsable date, offers its From: address, and changes nothing else |
| OutlookMessage.ValueToString | src/main/java/org/simplejavamail/outlookmessageparser/model/OutlookMessage.java:255-267 | text as is, bytes decoded as UTF-8, a date through Date.toString() |
| OutlookMessage.SetSmimeFrom | src/main/java/org/simplejavamail/outlookmessageparser/model/OutlookMessage.java:430-471 | the descriptor a header yields replaces the S/MIME field; a header that yields none leaves the message alone; a malformed one throws |
| OutlookMessage.DispatchText | src/main/java/org/simplejavamail/outlookmessageparser/model/OutlookMessage.java:180-206 | the plain text cases change only the class, id, subject, sender name and display strings |
| OutlookMessage.DispatchBody | src/main/java/org/simplejavamail/outlookmessageparser/model/OutlookMessage.java:207-215 | the body cases change only the bodies: a set text or RTF body is kept, the text body takes only a BODY value, and the HTML body never shrinks |
| OutlookMessage.DispatchSenderAndDates | src/main/java/org/simplejavamail/outlookmessageparser/model/OutlookMessage.java:190-194 | the sender, header and date cases change only the sender address, headers and dates |
| OutlookMessage.Dispatch | src/main/java/org/simplejavamail/outlookmessageparser/model/OutlookMessage.java:179-234 | only the S/MIME cases throw and change only the descriptor, an unhandled tag changes nothing, no case touches attachments or recipients, and the body policies hold |
| OutlookMessage.SetProperty | src/main/java/org/simplejavamail/outlookmessageparser/model/OutlookMessage.java:161-237 | a null class or value changes nothing; the value is recorded under the parsed tag; only the S/MIME tags throw; an unhandled tag only updates the map |
| MessagePolicies.SetPropertyLastWins | src/main/java/org/simplejavamail/outlookmessageparser/model/OutlookMessage.java:180-206 | the plain fields take the text of the last property that carries their tag |
| MessagePolicies.SetPropertyKeepsFirstBodies | src/main/java/org/simplejavamail/outlookmessageparser/model/OutlookMessage.java:675-709 | one property never replaces a set text or RTF body |
| MessagePolicies.KeepsFirstBodies | src/main/java/org/simplejavamail/outlookmessageparser/model/OutlookMessage.java:675-709 | once set, the text and RTF bodies survive every later property |
| MessagePolicies.SetPropertyBodyText | src/main/java/org/simplejavamail/outlookmessageparser/model/OutlookMessage.java:210-212 | on a message without a text body, a property sets the text body exactly when it is a BODY property |
| MessagePolicies.BodyTextIsFirstOffered | src/main/java/org/simplejavamail/outlookmessageparser/model/OutlookMessage.java:675-679 | a message read from scratch has the first body text offered, whatever follows |
| MessagePolicies.SetPropertyHtmlGrows | src/main/java/org/simplejavamail/outlookmessageparser/model/OutlookMessage.java:737-743 | one property never shortens a set HTML body, in UTF-16 code units |
| MessagePolicies.HtmlNeverShrinks | src/main/java/org/simplejavamail/outlookmessageparser/model/OutlookMessage.java:737-743 | over any sequence of properties the HTML body never gets shorter in UTF-16 code units |
| MessagePolicies.SetBodyHTMLIdempotent | src/main/java/org/simplejavamail/outlookmessageparser/model/OutlookMessage.java:737-743 | offering the same HTML body twice is offering it once |
| MessagePolicies.OfferedFromEmail | src/main/java/org/simplejavamail/outlookmessageparser/model/OutlookMessage.java:190-194 | a sender address offered by a property contains an @ |
| MessagePolicies.DispatchHeaders | src/main/java/org/simplejavamail/outlookmessageparser/model/OutlookMessage.java:216-218 | the switch hands a header block to setHeaders |
| MessagePolicies.DispatchSenderEmail | src/main/java/org/simplejavamail/outlookmessageparser/model/OutlookMessage.java:190-194 | the switch hands a sender-address property to setFromEmail |
| MessagePolicies.DispatchKeepsFromEmail | src/main/java/org/simplejavamail/outlookmessageparser/model/OutlookMessage.java:179-234 | every other tag leaves the sender address alone |
| MessagePolicies.SetPropertyFromEmail | src/main/java/org/simplejavamail/outlookmessageparser/model/OutlookMessage.java:161-237 | after one property the sender address is the one it offers, or the one held before |
| MessagePolicies.FromEmailIsLastOffered | src/main/java/org/simplejavamail/outlookmessageparser/model/OutlookMessage.java:498-510 | after any sequence of properties the sender address is the last one offered, or the one held before |
| MessagePolicies.FromEmailStaysValid | src/main/java/org/simplejavamail/outlookmessageparser/model/OutlookMessage.java:498-510 | every sender address the message holds contains an @ |
| MessagePolicies.LastFromEmailHasAt | src/main/java/org/simplejavamail/outlookmessageparser/model/OutlookMessage.java:506-510 | the last offered sender address contains an @ |
| MessagePolicies.RawIsLastCarried | src/main/java/org/simplejavamail/outlookmessageparser/model/OutlookMessage.java:237 | after any sequence of properties each tag maps to the last value carried for it, and untouched tags keep their value |
| MessageView.FilterWith | src/main/java/org/simplejavamail/outlookmessageparser/model/OutlookMessage.java:652-662 | the filter loop succeeds exactly when every recipient has a name, and otherwise throws a NullPointerException |
| MessageView.FilterRecipients | src/main/java/org/simplejavamail/outlookmessageparser/model/OutlookMessage.java:629-662 | the role lists succeed exactly when the display string exists and every recipient has a name, and then filter by the trimmed display string |
| MessageView.FilterStep | src/main/java/org/simplejavamail/outlookmessageparser/model/OutlookMessage.java:655-659 | the first recipient, if listed, goes in front of the filtered rest |
| MessageView.FilterMembers | src/main/java/org/simplejavamail/outlookmessageparser/model/OutlookMessage.java:652-662 | a recipient is in the filtered list exactly when it is one of the recipients and is listed |
| MessageView.FilterAppend | src/main/java/org/simplejavamail/outlookmessageparser/model/OutlookMessage.java:655-659 | filtering goes recipient by recipient in order, so a recipient added last is listed last |
| MessageView.AddRecipientLists | src/main/java/org/simplejavamail/outlookmessageparser/model/OutlookMessage.java:153-155 | adding a recipient extends the To list by it exactly when the display-to string lists its name |
| MessageView.BlankNameListedEverywhere | src/main/java/org/simplejavamail/outlookmessageparser/model/OutlookMessage.java:656-657 | a recipient with a blank name is listed under every role, since every text contains the empty text |
| MessageView.CreateMailString | src/main/java/org/simplejavamail/outlookmessageparser/model/OutlookMessage.java:414-428 | null only when both are null; the address always shows; a differing name shows too, with the address in angle brackets at the end |
| MessageView.QuotedEntry | src/main/java/org/simplejavamail/outlookmessageparser/model/OutlookMessage.java:427 | the quoted form shows both name and address and ends with the bracketed address |
| MessageView.JoinContains | src/main/java/org/simplejavamail/outlookmessageparser/model/OutlookMessage.java:400-403 | every entry occurs in the joined line |
| MessageView.TerminatedJoin | src/main/java/org/simplejavamail/outlookmessageparser/model/OutlookMessage.java:400-402 | appending "; " after every entry is joining them and terminating the last |
| MessageView.DeleteLastSeparator | src/main/java/org/simplejavamail/outlookmessageparser/model/OutlookMessage.java:403 | the cut throws StringIndexOutOfBoundsException exactly when there is no "; "; otherwise it keeps the text before the last separator |
| MessageView.DeleteTerminated | src/main/java/org/simplejavamail/outlookmessageparser/model/OutlookMessage.java:400-403 | cutting a terminated list at its last separator leaves the joined list |
| MessageView.CutAfterSeparator | src/main/java/org/simplejavamail/outlookmessageparser/model/OutlookMessage.java:403 | a text ending in the separator is cut just before it |
| MessageView.AppendRecipientsAsWritten | src/main/java/org/simplejavamail/outlookmessageparser/model/OutlookMessage.java:397-405 | as written, an empty role list appends nothing |
| MessageView.AppendRecipients | src/main/java/org/simplejavamail/outlookmessageparser/model/OutlookMessage.java:397-405 | the corrected line extends the text, and an empty list appends nothing |
| MessageView.AppendRecipientsIsLoop | src/main/java/org/simplejavamail/outlookmessageparser/model/OutlookMessage.java:398-404 | the corrected loop over the role's own list never hits the missing-separator case |
| MessageView.AppendRecipientsShowsAddress | src/main/java/org/simplejavamail/outlookmessageparser/model/OutlookMessage.java:397-405 | every listed recipient's address appears in its role's corrected line |
| MessageView.AsWrittenShowsToRecipients | src/main/java/org/simplejavamail/outlookmessageparser/model/OutlookMessage.java:400-401 | as written, a non-empty role line shows the To recipients, with name and address swapped |
| MessageView.ToStringAsWritten | src/main/java/org/simplejavamail/outlookmessageparser/model/OutlookMessage.java:375-395 | as written, the summary throws only a null-pointer or string-index exception, and succeeds only where the corrected one does |
| MessageView.ToString | src/main/java/org/simplejavamail/outlookmessageparser/model/OutlookMessage.java:375-395 | the corrected summary succeeds exactly when all three display strings exist and every recipient is named; it starts with the From line and ends with the attachment count |
| MessageView.Summary | src/main/java/org/simplejavamail/outlookmessageparser/model/OutlookMessage.java:381-395 | the summary starts with the From line and ends with the attachment count |
| MessageView.SummaryShowsCc | src/main/java/org/simplejavamail/outlookmessageparser/model/OutlookMessage.java:385 | every Cc entry's address appears in the summary |
| MessageView.ToStringShowsCcAddress | src/main/java/org/simplejavamail/outlookmessageparser/model/OutlookMessage.java:375-395 | a recipient listed as Cc appears in the corrected summary with its address |
| MessageView.BobInCcLists | src/main/java/org/simplejavamail/outlookmessageparser/model/OutlookMessage.java:629-662 | in the example message Bob is a Cc recipient and neither To nor Bcc |
| MessageView.AsWrittenThrowsWithoutToRecipients | src/main/java/org/simplejavamail/outlookmessageparser/model/OutlookMessage.java:384-403 | with a Cc recipient and no To recipient the summary as written throws, where the corrected one succeeds |
| MessageView.CcWithoutToThrows | src/main/java/org/simplejavamail/outlookmessageparser/model/OutlookMessage.java:398-403 | the example's Cc line, built from the empty To list, has no separator to cut at |
| MessageView.AsWrittenSwapsNameAndAddress | src/main/java/org/simplejavamail/outlookmessageparser/model/OutlookMessage.java:401 | as written, an entry puts the address where the name belongs and the name in angle brackets |
| CidAttachments.EscapeIn | src/main/java/org/simplejavamail/outlookmessageparser/model/OutlookMessage.java:322-328 | reference escaping: each special character gets one backslash and the text never gets shorter |
| CidAttachments.ReplaceCharConcat | src/main/java/org/simplejavamail/outlookmessageparser/model/OutlookMessage.java:325 | String.replace works piecewise over concatenation |
| CidAttachments.ReplaceBackslash | src/main/java/org/simplejavamail/outlookmessageparser/model/OutlookMessage.java:324-325 | replacing the backslash first is the reference escape for the backslash alone |
| CidAttachments.ReplaceAfterEscape | src/main/java/org/simplejavamail/outlookmessageparser/model/OutlookMessage.java:324-326 | once the backslash is escaped, replacing one more character extends the escaped set, leaving inserted backslashes alone |
| CidAttachments.ReplaceEachEscapes | src/main/java/org/simplejavamail/outlookmessageparser/model/OutlookMessage.java:324-326 | the remaining replacements, in order, escape exactly their characters |
| CidAttachments.SpecialsFresh | src/main/java/org/simplejavamail/outlookmessageparser/model/OutlookMessage.java:324 | the eleven specials after the backslash are distinct and none is the backslash |
| CidAttachments.EscapeCidIsPerCharacter | src/main/java/org/simplejavamail/outlookmessageparser/model/OutlookMessage.java:322-328 | the sequential replacements of escapeCID put exactly one backslash before each of the twelve special characters |
| CidAttachments.BackslashFirst | src/main/java/org/simplejavamail/outlookmessageparser/model/OutlookMessage.java:324 | escapeCID handles the backslash before the other specials |
| CidAttachments.UnescapeEscapeIn | src/main/java/org/simplejavamail/outlookmessageparser/model/OutlookMessage.java:322-328 | escaping with the backslash among the escaped characters reads back to the original |
| CidAttachments.UnescapeEscapeCid | src/main/java/org/simplejavamail/outlookmessageparser/model/OutlookMessage.java:319-328 | the escaped name, read as a regex literal, stands for the name itself |
| CidAttachments.HtmlContainsCidLiteral | src/main/java/org/simplejavamail/outlookmessageparser/model/OutlookMessage.java:318-320 | the cid pattern search is a plain search for cid:, an optional quote and the name |
| CidAttachments.AttachmentCid | src/main/java/org/simplejavamail/outlookmessageparser/model/OutlookMessage.java:280-282 | an attachment is keyed under its content id, else its file name, else its long file name, whichever is non-empty and referenced; none exactly when no name is |
| CidAttachments.CidMapOf | src/main/java/org/simplejavamail/outlookmessageparser/model/OutlookMessage.java:277-286 | every map entry points to an attachment keyed under that name |
| CidAttachments.FetchCidMap | src/main/java/org/simplejavamail/outlookmessageparser/model/OutlookMessage.java:272-289 | the map is empty without a non-empty converted HTML body, and each entry points to a file attachment keyed under that name |
| CidAttachments.CidMapHasEveryReferenced | src/main/java/org/simplejavamail/outlookmessageparser/model/OutlookMessage.java:277-294 | every referenced file attachment is in the map under its name, unless a later one took that name |
| CidAttachments.CidMapKeepsLast | src/main/java/org/simplejavamail/outlookmessageparser/model/OutlookMessage.java:294 | a map entry is the last attachment keyed under its name, since later puts replace earlier ones |
| CidAttachments.TrueAttachments | src/main/java/org/simplejavamail/outlookmessageparser/model/OutlookMessage.java:303-316 | the downloadable attachments are file attachments |
| CidAttachments.TrueAttachmentsPartition | src/main/java/org/simplejavamail/outlookmessageparser/model/OutlookMessage.java:303-316 | a file attachment is downloadable exactly when it is not inline, and a nested message is neither |
| CidAttachments.NoHtmlAllTrue | src/main/java/org/simplejavamail/outlookmessageparser/model/OutlookMessage.java:276 | without an HTML body every file attachment is downloadable |
| CidAttachments.UnreferencedIsTrue | src/main/java/org/simplejavamail/outlookmessageparser/model/OutlookMessage.java:303-316 | a file attachment the HTML does not refer to under any name is downloadable |
| CidAttachments.SharedCidEarlierIsTrue | src/main/java/org/simplejavamail/outlookmessageparser/model/OutlookMessage.java:294-305 | when two file attachments share a name only the later one is inline; the earlier one is offered as downloadable |
| SmimeHeader.FinalTerminatorLength | src/main/java/org/simplejavamail/outlookmessageparser/model/OutlookMessage.java:461 | the length of a single final line terminator, before which $ also matches |
| SmimeHeader.StripQuotePair | src/main/java/org/simplejavamail/outlookmessageparser/model/OutlookMessage.java:461 | replaceFirst removes one pair of quotes enclosing the whole value; anything else is returned unchanged |
| SmimeHeader.StripQuotePairOfQuoted | src/main/java/org/simplejavamail/outlookmessageparser/model/OutlookMessage.java:461 | quoting a value without line terminators and stripping it gives it back |
| SmimeHeader.ParseParam | src/main/java/org/simplejavamail/outlookmessageparser/model/OutlookMessage.java:438-440 | a segment without = indexes past the split array and throws ArrayIndexOutOfBoundsException; otherwise the name and value are the trimmed pieces |
| SmimeHeader.ParseEach | src/main/java/org/simplejavamail/outlookmessageparser/model/OutlookMessage.java:437-440 | each segment parsed on its own |
| SmimeHeader.ParseParams | src/main/java/org/simplejavamail/outlookmessageparser/model/OutlookMessage.java:437-446 | all segments parse exactly when each does, in order; a malformed one throws |
| SmimeHeader.LastValue | src/main/java/org/simplejavamail/outlookmessageparser/model/OutlookMessage.java:441-445 | the loop keeps the value of the last parameter with exactly that name, and none when no parameter has it |
| SmimeHeader.Descriptor | src/main/java/org/simplejavamail/outlookmessageparser/model/OutlookMessage.java:430-471 | a header without the marker builds nothing; a descriptor has the trimmed first segment as MIME type |
| SmimeHeader.ApplicationSmimeOf | src/main/java/org/simplejavamail/outlookmessageparser/model/OutlookMessage.java:430-449 | acts exactly on headers containing application/ and builds the application kind |
| SmimeHeader.MultipartSignedOf | src/main/java/org/simplejavamail/outlookmessageparser/model/OutlookMessage.java:451-471 | acts exactly on headers containing multipart/signed and builds the multipart-signed kind |
| SmimeHeader.ParamRoundTrip | src/main/java/org/simplejavamail/outlookmessageparser/model/OutlookMessage.java:438-440 | a name=value segment of plain parts splits into exactly its name and value |
| SmimeHeader.HeaderSegments | src/main/java/org/simplejavamail/outlookmessageparser/model/OutlookMessage.java:433 | a header built from a MIME type and two parameters splits into those three segments |
| SmimeHeader.DescriptorOfTwoParams | src/main/java/org/simplejavamail/outlookmessageparser/model/OutlookMessage.java:430-471 | a header with the marker and two well-formed parameters gives the MIME type and both values |
| SmimeHeader.ApplicationSmimeRoundTrip | src/main/java/org/simplejavamail/outlookmessageparser/model/OutlookMessage.java:430-449 | a MIME type with smime-type and name parameters gives back exactly those three |
| SmimeHeader.MultipartSignedRoundTrip | src/main/java/org/simplejavamail/outlookmessageparser/model/OutlookMessage.java:451-471 | a MIME type with a quoted protocol and a bare micalg gives back the MIME type, the unquoted protocol and the algorithm |
| HeaderFolding.SafeWithoutBreaks | src/main/java/org/simplejavamail/jakarta/mail/internet/MimeUtility.java:452-460 | text without CR or LF is already safe header text |
| HeaderFolding.SafeFold | src/main/java/org/simplejavamail/jakarta/mail/internet/MimeUtility.java:471-478 | a CR LF fold before a space or tab keeps header text safe |
| HeaderFolding.TrimEmptyIffBlank | src/main/java/org/simplejavamail/jakarta/mail/internet/MimeUtility.java:469-470 | a line counts as empty after trim exactly when all its characters are ones trim removes |
| HeaderFolding.BreakEnd | src/main/java/org/simplejavamail/jakarta/mail/internet/MimeUtility.java:500-506 | a line break is one character, or two for CR LF |
| HeaderFolding.ReadLines | src/main/java/org/simplejavamail/jakarta/mail/internet/MimeUtility.java:465-468 | readLine yields no lines exactly for empty text, and no line it yields holds a line break |
| HeaderFolding.ReadJoined | src/main/java/org/simplejavamail/jakarta/mail/internet/MimeUtility.java:465-479 | reading lines back from non-empty unbroken lines joined with CR LF gives the same lines |
| HeaderFolding.ReadOneLine | src/main/java/org/simplejavamail/jakarta/mail/internet/MimeUtility.java:465-468 | unbroken non-empty text is read as one line |
| HeaderFolding.ReadFirstLine | src/main/java/org/simplejavamail/jakarta/mail/internet/MimeUtility.java:465-468 | a line ended by CR LF is read first and reading continues after the CR LF |
| HeaderFolding.KeptLine | src/main/java/org/simplejavamail/jakarta/mail/internet/MimeUtility.java:469-478 | a kept line, with the space makesafe may put before it, is still visible and unbroken |
| HeaderFolding.KeptLines | src/main/java/org/simplejavamail/jakarta/mail/internet/MimeUtility.java:468-479 | makesafe keeps only non-blank lines, none longer than before, each after the first starting with a space or a tab |
| HeaderFolding.KeptUnchanged | src/main/java/org/simplejavamail/jakarta/mail/internet/MimeUtility.java:468-479 | lines already non-blank and continued with whitespace are kept as they are |
| HeaderFolding.SafeJoined | src/main/java/org/simplejavamail/jakarta/mail/internet/MimeUtility.java:468-484 | lines continued with whitespace and joined by CR LF make safe header text |
| HeaderFolding.Makesafe | src/main/java/org/simplejavamail/jakarta/mail/internet/MimeUtility.java:452-485 | makesafe always yields safe header text, and leaves text without line breaks unchanged |
| HeaderFolding.MakesafeJoined | src/main/java/org/simplejavamail/jakarta/mail/internet/MimeUtility.java:452-485 | text that is already folded properly passes through makesafe unchanged |
| HeaderFolding.MakesafeIdempotent | src/main/java/org/simplejavamail/jakarta/mail/internet/MimeUtility.java:452-485 | makesafe applied twice is makesafe applied once |
| HeaderFolding.StripFoldSpace | src/main/java/org/simplejavamail/jakarta/mail/internet/MimeUtility.java:402-409 | the stripped value is a prefix that does not end in a space, tab, CR or LF, and only such characters were removed |
| HeaderFolding.ScanFindsFoldPoint | src/main/java/org/simplejavamail/jakarta/mail/internet/MimeUtility.java:420-428 | the inner scan finds the last break point within the line limit, else the first break point, else -1 when there is none |
| HeaderFolding.LastSpace | src/main/java/org/simplejavamail/jakarta/mail/internet/MimeUtility.java:419-428 | the break point is a space or tab not after another; the last one within 76 characters when one exists, else the first; -1 only without any |
| HeaderFolding.SplitAt | src/main/java/org/simplejavamail/jakarta/mail/internet/MimeUtility.java:436-440 | cutting unbroken text around a break point leaves unbroken parts |
| HeaderFolding.FoldLines | src/main/java/org/simplejavamail/jakarta/mail/internet/MimeUtility.java:416-443 | the folded lines put together give back the text, and every line after the first starts with a space or a tab |
| HeaderFolding.Fold | src/main/java/org/simplejavamail/jakarta/mail/internet/MimeUtility.java:396-445 | fold always yields safe header text, and returns a value that fits within 76 characters stripped and unchanged |
| HeaderFolding.FoldOnlyInsertsBreaks | src/main/java/org/simplejavamail/jakarta/mail/internet/MimeUtility.java:416-443 | on unbroken text fold's loop only inserts CR LF before spaces and tabs that were already there |
| HeaderFolding.Unfold | src/main/java/org/simplejavamail/jakarta/mail/internet/MimeUtility.java:495-539 | unfold never lengthens text and leaves text without line breaks unchanged |
| HeaderFolding.BreakSplit | src/main/java/org/simplejavamail/jakarta/mail/internet/MimeUtility.java:500-506 | unfold finds the first line break and its end where it lies |
| HeaderFolding.UnfoldEscapedBreak | src/main/java/org/simplejavamail/jakarta/mail/internet/MimeUtility.java:507-514 | a line break after a backslash is kept and the backslash removed |
| HeaderFolding.UnfoldFoldedBreak | src/main/java/org/simplejavamail/jakarta/mail/internet/MimeUtility.java:520-524 | a line break followed by a space or tab, or at the end, is removed |
| HeaderFolding.UnfoldKeptBreak | src/main/java/org/simplejavamail/jakarta/mail/internet/MimeUtility.java:525-530 | any other line break is kept |
| HeaderFolding.UnfoldJoined | src/main/java/org/simplejavamail/jakarta/mail/internet/MimeUtility.java:495-539 | unfolding lines joined as fold writes them concatenates them again |
| HeaderFolding.FoldPass | src/main/java/org/simplejavamail/jakarta/mail/internet/MimeUtility.java:418-441 | one pass of fold's loop on foldable text ends a visible line without a trailing backslash and leaves foldable text |
| HeaderFolding.FoldLinesVisible | src/main/java/org/simplejavamail/jakarta/mail/internet/MimeUtility.java:418-443 | no line of a fold of foldable text is blank, so makesafe drops none |
| HeaderFolding.FoldLinesUnescaped | src/main/java/org/simplejavamail/jakarta/mail/internet/MimeUtility.java:418-443 | no folded line that another follows ends in a backslash |
| HeaderFolding.StripFoldable | src/main/java/org/simplejavamail/jakarta/mail/internet/MimeUtility.java:403-410 | stripping keeps text foldable |
| HeaderFolding.UnfoldFold | src/main/java/org/simplejavamail/jakarta/mail/internet/MimeUtility.java:396-539 | unfold undoes fold: it gives back the value without trailing whitespace, for values without control characters, leading whitespace or a backslash before whitespace |
| MimeUtility.IndexOfAnyFrom | src/main/java/org/simplejavamail/jakarta/mail/internet/MimeUtility.java:551-563 | the first index from start on holding one of the characters, or -1 when there is none or start is negative |
| MimeUtility.IndexOfAny | src/main/java/org/simplejavamail/jakarta/mail/internet/MimeUtility.java:547-549 | -1 exactly when no character is one of any; otherwise the first such index |
| MimeUtility.NegativeStartFindsNothing | src/main/java/org/simplejavamail/jakarta/mail/internet/MimeUtility.java:551-563 | a negative start makes charAt throw, which is caught and reported as -1 |
| MimeUtility.Escape | src/main/java/org/simplejavamail/jakarta/mail/internet/MimeUtility.java:352-363 | escaping never shortens the text |
| MimeUtility.Quote | src/main/java/org/simplejavamail/jakarta/mail/internet/MimeUtility.java:335-377 | the word is returned unchanged exactly when it is non-empty and needs neither escaping nor quotes; otherwise it is quoted, and null or empty becomes "" |
| MimeUtility.UnescapePrefix | src/main/java/org/simplejavamail/jakarta/mail/internet/MimeUtility.java:352-363 | text without backslashes reads back as itself |
| MimeUtility.UnescapeEscape | src/main/java/org/simplejavamail/jakarta/mail/internet/MimeUtility.java:352-363 | reading back what the escaping loop wrote gives its input |
| MimeUtility.QuoteRoundTrip | src/main/java/org/simplejavamail/jakarta/mail/internet/MimeUtility.java:335-377 | reading back what quote returns gives the word, with null read as empty |
| MimeUtility.NonAsciiCount | src/main/java/org/simplejavamail/jakarta/mail/internet/MimeUtility.java:968-970 | the count of non-ASCII units is zero exactly when every unit is ASCII text |
| MimeUtility.AsciiClass | src/main/java/org/simplejavamail/jakarta/mail/internet/MimeUtility.java:808-810 | ALL_ASCII when no unit is non-ASCII; MOSTLY_ASCII when more are ASCII; MOSTLY_NONASCII otherwise |
| MimeUtility.CountAndClassify | src/main/java/org/simplejavamail/jakarta/mail/internet/MimeUtility.java:820-840 | the counting loop returns the class of the whole sequence |
| JavaLang.Utf16 | src/main/java/org/simplejavamail/jakarta/mail/internet/MimeUtility.java:820-840 | a string within the Basic Multilingual Plane is one code unit per character |
| MimeUtility.CheckAscii | src/main/java/org/simplejavamail/jakarta/mail/internet/MimeUtility.java:820-840 | a string is ALL_ASCII exactly when none of its characters is non-ASCII, and otherwise classed by counts |
| MimeUtility.ByteUnits | src/main/java/org/simplejavamail/jakarta/mail/internet/MimeUtility.java:849-868 | each byte taken unsigned |
| MimeUtility.CheckAsciiBytes | src/main/java/org/simplejavamail/jakarta/mail/internet/MimeUtility.java:849-868 | bytes are ALL_ASCII exactly when no byte taken unsigned is non-ASCII, and otherwise classed by counts |
| MimeUtility.Latin1 | src/main/java/org/simplejavamail/jakarta/mail/internet/MimeUtility.java:849-868 | the ISO-8859-1 reading gives each byte's value as one character |
| MimeUtility.BytesAndLatin1Agree | src/main/java/org/simplejavamail/jakarta/mail/internet/MimeUtility.java:820-868 | both checkAscii overloads agree on bytes and their ISO-8859-1 reading |
| MimeUtility.MimeCharset | src/main/java/org/simplejavamail/jakarta/mail/internet/MimeUtility.java:601-608 | null stays null; a name in the table maps to its MIME name; a name not in it, or a missing table, gives the name itself |
| MimeUtility.MimeCharsetIgnoresCase | src/main/java/org/simplejavamail/jakarta/mail/internet/MimeUtility.java:601-608 | names that differ only in letter case map alike |
| RtfConverter.EscapeRun | src/main/java/org/simplejavamail/outlookmessageparser/rtf/SimpleRTF2HTMLConverter.java:66-73 | the escape loop takes two hex digits per \'XX escape and stops where the pattern no longer matches |
| RtfConverter.DigitsEnd | src/main/java/org/simplejavamail/outlookmessageparser/rtf/SimpleRTF2HTMLConverter.java:32 | the greedy digit run of the control word pattern |
| RtfConverter.WordAt | src/main/java/org/simplejavamail/outlookmessageparser/rtf/SimpleRTF2HTMLConverter.java:32 | a control word match spans the backslash, its letters and its number text as they stand in the text |
| RtfConverter.ControlAt | src/main/java/org/simplejavamail/outlookmessageparser/rtf/SimpleRTF2HTMLConverter.java:80-84 | the control pattern fails only on a backslash at the very end; a non-letter after the backslash is a two-character control symbol, a letter starts a control word |
| RtfConverter.SignedValue | src/main/java/org/simplejavamail/outlookmessageparser/rtf/SimpleRTF2HTMLConverter.java:94 | only a number text with digits is read as a value, and a negative value comes from a leading minus |
| RtfConverter.ControlNumber | src/main/java/org/simplejavamail/outlookmessageparser/rtf/SimpleRTF2HTMLConverter.java:88-96 | a control symbol carries no number; a control word's number is a 32-bit int, and a text Integer.valueOf rejects throws NumberFormatException |
| RtfConverter.ApplyControl | src/main/java/org/simplejavamail/outlookmessageparser/rtf/SimpleRTF2HTMLConverter.java:99-135 | a control word never stops the scan, only appends to the output, changes at most the current group, and only \ansicpg changes the charset or throws |
| RtfConverter.Escape | src/main/java/org/simplejavamail/outlookmessageparser/rtf/SimpleRTF2HTMLConverter.java:63-135 | a backslash only appends, keeps the groups below the current one, and throws only the pattern's, the number's or the charset lookup's exception |
| RtfConverter.Step | src/main/java/org/simplejavamail/outlookmessageparser/rtf/SimpleRTF2HTMLConverter.java:48-141 | the scan stops exactly at a closing brace that leaves one group, keeping the output; a suppressed group writes nothing |
| RtfConverter.Run | src/main/java/org/simplejavamail/outlookmessageparser/rtf/SimpleRTF2HTMLConverter.java:48-142 | the returned text always extends the output so far |
| RtfConverter.Rtf2Html | src/main/java/org/simplejavamail/outlookmessageparser/rtf/SimpleRTF2HTMLConverter.java:35-143 | an empty text converts to an empty text |
| RtfConverterProperties.StepOnText | src/main/java/org/simplejavamail/outlookmessageparser/rtf/SimpleRTF2HTMLConverter.java:48-141 | CR and LF are skipped; any other character outside braces and backslashes is written unless suppressed |
| RtfConverterProperties.StepOnControl | src/main/java/org/simplejavamail/outlookmessageparser/rtf/SimpleRTF2HTMLConverter.java:80-97 | a control word applies with the position moved past its whole match |
| RtfConverterProperties.RunOnNext | src/main/java/org/simplejavamail/outlookmessageparser/rtf/SimpleRTF2HTMLConverter.java:48 | the loop continues from the state one iteration leads to |
| RtfConverterProperties.RunOnStop | src/main/java/org/simplejavamail/outlookmessageparser/rtf/SimpleRTF2HTMLConverter.java:59-61 | the loop returns the output when an iteration breaks out |
| RtfConverterProperties.ControlWordText | src/main/java/org/simplejavamail/outlookmessageparser/rtf/SimpleRTF2HTMLConverter.java:89-92 | a matched control word's name and number text stand right after its backslash |
| RtfConverterProperties.StepScopesGroups | src/main/java/org/simplejavamail/outlookmessageparser/rtf/SimpleRTF2HTMLConverter.java:53-62 | { pushes a copy of the current group, } pops it, and every other step changes at most the current group |
| RtfConverterProperties.CharsetIsGlobal | src/main/java/org/simplejavamail/outlookmessageparser/rtf/SimpleRTF2HTMLConverter.java:111-114 | only \ansicpg changes the charset, and closing a group does not restore it |
| RtfConverterProperties.CharsetChangeAtControl | src/main/java/org/simplejavamail/outlookmessageparser/rtf/SimpleRTF2HTMLConverter.java:111-114 | no step other than a control word or symbol changes the charset |
| RtfConverterProperties.ChangedByAnsicpg | src/main/java/org/simplejavamail/outlookmessageparser/rtf/SimpleRTF2HTMLConverter.java:111-114 | the control word that changes the charset is \ansicpg |
| RtfConverterProperties.ClosingBrace | src/main/java/org/simplejavamail/outlookmessageparser/rtf/SimpleRTF2HTMLConverter.java:56-62 | a closing brace that leaves one group ends the scan with the output so far; any other pops the group and goes on |
| RtfConverterProperties.IgnoredTextEmitsNothing | src/main/java/org/simplejavamail/outlookmessageparser/rtf/SimpleRTF2HTMLConverter.java:146-151 | inside a font or colour table with no closing brace, nothing more is written whatever follows |
| RtfConverterProperties.IgnoredStep | src/main/java/org/simplejavamail/outlookmessageparser/rtf/SimpleRTF2HTMLConverter.java:48-141 | a step inside an ignoring group away from a closing brace throws or goes on ignoring without writing |
| RtfConverterProperties.IgnoreSurvivesStep | src/main/java/org/simplejavamail/outlookmessageparser/rtf/SimpleRTF2HTMLConverter.java:99-135 | a step away from a closing brace keeps an ignoring group ignoring |
| RtfConverterProperties.ControlKeepsIgnore | src/main/java/org/simplejavamail/outlookmessageparser/rtf/SimpleRTF2HTMLConverter.java:99-135 | no control word clears the ignore flag |
| RtfConverterProperties.PlainGroup | src/main/java/org/simplejavamail/outlookmessageparser/rtf/SimpleRTF2HTMLConverter.java:35-143 | a document of one group of plain text yields that text without its CR and LF characters, and nothing after the group |
| RtfConverterProperties.OpeningBrace | src/main/java/org/simplejavamail/outlookmessageparser/rtf/SimpleRTF2HTMLConverter.java:53-55 | { pushes a copy of the current group |
| RtfConverterProperties.HexRunDecodedAsOne | src/main/java/org/simplejavamail/outlookmessageparser/rtf/SimpleRTF2HTMLConverter.java:65-77 | a maximal run of \'XX escapes is decoded in the current charset as one byte sequence, four characters per byte |
| RtfConverterProperties.Written | src/main/java/org/simplejavamail/outlookmessageparser/rtf/SimpleRTF2HTMLConverter.java:32 | a control word as written: backslash, name, number text and a delimiting space |
| RtfConverterProperties.NumberTextShape | src/main/java/org/simplejavamail/outlookmessageparser/rtf/SimpleRTF2HTMLConverter.java:32 | the number text of a number has the shape the pattern captures |
| RtfConverterProperties.NumberRoundTrip | src/main/java/org/simplejavamail/outlookmessageparser/rtf/SimpleRTF2HTMLConverter.java:88-96 | the text of a 32-bit number reads back as that number; no text reads as no number |
| RtfConverterProperties.SignedValueOfDigits | src/main/java/org/simplejavamail/outlookmessageparser/rtf/SimpleRTF2HTMLConverter.java:94 | digits read as their decimal value, negated after a minus |
| RtfConverterProperties.ValueOfNumberText | src/main/java/org/simplejavamail/outlookmessageparser/rtf/SimpleRTF2HTMLConverter.java:94 | on every text the pattern captures, the number is what Integer.valueOf makes of it, with NumberFormatException where it throws |
| RtfConverterProperties.WordAtNumber | src/main/java/org/simplejavamail/outlookmessageparser/rtf/SimpleRTF2HTMLConverter.java:32 | the captured number text has the shape an optional minus then digits |
| RtfConverterProperties.MatchedNumberIsValueOf | src/main/java/org/simplejavamail/outlookmessageparser/rtf/SimpleRTF2HTMLConverter.java:92-95 | every number a matched control word carries is what Integer.valueOf makes of its text |
| RtfConverterProperties.ControlAtWord | src/main/java/org/simplejavamail/outlookmessageparser/rtf/SimpleRTF2HTMLConverter.java:32 | a name, a number text and a space after a backslash match as exactly that control word |
| RtfConverterProperties.ControlAtScans | src/main/java/org/simplejavamail/outlookmessageparser/rtf/SimpleRTF2HTMLConverter.java:32 | a backslash, letters, the number text and a space match as one control word covering them |
| RtfConverterProperties.WordAtStops | src/main/java/org/simplejavamail/outlookmessageparser/rtf/SimpleRTF2HTMLConverter.java:32 | where the letters stop, the match takes the number text and the space after it |
| RtfConverterProperties.ControlWordRoundTrip | src/main/java/org/simplejavamail/outlookmessageparser/rtf/SimpleRTF2HTMLConverter.java:88-97 | a written control word is matched back as the same name and number, covering exactly its text |
| RtfConverterProperties.WrittenWordStep | src/main/java/org/simplejavamail/outlookmessageparser/rtf/SimpleRTF2HTMLConverter.java:80-97 | stepping onto a written control word applies it with its number, past its text |
| RtfConverterProperties.WrittenMatches | src/main/java/org/simplejavamail/outlookmessageparser/rtf/SimpleRTF2HTMLConverter.java:32-33 | a written control word is no hex escape and matches as itself |
| RtfConverterProperties.ParagraphAndTab | src/main/java/org/simplejavamail/outlookmessageparser/rtf/SimpleRTF2HTMLConverter.java:100-105 | \par writes a line feed and \tab a tab, unless suppressed |
| RtfConverterProperties.UnicodeCharacter | src/main/java/org/simplejavamail/outlookmessageparser/rtf/SimpleRTF2HTMLConverter.java:122-128 | \uN writes the character N taken modulo 2^16, then skips as many characters as the group's \uc count says |
| RtfConverterProperties.SkipCount | src/main/java/org/simplejavamail/outlookmessageparser/rtf/SimpleRTF2HTMLConverter.java:119-121 | \ucN sets the current group's skip count to N, and \uc alone sets it to 1 |
| RtfConverterProperties.HtmlRtfToggles | src/main/java/org/simplejavamail/outlookmessageparser/rtf/SimpleRTF2HTMLConverter.java:106-110 | \htmlrtf turns suppression on for the current group; \htmlrtf with any number turns it off |
| RtfConverterProperties.TablesIgnored | src/main/java/org/simplejavamail/outlookmessageparser/rtf/SimpleRTF2HTMLConverter.java:115-118 | \fonttbl and \colortbl make the current group ignore its text |
| RtfConverterProperties.AnsiCodePage | src/main/java/org/simplejavamail/outlookmessageparser/rtf/SimpleRTF2HTMLConverter.java:111-114 | \ansicpgN switches to the charset findCharset gives N, or throws what it throws |
| RtfConverterProperties.OtherWordsSilent | src/main/java/org/simplejavamail/outlookmessageparser/rtf/SimpleRTF2HTMLConverter.java:134-135 | any other control word only moves past its text |
| RtfConverterProperties.ControlSymbols | src/main/java/org/simplejavamail/outlookmessageparser/rtf/SimpleRTF2HTMLConverter.java:129-135 | \{, \} and \\ write the brace or backslash; any other control symbol only moves past its two characters |
| RtfConverterProperties.TrailingBackslash | src/main/java/org/simplejavamail/outlookmessageparser/rtf/SimpleRTF2HTMLConverter.java:80-84 | a backslash at the very end throws IllegalStateException |
| RtfConverterProperties.LoneMinusThrows | src/main/java/org/simplejavamail/outlookmessageparser/rtf/SimpleRTF2HTMLConverter.java:92-95 | a minus without digits matches the pattern but makes Integer.valueOf throw NumberFormatException |
| RtfConverterProperties.LoneMinusMatch | src/main/java/org/simplejavamail/outlookmessageparser/rtf/SimpleRTF2HTMLConverter.java:32 | a control word followed by a lone minus matches with the minus as its number text |
| RtfConverterProperties.ControlAdvances | src/main/java/org/simplejavamail/outlookmessageparser/rtf/SimpleRTF2HTMLConverter.java:97-135 | a control word never moves the scan backwards while skip counts are not negative |
| RtfConverterProperties.StepAdvances | src/main/java/org/simplejavamail/outlookmessageparser/rtf/SimpleRTF2HTMLConverter.java:48-141 | without \uc- in the text every iteration moves forward and skip counts stay at least zero |
| RtfConverterProperties.OtherStepAdvances | src/main/java/org/simplejavamail/outlookmessageparser/rtf/SimpleRTF2HTMLConverter.java:51-77 | line breaks, braces, hex runs and text always move forward |
| RtfConverterProperties.ControlStepAdvances | src/main/java/org/simplejavamail/outlookmessageparser/rtf/SimpleRTF2HTMLConverter.java:80-135 | without \uc- a control word or symbol moves forward |
| RtfConverterProperties.NegativeSkipWritten | src/main/java/org/simplejavamail/outlookmessageparser/rtf/SimpleRTF2HTMLConverter.java:119-121 | a negative \uc count is written \uc- |
| RtfConverterProperties.RunTerminates | src/main/java/org/simplejavamail/outlookmessageparser/rtf/SimpleRTF2HTMLConverter.java:48-141 | without \uc- in the text, one iteration per remaining character is enough for the loop to end |
| RtfConverterProperties.AdvancingStep | src/main/java/org/simplejavamail/outlookmessageparser/rtf/SimpleRTF2HTMLConverter.java:48-141 | each iteration ends the loop or moves forward to where it goes on |
| RtfConverterProperties.Rtf2HtmlTerminates | src/main/java/org/simplejavamail/outlookmessageparser/rtf/SimpleRTF2HTMLConverter.java:35-143 | without \uc- in the text rtf2html ends within as many iterations as the text has characters |
| RtfConverterProperties.NegativeSkipNeverEnds | src/main/java/org/simplejavamail/outlookmessageparser/rtf/SimpleRTF2HTMLConverter.java:119-128 | on \uc-6 \u65 the loop never ends: after the A it moves back onto the space before \u65 |
| RtfConverterProperties.LoopingStart | src/main/java/org/simplejavamail/outlookmessageparser/rtf/SimpleRTF2HTMLConverter.java:119-121 | \uc-6 sets the skip count to -6 |
| RtfConverterProperties.LoopingRound | src/main/java/org/simplejavamail/outlookmessageparser/rtf/SimpleRTF2HTMLConverter.java:122-128 | from \u65 the scan writes A and goes back to the space before it |
| RtfConverterProperties.LoopingSpace | src/main/java/org/simplejavamail/outlookmessageparser/rtf/SimpleRTF2HTMLConverter.java:137-140 | the space before \u65 is written like any text |
| RtfConverterProperties.LoopingForEver | src/main/java/org/simplejavamail/outlookmessageparser/rtf/SimpleRTF2HTMLConverter.java:48-141 | from the space the loop never ends, whatever the budget |
| LegacyRtfConverter.FirstTag | src/main/java/com/auxilii/msgparser/rtf/SimpleRTF2HTMLConverter.java:91-95 | the tag loops stop at the first spelling that occurs at all, having skipped only spellings that do not occur |
| LegacyRtfConverter.FirstFound | src/main/java/com/auxilii/msgparser/rtf/SimpleRTF2HTMLConverter.java:91-93 | the start index is -1 exactly when no spelling occurs, otherwise where the first spelling that occurs begins |
| LegacyRtfConverter.AsWrittenEnd | src/main/java/com/auxilii/msgparser/rtf/SimpleRTF2HTMLConverter.java:94-99 | an end tag found at a positive index moves the end past the tag, while one at index 0 leaves it at 0 |
| LegacyRtfConverter.Substring | src/main/java/com/auxilii/msgparser/rtf/SimpleRTF2HTMLConverter.java:103 | substring succeeds exactly when 0 <= begin <= end <= length, and then yields the text between; otherwise it throws StringIndexOutOfBoundsException |
| LegacyRtfConverter.FetchHtmlSectionAsWritten | src/main/java/com/auxilii/msgparser/rtf/SimpleRTF2HTMLConverter.java:83-115 | the code as written fails only with StringIndexOutOfBoundsException, and only when both tags are present |
| LegacyRtfConverter.FetchHtmlSection | src/main/java/com/auxilii/msgparser/rtf/SimpleRTF2HTMLConverter.java:83-115 | with a start tag before an end tag the section is the text from the start tag through the end tag, beginning and ending with the tags; otherwise the text is wrapped in the envelope |
| LegacyRtfConverter.SectionShape | src/main/java/com/auxilii/msgparser/rtf/SimpleRTF2HTMLConverter.java:101-103 | the cut from a start tag to the end of a later end tag begins with the one and ends with the other |
| LegacyRtfConverter.Envelope | src/main/java/com/auxilii/msgparser/rtf/SimpleRTF2HTMLConverter.java:104-112 | the wrapped plain text holds no line break |
| LegacyRtfConverter.BreakRunEnd | src/main/java/com/auxilii/msgparser/rtf/SimpleRTF2HTMLConverter.java:108 | the greedy run of CR and LF |
| LegacyRtfConverter.ReplaceBreakRuns | src/main/java/com/auxilii/msgparser/rtf/SimpleRTF2HTMLConverter.java:108 | every run of line breaks is replaced, so none remain, and text without line breaks is unchanged |
| LegacyRtfConverter.BreakRunReplaced | src/main/java/com/auxilii/msgparser/rtf/SimpleRTF2HTMLConverter.java:108 | a maximal run of line breaks becomes exactly one HTML break |
| LegacyRtfConverter.CopiesText | src/main/java/com/auxilii/msgparser/rtf/SimpleRTF2HTMLConverter.java:108 | text without line breaks is copied as it stands |
| LegacyRtfConverter.BreakRunAtStart | src/main/java/com/auxilii/msgparser/rtf/SimpleRTF2HTMLConverter.java:108 | a maximal run of line breaks at the start becomes one HTML break |
| LegacyRtfConverter.TextBeforeBreaks | src/main/java/com/auxilii/msgparser/rtf/SimpleRTF2HTMLConverter.java:108 | a character that is no line break is copied |
| LegacyRtfConverter.BreakCopiesEnd | src/main/java/com/auxilii/msgparser/rtf/SimpleRTF2HTMLConverter.java:51 | the run of back-to-back HTML breaks covers at least the break it starts with |
| LegacyRtfConverter.CollapseBreaks | src/main/java/com/auxilii/msgparser/rtf/SimpleRTF2HTMLConverter.java:51 | collapsing never lengthens text, leaves text without a pair of back-to-back breaks unchanged and shortens any other |
| LegacyRtfConverter.ShiftDoubleBreak | src/main/java/com/auxilii/msgparser/rtf/SimpleRTF2HTMLConverter.java:51 | without a pair at the front, a pair in the text is a pair in its tail |
| LegacyRtfConverter.CollapseUnchangedIff | src/main/java/com/auxilii/msgparser/rtf/SimpleRTF2HTMLConverter.java:51 | collapsing leaves a text unchanged exactly when no two HTML breaks stand back to back in it |
| LegacyRtfConverter.ReplaceLineBreaks | src/main/java/com/auxilii/msgparser/rtf/SimpleRTF2HTMLConverter.java:50-54 | the result holds no line break and is no longer than the text; text with no line break and no doubled break is unchanged |
| LegacyRtfConverter.RemoveNothing | src/main/java/com/auxilii/msgparser/rtf/SimpleRTF2HTMLConverter.java:52 | removing CR and LF from text without them changes nothing |
| LegacyRtfConverter.RemoveCharsShorter | src/main/java/com/auxilii/msgparser/rtf/SimpleRTF2HTMLConverter.java:52 | removing CR and LF never lengthens text |
| LegacyRtfConverter.NonSpaceEnd | src/main/java/com/auxilii/msgparser/rtf/SimpleRTF2HTMLConverter.java:110-111 | the greedy run of characters that are not white space, as \S+ takes it |
| LegacyRtfConverter.HttpLinks | src/main/java/com/auxilii/msgparser/rtf/SimpleRTF2HTMLConverter.java:110 | linking web addresses adds no line break, and text without http:// is unchanged |
| LegacyRtfConverter.RunAfterPrefix | src/main/java/com/auxilii/msgparser/rtf/SimpleRTF2HTMLConverter.java:110-111 | the non-space run after the prefix and the parts around it keep the absence of line breaks |
| LegacyRtfConverter.LinkNoLineBreak | src/main/java/com/auxilii/msgparser/rtf/SimpleRTF2HTMLConverter.java:110-111 | a link built from texts without line breaks has none |
| LegacyRtfConverter.MailtoLinks | src/main/java/com/auxilii/msgparser/rtf/SimpleRTF2HTMLConverter.java:111 | linking mail addresses adds no line break, and text without mailto: is unchanged |
| LegacyRtfConverter.HexToString | src/main/java/com/auxilii/msgparser/rtf/SimpleRTF2HTMLConverter.java:157-172 | a result exists exactly when the text parses as hexadecimal and CP1252 is known; it decodes the low eight bits of the value as one byte |
| LegacyRtfConverter.ParseByteHex | src/main/java/com/auxilii/msgparser/rtf/SimpleRTF2HTMLConverter.java:160 | the two hex digits of a byte, in either case, parse to that byte |
| LegacyRtfConverter.HexToStringOfByte | src/main/java/com/auxilii/msgparser/rtf/SimpleRTF2HTMLConverter.java:157-172 | the escape written for a byte decodes to that single byte in CP1252 |
| LegacyRtfConverter.HexToStringOfLowerByte | src/main/java/com/auxilii/msgparser/rtf/SimpleRTF2HTMLConverter.java:157-172 | the lower-case escape for a byte decodes to that byte as well |
| LegacyRtfConverter.DecodesAsByte | src/main/java/com/auxilii/msgparser/rtf/SimpleRTF2HTMLConverter.java:160-167 | hex text whose value is a byte decodes to that byte |
| LegacyRtfConverter.Rtf2Html | src/main/java/com/auxilii/msgparser/rtf/SimpleRTF2HTMLConverter.java:29-43 | null stays null; a text throws StringIndexOutOfBoundsException exactly when the section cut as written throws, and otherwise gives a text without line breaks |
| LegacyRtfConverter.Rtf2HtmlCorrected | src/main/java/com/auxilii/msgparser/rtf/SimpleRTF2HTMLConverter.java:29-43 | with the corrected cut, null stays null and text gives text, and the result never holds a line break |
| LegacyRtfConverter.Rtf2HtmlAgreesWithoutSection | src/main/java/com/auxilii/msgparser/rtf/SimpleRTF2HTMLConverter.java:29-43 | on null and on every text that lacks a start tag or an end tag the conversion as written succeeds with the corrected conversion's result |
| LegacyRtfConverter.Rtf2HtmlClosingTagAtEnd | src/main/java/com/auxilii/msgparser/rtf/SimpleRTF2HTMLConverter.java:101-103 | on `<html ></html>` the conversion as written throws StringIndexOutOfBoundsException while the corrected one converts the whole text |
| LegacyRtfConverter.NoSectionAgrees | src/main/java/com/auxilii/msgparser/rtf/SimpleRTF2HTMLConverter.java:101-112 | without both tags the code as written and the corrected cut both wrap the text in the envelope |
| LegacyRtfConverter.SectionOverreads | src/main/java/com/auxilii/msgparser/rtf/SimpleRTF2HTMLConverter.java:101-103 | with a start tag and a later end tag, the code as written keeps one character past the end tag, and throws when the end tag ends the text |
| LegacyRtfConverter.SectionCut | src/main/java/com/auxilii/msgparser/rtf/SimpleRTF2HTMLConverter.java:101-103 | with the tags in order the corrected section runs from the start tag to the end of the end tag |
| LegacyRtfConverter.AsWrittenCut | src/main/java/com/auxilii/msgparser/rtf/SimpleRTF2HTMLConverter.java:103 | with the tags in order the code as written cuts one character further |
| LegacyRtfConverter.TagsApart | src/main/java/com/auxilii/msgparser/rtf/SimpleRTF2HTMLConverter.java:89-90 | a start tag and an end tag never begin at the same place |
| LegacyRtfConverter.AsWrittenEndPastTag | src/main/java/com/auxilii/msgparser/rtf/SimpleRTF2HTMLConverter.java:96-98 | an end tag found past the first character moves the end past the tag |
| LegacyRtfConverter.ClosingTagAtEndThrows | src/main/java/com/auxilii/msgparser/rtf/SimpleRTF2HTMLConverter.java:101-103 | on <html ></html> the code as written throws, and the corrected cut returns the whole text |

## Left out

- Container reading and stream I/O (`POIFSFileSystem`, `DocumentInputStream`, `getBytesFromDocumentEntry`) are replaced by the abstract `MsgContainer` tree with byte payloads.
- Compressed-RTF decompression ([MS-OXRTFCP]) and the RFC-compliant RTF-to-HTML converter are parameters in `Collaborators.Collaborators`.
- Charset resolution (`Charset.forName`) and decoding (`new String(bytes, charset)`) are parameters. Only the ISO-8859-1 reading and the manual UTF-16 path are exact.
- The regex engine is not modelled. These patterns are parameters returning their match groups:
  - the Reply-To header pattern;
  - the S/MIME Content-Type header pattern;
  - the `charset=` sniff;
  - the older converter's `replaceHexSequences`, `replaceSpecialSequences` and `replaceRemainingControlSequences`, held in `LegacyRtfConverter.RegexPasses`.
- Date parsing and formatting (`SimpleDateFormat`, `parseDateString`, `Date.toString`) are parameters. The FILETIME conversion itself is exact.
- The `MimetypesFileTypeMap` lookup behind `checkMimeTag` is a parameter.
- Logging, the Swing-based `JEditorPaneRTF2HTMLConverter` and the converter interfaces carry no logic and are not modelled.
- Parts of `MimeUtility` are not modelled:
  - `encodeWord`, `doEncode`, `checkAscii(InputStream)` and `AsciiOutputStream`;
  - the static charset-table loading and the system-property reads.
- The system properties are fixed at their defaults:
  - `foldText` is true;
  - `allowUtf8` is false;
  - `foldEncodedWords` is false.
- The `IOException` branch of `makesafe` is not modelled, because reading lines from a string cannot throw.
- `java2mime` is a parameter of `MimeUtility.MimeCharset`: the table loaded from `javamail.charset.map` is I/O.
- A `HashSet` has no defined iteration order. `CidAttachments.TrueAttachments` therefore gives the downloadable attachments as a set of positions, not as a list in some order.
- Java `char` values that are surrogate code units cannot be Dafny characters. `JavaLang.JavaChar` maps them to U+FFFD, both in UTF-16 property decoding and in `\uN`.
- `parseAttachment` adds an empty nested message first and fills it afterwards. The model parses the nested message first and then adds it. Nothing reads the message in between, so the result is the same.
- RtfConverter.Run: the loop is driven by a `fuel` budget, because a negative `\ucN` makes the Java loop run forever (`RtfConverterProperties.NegativeSkipNeverEnds`). `RtfConverterProperties.Rtf2HtmlTerminates` shows that one step per character is always enough when the text has no `\uc-`.
- RtfConverter.Rtf2Html: its own contract covers only the empty text. Its behaviour is stated step by step in `RtfConverterProperties`.
- RtfConverter.SignedValue: reads only texts shaped `-?[0-9]*`. `RtfConverterProperties.ValueOfNumberText` shows it agrees with `Integer.valueOf` on every text the pattern captures.
- HeaderFolding.UnfoldFold: the round trip is proved only for values that have no control characters, do not start with whitespace and have no backslash before a space or tab. Outside those conditions, `makesafe` drops blank lines and `unfold` treats the backslash as an escape, so the round trip does not hold.
- HeaderFolding.Fold: the contract says the result is safe header text, and that a short value without line breaks is only stripped. The line-length goal is stated per pass in `HeaderFolding.LastSpace`, not for the whole result.
- MimeUtility.CheckAscii: the per-character form of the all-ASCII case is stated only for strings within the Basic Multilingual Plane. For other strings the classification is stated over their UTF-16 code units, which is how Java counts them.
- JavaLang.ToLowerChar, JavaLang.ToUpperChar, JavaLang.ToLower, JavaLang.ToUpper and JavaLang.EqualsIgnoreCase: only the ASCII letters change case. Java's `toLowerCase`, `toUpperCase` and `equalsIgnoreCase` also map letters outside ASCII, such as `É` and `é`. The Unicode case tables are not modelled.
- JavaLang.Digit and JavaLang.ParseInt: only the ASCII digits and letters count as digits. Java's `Character.digit` and `Integer.parseInt` also accept other Unicode decimal digits and the fullwidth Latin letters. The Unicode digit tables are not modelled.
- ByteUtil.HexPair: built on `JavaLang.Digit`, so a non-ASCII digit counts as -1 here, while Java gives its value.
- MapiProperty.AnalyzeName, MapiProperty.LegacyAnalyzeName and MapiProperty.MapiClass: built on `JavaLang.ParseInt`, so a class or type written with non-ASCII digits does not parse here, while Java parses it.
- LegacyRtfConverter.HexToString: built on `JavaLang.ParseInt`, with the same gap for non-ASCII digits.
- OutlookFileAttachment.CheckMimeTag: the file name is lowercased by `JavaLang.ToLower` before the lookup, so only its ASCII letters are folded.
- MimeUtility.MimeCharset and MimeUtility.MimeCharsetIgnoresCase: the table lookup lowercases by `JavaLang.ToLower`, so a charset name is matched case-insensitively only in its ASCII letters.
- MessageView.CreateMailString: the name and address comparison uses `JavaLang.EqualsIgnoreCase`, so it ignores case only in ASCII letters.
- HeaderFolding.ScanSpace, HeaderFolding.LastSpace, HeaderFolding.FoldLines and HeaderFolding.Fold: positions and the 76-character limit count characters. Java counts UTF-16 code units, so a character beyond the Basic Multilingual Plane counts once here and twice in Java. For text within the Basic Multilingual Plane the two counts agree.

## Findings

| source | as written | input that shows it | evidently intended | confidence | as-written member | corrected member |
|---|---|---|---|---|---|---|
| src/main/java/org/simplejavamail/outlookmessageparser/model/OutlookMessage.java:397-405 | `appendRecipients` checks the role's list but prints the entries of `getToRecipients()`. It then deletes from `lastIndexOf("; ")`, which is -1 when no TO recipient exists. | Display-to "Alice", display-cc "Bob", display-bcc "", one recipient named Bob. `toString` throws StringIndexOutOfBoundsException. | Each role prints its own recipients. | not executed | MessageView.ToStringAsWritten | MessageView.ToString |
| src/main/java/org/simplejavamail/outlookmessageparser/model/OutlookMessage.java:401 | `createMailString(toRecipient.getName(), toRecipient.getAddress())` passes the name as `mail` and the address as `name`. | Recipient named Bob with address bob@example.com prints as `"bob@example.com" <Bob>`. | `"Bob" <bob@example.com>`, as the From line prints. | not executed | MessageView.AsWrittenSwapsNameAndAddress | MessageView.AppendRecipientsShowsAddress |
| src/main/java/com/auxilii/msgparser/Message.java:659-686 | `getCcRecipients` and `getBccRecipients` loop over a freshly created local list that shadows the recipients field. | A message whose only recipient Bob is named in display-cc "Bob". The getter returns an empty list. | The recipients whose trimmed name occurs in the role's display string. | not executed | LegacyMessage.CcRecipientsAsWritten | LegacyMessage.CcRecipients |
| src/main/java/com/auxilii/msgparser/rtf/SimpleRTF2HTMLConverter.java:101-103 | `text.substring(htmlStart, htmlEnd+1)` keeps one character past the end tag. | `<html ></html>`: the end index is past the text and substring throws StringIndexOutOfBoundsException. | The section from the start tag through the end tag; `rtf2html` then converts that section (`LegacyRtfConverter.Rtf2Html` as written, `LegacyRtfConverter.Rtf2HtmlCorrected` corrected). When the end tag comes before the start tag the code keeps at most one character or throws; wrapping the text in the envelope in that case is the model's own choice. | not executed | LegacyRtfConverter.FetchHtmlSectionAsWritten | LegacyRtfConverter.FetchHtmlSection |
