/**
 * What the parser takes from code outside its own core: the JVM's charset
 * registry and decoders, date parsing and printing, the compressed-RTF
 * decompressor, the RFC-compliant RTF converter, the MIME type table and the
 * regular expressions whose engine is not modelled. Each is a total function
 * value, so every statement proved below holds for whatever they compute.
 */
module Collaborators {
  import opened Wrappers
  import opened JavaLang

  /** A `java.nio.charset.Charset`, known by its canonical name. */
  datatype Charset = Charset(name: string)

  /** The groups of the first match of the `Reply-To:` header pattern. */
  datatype ReplyToGroups = ReplyToGroups(nameOrAddress: Option<string>, address: Option<string>)

  /** The groups of the first match of the S/MIME `Content-Type:` header pattern. */
  datatype SmimeGroups = SmimeGroups(contentType: string, smimeType: Option<string>, name: Option<string>)

  datatype Collaborators = Collaborators(
    /** `Charset.forName` on a legal name; `None` where it throws `UnsupportedCharsetException`. */
    forName: string -> Option<Charset>,
    /** `new String(bytes, charset)`. */
    decode: (Charset, seq<uint8>) -> string,
    /** The charset named by a `charset=` declaration inside a text property, if any. */
    charsetDeclaration: string -> Option<string>,
    /** `CompressedRTF.decompress`; `None` where the stream is unreadable. */
    decompressRtf: seq<uint8> -> Option<seq<uint8>>,
    /** The RFC-compliant RTF-to-HTML converter installed on a new message; `None` where it throws `IllegalArgumentException`. */
    rtfToHtml: string -> Option<string>,
    /** `parseDateString`: the pattern "EEE MMM d HH:mm:ss z yyyy" in the US and then the default locale, as epoch milliseconds. */
    parseDate: string -> Option<int>,
    /** `SimpleDateFormat` with the header pattern "EEE, d MMM yyyy HH:mm:ss z" (English) parsing one value, as epoch milliseconds. */
    headerDate: string -> Option<int>,
    /** The same header pattern formatting an epoch-millisecond instant. */
    formatHeaderDate: int -> string,
    /** `Date.toString()` of an epoch-millisecond instant. */
    dateToString: int -> string,
    /** The `MimetypesFileTypeMap` built from the bundled `mimetypes.txt`: the content type of a (lower-cased) file name. */
    mimeTypes: string -> string,
    /** The first match of the `Reply-To:` header pattern in a header block. */
    replyTo: string -> Option<ReplyToGroups>,
    /** The first match of the S/MIME `Content-Type:` header pattern in a header block. */
    smimeHeader: string -> Option<SmimeGroups>
  )

  const UTF_8: Charset := Charset("UTF-8")
  const WINDOWS_1252: Charset := Charset("windows-1252")
  const ISO_8859_1: Charset := Charset("ISO-8859-1")
}
