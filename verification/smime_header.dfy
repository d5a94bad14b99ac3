/**
 * The S/MIME `Content-Type` values a message carries in its named
 * properties 0x8003 and 0x8005: a MIME type followed by `;`-separated
 * `name=value` parameters (section 3.9 of RFC 5751, "Identifying an S/MIME
 * Message").
 */
module SmimeHeader {
  import opened Wrappers
  import opened JavaLang
  import opened OutlookSmime

  // ---------------------------------------------------------------------
  // replaceFirst("^\"(.*)\"$", "$1")

  /** A line terminator of `java.util.regex` without flags; `.` matches none of them. */
  predicate IsLineTerminator(c: char) {
    c == '\n' || c == '\r' || c == '\U{0085}' || c == '\U{2028}' || c == '\U{2029}'
  }

  predicate NoLineTerminator(s: string) {
    forall i :: 0 <= i < |s| ==> !IsLineTerminator(s[i])
  }

  /** The whole of `s` is one pair of double quotes around text that `.*` can match. */
  predicate QuotedLine(s: string) {
    |s| >= 2 && s[0] == '"' && s[|s| - 1] == '"' && NoLineTerminator(s[1..|s| - 1])
  }

  /**
   * The length of the line terminator that ends `s`, if `s` ends in exactly
   * one; `$` matches before it as well as at the very end.
   */
  function FinalTerminatorLength(s: string): (n: nat)
    ensures n <= |s|
    ensures n > 0 ==> IsLineTerminator(s[|s| - 1])
  {
    if EndsWith(s, "\r\n") then 2
    else if |s| > 0 && IsLineTerminator(s[|s| - 1]) then 1
    else 0
  }

  /**
   * `value.replaceFirst("^\"(.*)\"$", "$1")`: removes one pair of double
   * quotes that encloses the whole value, or the whole value but a final
   * line terminator; anything else is returned unchanged.
   */
  function StripQuotePair(v: string): (r: string)
    ensures QuotedLine(v) ==> r == v[1..|v| - 1]
    ensures r == v || |r| == |v| - 2
    ensures |v| == 0 || v[0] != '"' ==> r == v
  {
    if QuotedLine(v) then v[1..|v| - 1]
    else
      var n := FinalTerminatorLength(v);
      var body := v[..|v| - n];
      if n > 0 && QuotedLine(body) then body[1..|body| - 1] + v[|v| - n..]
      else v
  }

  /** Quoting a value that holds no line terminator and stripping it again gives the value back. */
  lemma StripQuotePairOfQuoted(p: string)
    requires NoLineTerminator(p)
    ensures StripQuotePair("\"" + p + "\"") == p
  {
    var q := "\"" + p + "\"";
    assert q[1..|q| - 1] == p;
  }

  // ---------------------------------------------------------------------
  // Parameters

  datatype Param = Param(name: string, value: string)

  /**
   * One `name=value` segment: the segment split at `=`, the trimmed first
   * piece as name and the trimmed second piece (unquoted when `unquote`) as
   * value. A segment without a second piece indexes past the end of the
   * split array.
   */
  function ParseParam(segment: string, unquote: bool): (r: Result<Param, Exception>)
    ensures r.Err? <==> |Split(segment, '=')| < 2
    ensures r.Err? ==> r.error == ArrayIndexOutOfBounds
    ensures r.Ok? ==> r.value.name == Trim(Split(segment, '=')[0])
    ensures r.Ok? && !unquote ==> r.value.value == Trim(Split(segment, '=')[1])
  {
    var pieces := Split(segment, '=');
    if |pieces| < 2 then Err(ArrayIndexOutOfBounds)
    else
      var value := Trim(pieces[1]);
      Ok(Param(Trim(pieces[0]), if unquote then StripQuotePair(value) else value))
  }

  /** Each segment parsed on its own. */
  function ParseEach(segments: seq<string>, unquote: bool): (rs: seq<Result<Param, Exception>>)
    ensures |rs| == |segments|
    ensures forall k :: 0 <= k < |segments| ==> rs[k] == ParseParam(segments[k], unquote)
    decreases |segments|
  {
    if |segments| == 0 then []
    else [ParseParam(segments[0], unquote)] + ParseEach(segments[1..], unquote)
  }

  /** Every segment parsed in order; a malformed one throws. */
  function ParseParams(segments: seq<string>, unquote: bool): (r: Result<seq<Param>, Exception>)
    ensures r.Ok? ==> |r.value| == |segments|
    ensures r.Ok? <==> forall k :: 0 <= k < |segments| ==> ParseParam(segments[k], unquote).Ok?
    ensures r.Ok? ==> forall k :: 0 <= k < |segments| ==> ParseParam(segments[k], unquote) == Ok(r.value[k])
    ensures r.Err? ==> r.error == ArrayIndexOutOfBounds
  {
    Sequence(ParseEach(segments, unquote))
  }

  /** The value the parameter loop keeps for `name`: that of the last parameter with exactly that name. */
  function LastValue(ps: seq<Param>, name: string): (v: Option<string>)
    ensures v.None? <==> forall k :: 0 <= k < |ps| ==> ps[k].name != name
    ensures v.Some? ==>
      exists k :: 0 <= k < |ps| && ps[k] == Param(name, v.value) && forall j :: k < j < |ps| ==> ps[j].name != name
    decreases |ps|
  {
    if |ps| == 0 then None
    else if ps[|ps| - 1].name == name then Some(ps[|ps| - 1].value)
    else LastValue(ps[..|ps| - 1], name)
  }

  // ---------------------------------------------------------------------
  // setSmimeApplicationSmime and setSmimeMultipartSigned

  /**
   * The descriptor built from a header with the given marker: the trimmed
   * first `;` segment as MIME type, and the last value of each of the two
   * named parameters among the later segments. A header without the marker
   * builds none.
   */
  function Descriptor(header: string, marker: string, unquote: bool, first: string, second: string)
    : (r: Result<Option<(string, Option<string>, Option<string>)>, Exception>)
    ensures !Contains(header, marker) ==> r == Ok(None)
    ensures r.Ok? && r.value.Some? ==>
      Contains(header, marker) && |Split(header, ';')| > 0 && r.value.value.0 == Trim(Split(header, ';')[0])
    ensures r.Err? ==> r.error == ArrayIndexOutOfBounds
  {
    if !Contains(header, marker) then Ok(None)
    else
      var segments := Split(header, ';');
      if |segments| == 0 then Err(ArrayIndexOutOfBounds)
      else
        match ParseParams(segments[1..], unquote)
        case Err(e) => Err(e)
        case Ok(ps) => Ok(Some((Trim(segments[0]), LastValue(ps, first), LastValue(ps, second))))
  }

  /** `setSmimeApplicationSmime`: acts only on a header that contains "application/". */
  function ApplicationSmimeOf(header: string): (r: Result<Option<Smime>, Exception>)
    ensures !Contains(header, "application/") <==> r == Ok(None)
    ensures r.Ok? && r.value.Some? ==> r.value.value.ApplicationSmime? && r.value.value.smimeMime.Some?
  {
    match Descriptor(header, "application/", false, "smime-type", "name")
    case Err(e) => Err(e)
    case Ok(None) => Ok(None)
    case Ok(Some((mime, smimeType, name))) => Ok(Some(ApplicationSmime(Some(mime), smimeType, name)))
  }

  /** `setSmimeMultipartSigned`: acts only on a header that contains "multipart/signed", and unquotes values. */
  function MultipartSignedOf(header: string): (r: Result<Option<Smime>, Exception>)
    ensures !Contains(header, "multipart/signed") <==> r == Ok(None)
    ensures r.Ok? && r.value.Some? ==> r.value.value.MultipartSigned? && r.value.value.smimeMime.Some?
  {
    match Descriptor(header, "multipart/signed", true, "protocol", "micalg")
    case Err(e) => Err(e)
    case Ok(None) => Ok(None)
    case Ok(Some((mime, protocol, micalg))) => Ok(Some(MultipartSigned(Some(mime), protocol, micalg)))
  }

  // ---------------------------------------------------------------------
  // Round trips

  /** A header component the parser reads back verbatim: non-empty, already trimmed, free of both separators. */
  predicate Plain(s: string) {
    |s| > 0 && !IsTrimmed(s[0]) && !IsTrimmed(s[|s| - 1]) && !HasChar(s, ';') && !HasChar(s, '=')
  }

  /** A `name=value` segment splits into exactly its name and value. */
  lemma ParamRoundTrip(name: string, value: string, unquote: bool)
    requires Plain(name) && Plain(value)
    ensures ParseParam(name + "=" + value, unquote) == Ok(Param(name, if unquote then StripQuotePair(value) else value))
  {
    assert Join([name, value], '=') == name + "=" + value;
    SplitJoin([name, value], '=');
  }

  /** The segments of a header built from a MIME type and two parameters. */
  lemma HeaderSegments(mime: string, p1: string, p2: string)
    requires Plain(mime)
    requires |p1| > 0 && |p2| > 0 && !HasChar(p1, ';') && !HasChar(p2, ';')
    ensures Split(mime + ";" + p1 + ";" + p2, ';') == [mime, p1, p2]
  {
    var ps := [mime, p1, p2];
    assert Join(ps, ';') == mime + ";" + p1 + ";" + p2 by {
      assert Join(ps[1..], ';') == p1 + ";" + p2 by {
        assert ps[1..][1..] == [p2];
      }
    }
    SplitJoin(ps, ';');
  }

  lemma PlainParamSegment(name: string, value: string)
    requires Plain(name) && Plain(value)
    ensures |name + "=" + value| > 0 && !HasChar(name + "=" + value, ';')
  {
    HasCharConcat(name, "=", ';');
    HasCharConcat(name + "=", value, ';');
  }

  lemma ParseEachOfTwo(p1: string, p2: string, unquote: bool)
    ensures ParseEach([p1, p2], unquote) == [ParseParam(p1, unquote), ParseParam(p2, unquote)]
  {
    var segments := [p1, p2];
    assert segments[1..] == [p2];
    assert segments[1..][1..] == [];
  }

  lemma ParseTwoParams(p1: string, p2: string, unquote: bool, a: Param, b: Param)
    requires ParseParam(p1, unquote) == Ok(a) && ParseParam(p2, unquote) == Ok(b)
    ensures ParseParams([p1, p2], unquote) == Ok([a, b])
  {
    ParseEachOfTwo(p1, p2, unquote);
    SequenceOfTwo<Param, Exception>(a, b);
  }

  lemma LastValueOfTwo(a: Param, b: Param)
    requires a.name != b.name
    ensures LastValue([a, b], a.name) == Some(a.value)
    ensures LastValue([a, b], b.name) == Some(b.value)
  {
    assert [a, b][..1] == [a];
  }

  /** The descriptor of a header whose segments and parameters are known. */
  lemma DescriptorOfSegments(header: string, marker: string, unquote: bool, mime: string, p1: string, p2: string, a: Param, b: Param)
    requires a.name != b.name
    ensures (Contains(header, marker) && Split(header, ';') == [mime, p1, p2] && Trim(mime) == mime
             && ParseParams([p1, p2], unquote) == Ok([a, b])) ==>
      Descriptor(header, marker, unquote, a.name, b.name) == Ok(Some((mime, Some(a.value), Some(b.value))))
  {
    if !Contains(header, marker) || Split(header, ';') != [mime, p1, p2] || Trim(mime) != mime
      || ParseParams([p1, p2], unquote) != Ok([a, b])
    {
      return;
    }
    assert Split(header, ';')[1..] == [p1, p2];
    LastValueOfTwo(a, b);
  }

  /** A header with the marker in its MIME type and two well-formed parameter segments. */
  lemma DescriptorOfTwoParams(mime: string, p1: string, p2: string, marker: string, unquote: bool, a: Param, b: Param)
    requires |p1| > 0 && |p2| > 0 && !HasChar(p1, ';') && !HasChar(p2, ';')
    requires a.name != b.name
    ensures Plain(mime) && Contains(mime, marker) && ParseParam(p1, unquote) == Ok(a) && ParseParam(p2, unquote) == Ok(b) ==>
      Descriptor(mime + ";" + p1 + ";" + p2, marker, unquote, a.name, b.name) == Ok(Some((mime, Some(a.value), Some(b.value))))
  {
    if !Plain(mime) || !Contains(mime, marker) || ParseParam(p1, unquote) != Ok(a) || ParseParam(p2, unquote) != Ok(b) {
      return;
    }
    var header := mime + ";" + p1 + ";" + p2;
    ContainsExtend(mime, ";", marker);
    ContainsExtend(mime + ";", p1, marker);
    ContainsExtend(mime + ";" + p1, ";", marker);
    ContainsExtend(mime + ";" + p1 + ";", p2, marker);
    HeaderSegments(mime, p1, p2);
    ParseTwoParams(p1, p2, unquote, a, b);
    DescriptorOfSegments(header, marker, unquote, mime, p1, p2, a, b);
  }

  lemma ApplicationSmimeHeader(mime: string, smimeType: string, name: string)
    ensures mime + ";" + ("smime-type" + "=" + smimeType) + ";" + ("name" + "=" + name)
         == mime + ";smime-type=" + smimeType + ";name=" + name
  {
  }

  /**
   * The example header in the source's comment, in general: a MIME type
   * followed by `smime-type` and `name` parameters gives back exactly those
   * three.
   */
  lemma ApplicationSmimeRoundTrip(mime: string, smimeType: string, name: string)
    requires Plain(mime) && Contains(mime, "application/")
    requires Plain(smimeType) && Plain(name)
    ensures ApplicationSmimeOf(mime + ";smime-type=" + smimeType + ";name=" + name)
         == Ok(Some(ApplicationSmime(Some(mime), Some(smimeType), Some(name))))
  {
    var p1 := "smime-type" + "=" + smimeType;
    var p2 := "name" + "=" + name;
    ApplicationSmimeHeader(mime, smimeType, name);
    PlainParamSegment("smime-type", smimeType);
    PlainParamSegment("name", name);
    ParamRoundTrip("smime-type", smimeType, false);
    ParamRoundTrip("name", name, false);
    DescriptorOfTwoParams(mime, p1, p2, "application/", false, Param("smime-type", smimeType), Param("name", name));
  }

  lemma MultipartSignedHeader(mime: string, protocol: string, micalg: string)
    ensures mime + ";" + ("protocol" + "=" + ("\"" + protocol + "\"")) + ";" + ("micalg" + "=" + micalg)
         == mime + ";protocol=\"" + protocol + "\";micalg=" + micalg
  {
  }

  lemma QuotedIsPlain(p: string)
    requires !HasChar(p, ';') && !HasChar(p, '=')
    ensures Plain("\"" + p + "\"")
  {
    HasCharConcat("\"", p, ';');
    HasCharConcat("\"" + p, "\"", ';');
    HasCharConcat("\"", p, '=');
    HasCharConcat("\"" + p, "\"", '=');
  }

  /**
   * The example header in the source's comment, in general: a MIME type
   * followed by a quoted `protocol` and a bare `micalg` gives back the MIME
   * type, the unquoted protocol and the algorithm.
   */
  lemma MultipartSignedRoundTrip(mime: string, protocol: string, micalg: string)
    requires Plain(mime) && Contains(mime, "multipart/signed")
    requires !HasChar(protocol, ';') && !HasChar(protocol, '=') && NoLineTerminator(protocol)
    requires Plain(micalg) && micalg[0] != '"'
    ensures MultipartSignedOf(mime + ";protocol=\"" + protocol + "\";micalg=" + micalg)
         == Ok(Some(MultipartSigned(Some(mime), Some(protocol), Some(micalg))))
  {
    var quoted := "\"" + protocol + "\"";
    QuotedIsPlain(protocol);
    var p1 := "protocol" + "=" + quoted;
    var p2 := "micalg" + "=" + micalg;
    MultipartSignedHeader(mime, protocol, micalg);
    PlainParamSegment("protocol", quoted);
    PlainParamSegment("micalg", micalg);
    ParamRoundTrip("protocol", quoted, true);
    ParamRoundTrip("micalg", micalg, true);
    StripQuotePairOfQuoted(protocol);
    DescriptorOfTwoParams(mime, p1, p2, "multipart/signed", true, Param("protocol", protocol), Param("micalg", micalg));
  }
}
