/**
 * An Outlook message as the current parser builds it: the fields its
 * property setter fills, each with its own overwrite policy, the raw map of
 * every property seen, the recipients and the attachments (files and
 * nested messages).
 */
module OutlookMessage {
  import opened Wrappers
  import opened JavaLang
  import opened Collaborators
  import opened MapiProperty
  import opened OutlookSmime
  import SmimeHeader
  import OutlookRecipient
  import OutlookFileAttachment

  const TAG_MESSAGE_CLASS: int := 0x1a
  const TAG_MESSAGE_ID: int := 0x1035
  const TAG_SUBJECT: int := 0x37
  const TAG_NORMALIZED_SUBJECT: int := 0xe1d
  const TAG_SENDER_EMAIL: int := 0xc1f
  const TAG_SENT_REPRESENTING_EMAIL: int := 0x65
  const TAG_LAST_MODIFIER_NAME: int := 0x3ffa
  const TAG_SENT_REPRESENTING_NAME: int := 0x42
  const TAG_DISPLAY_TO: int := 0xe04
  const TAG_DISPLAY_CC: int := 0xe03
  const TAG_DISPLAY_BCC: int := 0xe02
  const TAG_HTML: int := 0x1013
  const TAG_BODY: int := 0x1000
  const TAG_RTF_COMPRESSED: int := 0x1009
  const TAG_TRANSPORT_HEADERS: int := 0x7d
  const TAG_CREATION_TIME: int := 0x3007
  const TAG_LAST_MODIFICATION_TIME: int := 0x3008
  const TAG_CLIENT_SUBMIT_TIME: int := 0x39
  const TAG_SMIME_MULTIPART_SIGNED: int := 0x8003
  const TAG_SMIME_APPLICATION: int := 0x8005

  /** The tags whose value may become the sender's address. */
  const FROM_EMAIL_TAGS: set<int> := {TAG_SENDER_EMAIL, TAG_SENT_REPRESENTING_EMAIL, TAG_LAST_MODIFIER_NAME}

  /** Every tag the setter gives a field of its own; all others only reach the raw map. */
  const HANDLED_TAGS: set<int> := {
    TAG_MESSAGE_CLASS, TAG_MESSAGE_ID, TAG_SUBJECT, TAG_NORMALIZED_SUBJECT,
    TAG_SENDER_EMAIL, TAG_SENT_REPRESENTING_EMAIL, TAG_LAST_MODIFIER_NAME,
    TAG_SENT_REPRESENTING_NAME, TAG_DISPLAY_TO, TAG_DISPLAY_CC, TAG_DISPLAY_BCC,
    TAG_HTML, TAG_BODY, TAG_RTF_COMPRESSED, TAG_TRANSPORT_HEADERS,
    TAG_CREATION_TIME, TAG_LAST_MODIFICATION_TIME, TAG_CLIENT_SUBMIT_TIME,
    TAG_SMIME_MULTIPART_SIGNED, TAG_SMIME_APPLICATION}

  const DEFAULT_MESSAGE_CLASS: string := "IPM.Note"

  /** An attachment: a file, or another message embedded in this one. */
  datatype Attachment =
    | FileAttachment(file: OutlookFileAttachment.FileAttachment)
    | MsgAttachment(message: Message)

  /** Dates are epoch milliseconds; `None` is a null reference throughout. */
  datatype Message = Message(
    messageClass: string,
    messageId: Option<string>,
    fromEmail: Option<string>,
    fromName: Option<string>,
    replyToEmail: Option<string>,
    replyToName: Option<string>,
    smime: Option<Smime>,
    subject: Option<string>,
    bodyText: Option<string>,
    displayTo: Option<string>,
    displayCc: Option<string>,
    displayBcc: Option<string>,
    bodyRTF: Option<string>,
    bodyHTML: Option<string>,
    convertedBodyHTML: Option<string>,
    headers: Option<string>,
    date: Option<int>,
    clientSubmitTime: Option<int>,
    creationDate: Option<int>,
    lastModificationDate: Option<int>,
    attachments: seq<Attachment>,
    properties: map<int, Value>,
    recipients: seq<OutlookRecipient.Recipient>)

  function NewMessage(): (m: Message)
    ensures m.messageClass == DEFAULT_MESSAGE_CLASS
    ensures m.fromEmail.None? && m.bodyText.None? && m.bodyRTF.None? && m.bodyHTML.None? && m.smime.None?
    ensures m.attachments == [] && m.recipients == [] && m.properties == map[]
  {
    Message(DEFAULT_MESSAGE_CLASS, None, None, None, None, None, None, None, None, None, None, None,
            None, None, None, None, None, None, None, None, [], map[], [])
  }

  function AddAttachment(m: Message, a: Attachment): (m': Message)
    ensures m'.attachments == m.attachments + [a]
    ensures m' == m.(attachments := m'.attachments)
  {
    m.(attachments := m.attachments + [a])
  }

  function AddRecipient(m: Message, r: OutlookRecipient.Recipient): (m': Message)
    ensures m'.recipients == m.recipients + [r]
    ensures m' == m.(recipients := m'.recipients)
  {
    m.(recipients := m.recipients + [r])
  }

  /** Every sender address the message holds contains an `@`. */
  predicate Valid(m: Message) {
    m.fromEmail.Some? ==> '@' in m.fromEmail.value
  }

  // ---------------------------------------------------------------------
  // Field setters

  /**
   * `setFromEmail(value, force)`: a value with an `@` is taken when forced
   * or when no address is set yet.
   */
  function SetFromEmailForced(m: Message, email: string, force: bool): (m': Message)
    ensures m' == m || m' == m.(fromEmail := Some(email))
    ensures m'.fromEmail != m.fromEmail ==> '@' in email && (force || m.fromEmail.None?)
    ensures Valid(m) ==> Valid(m')
  {
    ContainsChar(email, '@');
    if (force || m.fromEmail.None?) && Contains(email, "@") then m.(fromEmail := Some(email)) else m
  }

  /**
   * `setFromEmail(value)`: forces exactly the values that contain an `@`,
   * so any such value replaces the address and any other is dropped.
   */
  function SetFromEmail(m: Message, email: string): (m': Message)
    ensures '@' in email ==> m' == m.(fromEmail := Some(email))
    ensures '@' !in email ==> m' == m
  {
    ContainsChar(email, '@');
    SetFromEmailForced(m, email, Contains(email, "@"))
  }

  /** `setBodyText`: the first value wins. */
  function SetBodyText(m: Message, text: string): (m': Message)
    ensures m.bodyText.Some? ==> m' == m
    ensures m.bodyText.None? ==> m' == m.(bodyText := Some(text))
  {
    if m.bodyText.None? then m.(bodyText := Some(text)) else m
  }

  /** `setBodyHTML`: a value replaces the current one unless the current one is longer. */
  function SetBodyHTML(m: Message, html: string): (m': Message)
    ensures m' == m || m' == m.(bodyHTML := Some(html))
    ensures m'.bodyHTML.Some?
    ensures m.bodyHTML.Some? ==> Utf16Length(m.bodyHTML.value) <= Utf16Length(m'.bodyHTML.value)
    ensures m'.bodyHTML.value == html <==> m.bodyHTML.None? || Utf16Length(m.bodyHTML.value) <= Utf16Length(html) || m.bodyHTML.value == html
  {
    if m.bodyHTML.None? || Utf16Length(m.bodyHTML.value) <= Utf16Length(html) then m.(bodyHTML := Some(html)) else m
  }

  /**
   * `setBodyRTF`: only the first compressed-RTF byte array that decompresses
   * is kept, decoded as windows-1252, and its conversion to HTML becomes the
   * converted body. A converter that throws leaves the RTF set and the
   * converted body as it was; a text value is ignored.
   */
  function SetBodyRTF(m: Message, v: Value, env: Collaborators): (m': Message)
    ensures m.bodyRTF.Some? || !v.Binary? ==> m' == m
    ensures m'.bodyRTF != m.bodyRTF ==>
      m.bodyRTF.None? && v.Binary? && env.decompressRtf(v.bytes).Some?
      && m'.bodyRTF == Some(env.decode(WINDOWS_1252, env.decompressRtf(v.bytes).value))
    ensures m' == m.(bodyRTF := m'.bodyRTF, convertedBodyHTML := m'.convertedBodyHTML)
    ensures m'.convertedBodyHTML != m.convertedBodyHTML ==>
      m'.bodyRTF.Some? && m'.convertedBodyHTML == env.rtfToHtml(m'.bodyRTF.value)
  {
    if m.bodyRTF.Some? || !v.Binary? then m
    else
      match env.decompressRtf(v.bytes)
      case None => m
      case Some(decompressed) =>
        var rtf := env.decode(WINDOWS_1252, decompressed);
        match env.rtfToHtml(rtf)
        case None => m.(bodyRTF := Some(rtf))
        case Some(html) => m.(bodyRTF := Some(rtf), convertedBodyHTML := Some(html))
  }

  /** `setCreationDate`: a parsable value sets both the creation date and the date. */
  function SetCreationDate(m: Message, value: string, env: Collaborators): (m': Message)
    ensures env.parseDate(value).None? ==> m' == m
    ensures env.parseDate(value).Some? ==>
      m' == m.(creationDate := env.parseDate(value), date := env.parseDate(value))
  {
    match env.parseDate(value)
    case None => m
    case Some(d) => m.(creationDate := Some(d), date := Some(d))
  }

  /** `setLastModificationDate`: a parsable value replaces the date of last modification. */
  function SetLastModificationDate(m: Message, value: string, env: Collaborators): (m': Message)
    ensures env.parseDate(value).None? ==> m' == m
    ensures env.parseDate(value).Some? ==> m' == m.(lastModificationDate := env.parseDate(value))
  {
    match env.parseDate(value)
    case None => m
    case Some(d) => m.(lastModificationDate := Some(d))
  }

  /** `setClientSubmitTime`: a parsable value replaces the submit time. */
  function SetClientSubmitTime(m: Message, value: string, env: Collaborators): (m': Message)
    ensures env.parseDate(value).None? ==> m' == m
    ensures env.parseDate(value).Some? ==> m' == m.(clientSubmitTime := env.parseDate(value))
  {
    match env.parseDate(value)
    case None => m
    case Some(d) => m.(clientSubmitTime := Some(d))
  }

  // ---------------------------------------------------------------------
  // Transport headers

  /** The address a `From:` token yields: the token without angle brackets, trimmed. */
  function CleanAddressToken(token: string): (r: string)
    ensures '@' in token ==> '@' in r
    ensures '<' !in r && '>' !in r
  {
    var stripped := RemoveChars(token, {'<', '>'});
    assert '@' in stripped ==> '@' in Trim(stripped) by {
      if '@' in stripped { TrimKeepsChar(stripped, '@'); }
    }
    assert '<' !in Trim(stripped) && '>' !in Trim(stripped) by {
      if '<' in Trim(stripped) { TrimSubset(stripped, '<'); }
      if '>' in Trim(stripped) { TrimSubset(stripped, '>'); }
    }
    Trim(stripped)
  }

  /** The first token containing an `@`, cleaned. */
  function FirstAddressToken(tokens: seq<string>): (r: Option<string>)
    ensures r.None? <==> forall k :: 0 <= k < |tokens| ==> '@' !in tokens[k]
    ensures r.Some? ==> exists k :: 0 <= k < |tokens| && '@' in tokens[k] && r.value == CleanAddressToken(tokens[k])
    ensures r.Some? ==> '@' in r.value
    decreases |tokens|
  {
    if |tokens| == 0 then None
    else if '@' in tokens[0] then Some(CleanAddressToken(tokens[0]))
    else
      var r := FirstAddressToken(tokens[1..]);
      assert forall k :: 1 <= k < |tokens| ==> tokens[k] == tokens[1..][k - 1];
      r
  }

  /** What one header line offers as sender address: the first address token of a `From: ` line. */
  function FromLineAddress(line: string): Option<string> {
    if StartsWith(ToUpper(line), "FROM: ") then FirstAddressToken(Split(line, ' ')) else None
  }

  /** What each header line offers as sender address. */
  function LineAddresses(lines: seq<string>): (r: seq<Option<string>>)
    ensures |r| == |lines|
    ensures forall k :: 0 <= k < |lines| ==> r[k] == FromLineAddress(lines[k])
    decreases |lines|
  {
    if |lines| == 0 then [] else [FromLineAddress(lines[0])] + LineAddresses(lines[1..])
  }

  /**
   * `getFromEmailFromHeaders`: the address of the first `From: ` line that
   * has a token with an `@`; lines without one are passed over.
   */
  function FromEmailFromHeaders(headers: string): (r: Option<string>)
    ensures r.Some? ==> '@' in r.value
  {
    var offered := LineAddresses(Split(headers, '\n'));
    var r := FirstSome(offered);
    assert r.Some? ==> '@' in r.value by {
      if r.Some? {
        var k :| 0 <= k < |offered| && offered[k] == r && forall j :: 0 <= j < k ==> offered[j].None?;
      }
    }
    r
  }

  /** The date one header line offers: a `date:` line whose trimmed value parses. */
  function DateLineValue(line: string, env: Collaborators): Option<int> {
    if StartsWith(ToLower(line), "date:") then env.headerDate(Trim(line[5..])) else None
  }

  /** What each header line offers as date. */
  function LineDates(lines: seq<string>, env: Collaborators): (r: seq<Option<int>>)
    ensures |r| == |lines|
    ensures forall k :: 0 <= k < |lines| ==> r[k] == DateLineValue(lines[k], env)
    decreases |lines|
  {
    if |lines| == 0 then [] else [DateLineValue(lines[0], env)] + LineDates(lines[1..], env)
  }

  /** `getDateFromHeaders`: the first `Date:` line whose value parses; later ones are not consulted. */
  function DateFromHeaders(headers: string, env: Collaborators): Option<int> {
    FirstSome(LineDates(Split(headers, '\n'), env))
  }

  /**
   * `setHeaders`: keeps the header block, takes its date when one parses,
   * and offers its `From:` address to `setFromEmail`.
   */
  function SetHeaders(m: Message, headers: string, env: Collaborators): (m': Message)
    ensures m'.headers == Some(headers)
    ensures m'.date == (if DateFromHeaders(headers, env).Some? then DateFromHeaders(headers, env) else m.date)
    ensures m'.fromEmail == (if FromEmailFromHeaders(headers).Some? then FromEmailFromHeaders(headers) else m.fromEmail)
    ensures m' == m.(headers := m'.headers, date := m'.date, fromEmail := m'.fromEmail)
  {
    var withHeaders := m.(headers := Some(headers));
    var withDate :=
      match DateFromHeaders(headers, env)
      case None => withHeaders
      case Some(d) => withHeaders.(date := Some(d));
    match FromEmailFromHeaders(headers)
    case None => withDate
    case Some(s) => SetFromEmail(withDate, s)
  }

  // ---------------------------------------------------------------------
  // setProperty

  /** `convertValueToString`: text as is, bytes as UTF-8, a date through `Date.toString()`. */
  function ValueToString(v: Value, env: Collaborators): (s: string)
    ensures v.Text? ==> s == v.text
    ensures v.Binary? ==> s == env.decode(UTF_8, v.bytes)
    ensures v.Time? ==> s == env.dateToString(v.millis)
  {
    match v
    case Text(t) => t
    case Binary(b) => env.decode(UTF_8, b)
    case Time(millis) => env.dateToString(millis)
  }

  /** `setSmime` with the descriptor a header yields; a header that yields none leaves the message alone. */
  function SetSmimeFrom(m: Message, parsed: Result<Option<Smime>, Exception>): (r: Result<Message, Exception>)
    ensures r.Err? <==> parsed.Err?
    ensures parsed.Ok? && parsed.value.None? ==> r == Ok(m)
    ensures parsed.Ok? && parsed.value.Some? ==> r == Ok(m.(smime := parsed.value))
  {
    match parsed
    case Err(e) => Err(e)
    case Ok(None) => Ok(m)
    case Ok(Some(s)) => Ok(m.(smime := Some(s)))
  }

  const TEXT_FIELD_TAGS: set<int> := {
    TAG_MESSAGE_CLASS, TAG_MESSAGE_ID, TAG_SUBJECT, TAG_NORMALIZED_SUBJECT,
    TAG_SENT_REPRESENTING_NAME, TAG_DISPLAY_TO, TAG_DISPLAY_CC, TAG_DISPLAY_BCC}
  const BODY_TAGS: set<int> := {TAG_HTML, TAG_BODY, TAG_RTF_COMPRESSED}
  const SENDER_AND_DATE_TAGS: set<int> := {
    TAG_SENDER_EMAIL, TAG_SENT_REPRESENTING_EMAIL, TAG_LAST_MODIFIER_NAME, TAG_TRANSPORT_HEADERS,
    TAG_CREATION_TIME, TAG_LAST_MODIFICATION_TIME, TAG_CLIENT_SUBMIT_TIME}

  /** The cases of the switch that store the text in a field as it is: the last value wins. */
  function DispatchText(m: Message, tag: int, s: string): (m': Message)
    requires tag in TEXT_FIELD_TAGS
    ensures m' == m.(messageClass := m'.messageClass, messageId := m'.messageId, subject := m'.subject,
                     fromName := m'.fromName, displayTo := m'.displayTo, displayCc := m'.displayCc,
                     displayBcc := m'.displayBcc)
  {
    if tag == TAG_MESSAGE_CLASS then m.(messageClass := s)
    else if tag == TAG_MESSAGE_ID then m.(messageId := Some(s))
    else if tag == TAG_SUBJECT || tag == TAG_NORMALIZED_SUBJECT then m.(subject := Some(s))
    else if tag == TAG_SENT_REPRESENTING_NAME then m.(fromName := Some(s))
    else if tag == TAG_DISPLAY_TO then m.(displayTo := Some(s))
    else if tag == TAG_DISPLAY_CC then m.(displayCc := Some(s))
    else m.(displayBcc := Some(s))
  }

  /** The cases of the switch for the three bodies. */
  function DispatchBody(m: Message, tag: int, v: Value, env: Collaborators): (m': Message)
    requires tag in BODY_TAGS
    ensures m' == m.(bodyText := m'.bodyText, bodyHTML := m'.bodyHTML, bodyRTF := m'.bodyRTF,
                     convertedBodyHTML := m'.convertedBodyHTML)
    ensures m.bodyText.Some? ==> m'.bodyText == m.bodyText
    ensures m.bodyText.None? ==> m'.bodyText == (if tag == TAG_BODY then Some(ValueToString(v, env)) else None)
    ensures m.bodyRTF.Some? ==> m'.bodyRTF == m.bodyRTF
    ensures m.bodyHTML.Some? ==> m'.bodyHTML.Some? && Utf16Length(m.bodyHTML.value) <= Utf16Length(m'.bodyHTML.value)
  {
    var s := ValueToString(v, env);
    if tag == TAG_HTML then SetBodyHTML(m, s)
    else if tag == TAG_BODY then SetBodyText(m, s)
    else SetBodyRTF(m, v, env)
  }

  /** The cases of the switch for the sender address, the header block and the dates. */
  function DispatchSenderAndDates(m: Message, tag: int, s: string, env: Collaborators): (m': Message)
    requires tag in SENDER_AND_DATE_TAGS
    ensures m' == m.(fromEmail := m'.fromEmail, headers := m'.headers, date := m'.date,
                     creationDate := m'.creationDate, lastModificationDate := m'.lastModificationDate,
                     clientSubmitTime := m'.clientSubmitTime)
  {
    if tag in FROM_EMAIL_TAGS then SetFromEmail(m, s)
    else if tag == TAG_TRANSPORT_HEADERS then SetHeaders(m, s, env)
    else if tag == TAG_CREATION_TIME then SetCreationDate(m, s, env)
    else if tag == TAG_LAST_MODIFICATION_TIME then SetLastModificationDate(m, s, env)
    else SetClientSubmitTime(m, s, env)
  }

  /** The field update the setter's switch makes for one tag, before the raw map is updated. */
  function Dispatch(m: Message, tag: int, v: Value, env: Collaborators): (r: Result<Message, Exception>)
    ensures r.Err? ==> tag in {TAG_SMIME_MULTIPART_SIGNED, TAG_SMIME_APPLICATION}
    ensures tag !in HANDLED_TAGS ==> r == Ok(m)
    ensures r.Ok? && tag in {TAG_SMIME_MULTIPART_SIGNED, TAG_SMIME_APPLICATION} ==> r.value == m.(smime := r.value.smime)
    ensures r.Ok? ==> r.value.attachments == m.attachments && r.value.recipients == m.recipients
    ensures r.Ok? && m.bodyText.Some? ==> r.value.bodyText == m.bodyText
    ensures r.Ok? && m.bodyText.None? ==> r.value.bodyText == (if tag == TAG_BODY then Some(ValueToString(v, env)) else None)
    ensures r.Ok? && m.bodyRTF.Some? ==> r.value.bodyRTF == m.bodyRTF
    ensures r.Ok? && m.bodyHTML.Some? ==> r.value.bodyHTML.Some? && Utf16Length(m.bodyHTML.value) <= Utf16Length(r.value.bodyHTML.value)
  {
    var s := ValueToString(v, env);
    if tag in TEXT_FIELD_TAGS then Ok(DispatchText(m, tag, s))
    else if tag in BODY_TAGS then Ok(DispatchBody(m, tag, v, env))
    else if tag in SENDER_AND_DATE_TAGS then Ok(DispatchSenderAndDates(m, tag, s, env))
    else if tag == TAG_SMIME_MULTIPART_SIGNED then SetSmimeFrom(m, SmimeHeader.MultipartSignedOf(s))
    else if tag == TAG_SMIME_APPLICATION then SetSmimeFrom(m, SmimeHeader.ApplicationSmimeOf(s))
    else Ok(m)
  }

  /**
   * `setProperty`: a property with a null class or value changes nothing;
   * otherwise its tag (the class parsed as hexadecimal, -1 when it does not
   * parse) picks the field to update, and the value is recorded in the raw
   * map under that tag. Only a malformed S/MIME header throws, and then the
   * map is not updated either.
   */
  function SetProperty(m: Message, p: Property, env: Collaborators): (r: Result<Message, Exception>)
    ensures p.clazz.None? || p.data.None? ==> r == Ok(m)
    ensures r.Err? ==> p.clazz.Some? && MapiClass(p.clazz.value) in {TAG_SMIME_MULTIPART_SIGNED, TAG_SMIME_APPLICATION}
    ensures r.Ok? && p.clazz.Some? && p.data.Some? ==>
      r.value.properties == m.properties[MapiClass(p.clazz.value) := p.data.value]
    ensures p.clazz.Some? && p.data.Some? && MapiClass(p.clazz.value) !in HANDLED_TAGS ==>
      r == Ok(m.(properties := m.properties[MapiClass(p.clazz.value) := p.data.value]))
    ensures r.Ok? ==> r.value.attachments == m.attachments && r.value.recipients == m.recipients
  {
    if p.clazz.None? || p.data.None? then Ok(m)
    else
      var tag := MapiClass(p.clazz.value);
      match Dispatch(m, tag, p.data.value, env)
      case Err(e) => Err(e)
      case Ok(m') => Ok(m'.(properties := m'.properties[tag := p.data.value]))
  }

  /** Every property of the message's own property streams, in order; the first exception stops it. */
  function SetProperties(m: Message, ps: seq<Property>, env: Collaborators): (r: Result<Message, Exception>)
    decreases |ps|
  {
    if |ps| == 0 then Ok(m)
    else
      match SetProperty(m, ps[0], env)
      case Err(e) => Err(e)
      case Ok(m') => SetProperties(m', ps[1..], env)
  }
}
