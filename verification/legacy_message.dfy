/**
 * The message of the older `com.auxilii.msgparser` API, which the older
 * parser fills: the same overwrite policies as the current message for the
 * fields both have, plus the "to" address and name, which follow the
 * recipient the display-to string names, and a setter that never casts.
 * Its recipient entries behave exactly like the current recipients, so
 * they are modelled by the same datatype.
 */
module LegacyMessage {
  import opened Wrappers
  import opened JavaLang
  import opened Collaborators
  import opened MapiProperty
  import OutlookRecipient
  import FileOutlookAttachment
  import OM = OutlookMessage
  import MessageView

  type Recipient = OutlookRecipient.Recipient

  const TAG_RECEIVED_BY_EMAIL: int := 0x76
  const TAG_TO_EMAIL: int := 0x8000
  const TAG_DISPLAY_NAME: int := 0x3001

  /** The tags whose value may become the sender's address; the older class adds two named-property tags. */
  const FROM_EMAIL_TAGS: set<int> := {OM.TAG_SENDER_EMAIL, OM.TAG_SENT_REPRESENTING_EMAIL, OM.TAG_LAST_MODIFIER_NAME, 0x800d, 0x8008}
  const ADDRESS_TAGS: set<int> := FROM_EMAIL_TAGS + {TAG_RECEIVED_BY_EMAIL, TAG_TO_EMAIL, TAG_DISPLAY_NAME}
  const HEADER_AND_DATE_TAGS: set<int> := {
    OM.TAG_TRANSPORT_HEADERS, OM.TAG_CREATION_TIME, OM.TAG_LAST_MODIFICATION_TIME, OM.TAG_CLIENT_SUBMIT_TIME}

  /** Every tag the setter gives a field of its own; all others only reach the raw map. */
  const HANDLED_TAGS: set<int> := OM.TEXT_FIELD_TAGS + OM.BODY_TAGS + ADDRESS_TAGS + HEADER_AND_DATE_TAGS

  /** An attachment: a file of the older attachment package, or an embedded message. */
  datatype Attachment =
    | FileAttachment(file: FileOutlookAttachment.FileAttachment)
    | MsgAttachment(message: Message)

  /**
   * Dates are epoch milliseconds; `None` is a null reference. The Reply-To
   * fields are the ones the older parser sets after the walk.
   */
  datatype Message = Message(
    messageClass: string,
    messageId: Option<string>,
    fromEmail: Option<string>,
    fromName: Option<string>,
    toEmail: Option<string>,
    toName: Option<string>,
    replyToEmail: Option<string>,
    replyToName: Option<string>,
    subject: Option<string>,
    bodyText: Option<string>,
    displayTo: Option<string>,
    displayCc: Option<string>,
    displayBcc: Option<string>,
    bodyRTF: Option<string>,
    bodyHTML: Option<string>,
    convertedBodyHTML: Option<string>,
    headers: Option<string>,
    date: Option<int>,
    clientSubmitTime: Option<int>,
    creationDate: Option<int>,
    lastModificationDate: Option<int>,
    attachments: seq<Attachment>,
    properties: map<int, Value>,
    recipients: seq<Recipient>)

  function NewMessage(): (m: Message)
    ensures m.messageClass == OM.DEFAULT_MESSAGE_CLASS
    ensures m.fromEmail.None? && m.toEmail.None? && m.toName.None? && m.displayTo.None?
    ensures m.bodyText.None? && m.bodyRTF.None? && m.bodyHTML.None?
    ensures m.attachments == [] && m.recipients == [] && m.properties == map[]
  {
    Message(OM.DEFAULT_MESSAGE_CLASS, None, None, None, None, None, None, None, None, None, None, None, None,
            None, None, None, None, None, None, None, None, [], map[], [])
  }

  function AddAttachment(m: Message, a: Attachment): (m': Message)
    ensures m'.attachments == m.attachments + [a]
    ensures m' == m.(attachments := m'.attachments)
  {
    m.(attachments := m.attachments + [a])
  }

  /** Every sender and "to" address the message holds contains an `@`. */
  predicate Valid(m: Message) {
    (m.fromEmail.Some? ==> '@' in m.fromEmail.value) && (m.toEmail.Some? ==> '@' in m.toEmail.value)
  }

  // ---------------------------------------------------------------------
  // Field setters

  /** `setFromEmail(value, force)`: a value with an `@` is taken when forced or when no address is set yet. */
  function SetFromEmailForced(m: Message, email: string, force: bool): (m': Message)
    ensures m' == m || m' == m.(fromEmail := Some(email))
    ensures m'.fromEmail != m.fromEmail ==> '@' in email && (force || m.fromEmail.None?)
    ensures (force || m.fromEmail.None?) && '@' in email ==> m'.fromEmail == Some(email)
  {
    ContainsChar(email, '@');
    if (force || m.fromEmail.None?) && Contains(email, "@") then m.(fromEmail := Some(email)) else m
  }

  /** `setFromEmail(value)`: forces exactly the values that contain an `@`. */
  function SetFromEmail(m: Message, email: string): (m': Message)
    ensures '@' in email ==> m' == m.(fromEmail := Some(email))
    ensures '@' !in email ==> m' == m
  {
    ContainsChar(email, '@');
    SetFromEmailForced(m, email, Contains(email, "@"))
  }

  /** `setToEmail(value, force)`: a non-null value with an `@` is taken when forced or when none is set yet. */
  function SetToEmail(m: Message, email: Option<string>, force: bool): (m': Message)
    ensures m' == m || m' == m.(toEmail := email)
    ensures m'.toEmail != m.toEmail ==> email.Some? && '@' in email.value && (force || m.toEmail.None?)
    ensures (force || m.toEmail.None?) && email.Some? && '@' in email.value ==> m'.toEmail == email
  {
    if email.Some? then ContainsChar(email.value, '@'); SetToEmailPresent(m, email.value, force) else m
  }

  function SetToEmailPresent(m: Message, email: string, force: bool): (m': Message)
    ensures m' == m || m' == m.(toEmail := Some(email))
    ensures m'.toEmail != m.toEmail <==> (force || m.toEmail.None?) && '@' in email && m.toEmail != Some(email)
  {
    ContainsChar(email, '@');
    if (force || m.toEmail.None?) && Contains(email, "@") then m.(toEmail := Some(email)) else m
  }

  /** `setToName`: a non-null value is stored trimmed. */
  function SetToName(m: Message, name: Option<string>): (m': Message)
    ensures name.None? ==> m' == m
    ensures name.Some? ==> m' == m.(toName := Some(Trim(name.value)))
  {
    if name.Some? then m.(toName := Some(Trim(name.value))) else m
  }

  /** `setBodyText`: the first value wins. */
  function SetBodyText(m: Message, text: string): (m': Message)
    ensures m.bodyText.Some? ==> m' == m
    ensures m.bodyText.None? ==> m' == m.(bodyText := Some(text))
  {
    if m.bodyText.None? then m.(bodyText := Some(text)) else m
  }

  /** `setBodyHTML(value, true)`: a value replaces the current one unless the current one is longer. */
  function SetBodyHTML(m: Message, html: string): (m': Message)
    ensures m' == m || m' == m.(bodyHTML := Some(html))
    ensures m'.bodyHTML.Some?
    ensures m.bodyHTML.Some? ==> Utf16Length(m.bodyHTML.value) <= Utf16Length(m'.bodyHTML.value)
    ensures m'.bodyHTML.value == html <==> m.bodyHTML.None? || Utf16Length(m.bodyHTML.value) <= Utf16Length(html) || m.bodyHTML.value == html
  {
    if m.bodyHTML.None? || Utf16Length(m.bodyHTML.value) <= Utf16Length(html) then m.(bodyHTML := Some(html)) else m
  }

  /**
   * `setBodyRTF`: only the first compressed-RTF byte array that decompresses
   * is kept, decoded as windows-1252, and the message's own converter
   * turns it into the converted body; a converter that throws leaves the
   * RTF set and the converted body as it was.
   */
  function SetBodyRTF(m: Message, v: Value, env: Collaborators, converter: string -> Option<string>): (m': Message)
    ensures m.bodyRTF.Some? || !v.Binary? ==> m' == m
    ensures m'.bodyRTF != m.bodyRTF ==>
      m.bodyRTF.None? && v.Binary? && env.decompressRtf(v.bytes).Some?
      && m'.bodyRTF == Some(env.decode(WINDOWS_1252, env.decompressRtf(v.bytes).value))
    ensures m' == m.(bodyRTF := m'.bodyRTF, convertedBodyHTML := m'.convertedBodyHTML)
    ensures m'.convertedBodyHTML != m.convertedBodyHTML ==>
      m'.bodyRTF.Some? && m'.convertedBodyHTML == converter(m'.bodyRTF.value)
  {
    if m.bodyRTF.Some? || !v.Binary? then m
    else
      match env.decompressRtf(v.bytes)
      case None => m
      case Some(decompressed) =>
        var rtf := env.decode(WINDOWS_1252, decompressed);
        match converter(rtf)
        case None => m.(bodyRTF := Some(rtf))
        case Some(html) => m.(bodyRTF := Some(rtf), convertedBodyHTML := Some(html))
  }

  /**
   * `setHeaders`: keeps the header block, takes its date when one parses,
   * and offers its `From:` address to `setFromEmail`; the scraping is the
   * same as the current message's.
   */
  function SetHeaders(m: Message, headers: string, env: Collaborators): (m': Message)
    ensures m'.headers == Some(headers)
    ensures m'.date == (if OM.DateFromHeaders(headers, env).Some? then OM.DateFromHeaders(headers, env) else m.date)
    ensures m'.fromEmail == (if OM.FromEmailFromHeaders(headers).Some? then OM.FromEmailFromHeaders(headers) else m.fromEmail)
    ensures m' == m.(headers := m'.headers, date := m'.date, fromEmail := m'.fromEmail)
  {
    var withHeaders := m.(headers := Some(headers));
    var withDate :=
      match OM.DateFromHeaders(headers, env)
      case None => withHeaders
      case Some(d) => withHeaders.(date := Some(d));
    match OM.FromEmailFromHeaders(headers)
    case None => withDate
    case Some(s) => SetFromEmail(withDate, s)
  }

  // ---------------------------------------------------------------------
  // setProperty

  /** `convertValueToString`: text as is, bytes as windows-1252, a date through `Date.toString()`. */
  function ValueToString(v: Value, env: Collaborators): (s: string)
    ensures v.Text? ==> s == v.text
    ensures v.Binary? ==> s == env.decode(WINDOWS_1252, v.bytes)
    ensures v.Time? ==> s == env.dateToString(v.millis)
  {
    match v
    case Text(t) => t
    case Binary(b) => env.decode(WINDOWS_1252, b)
    case Time(millis) => env.dateToString(millis)
  }

  /** The cases of the switch that store the text in a field as it is: the last value wins. */
  function DispatchText(m: Message, tag: int, s: string): (m': Message)
    requires tag in OM.TEXT_FIELD_TAGS
    ensures m' == m.(messageClass := m'.messageClass, messageId := m'.messageId, subject := m'.subject,
                     fromName := m'.fromName, displayTo := m'.displayTo, displayCc := m'.displayCc,
                     displayBcc := m'.displayBcc)
    ensures m'.displayTo != m.displayTo ==> tag == OM.TAG_DISPLAY_TO
  {
    if tag == OM.TAG_MESSAGE_CLASS then m.(messageClass := s)
    else if tag == OM.TAG_MESSAGE_ID then m.(messageId := Some(s))
    else if tag == OM.TAG_SUBJECT || tag == OM.TAG_NORMALIZED_SUBJECT then m.(subject := Some(s))
    else if tag == OM.TAG_SENT_REPRESENTING_NAME then m.(fromName := Some(s))
    else if tag == OM.TAG_DISPLAY_TO then m.(displayTo := Some(s))
    else if tag == OM.TAG_DISPLAY_CC then m.(displayCc := Some(s))
    else m.(displayBcc := Some(s))
  }

  /** The cases of the switch for the sender address and the "to" address and name. */
  function DispatchAddresses(m: Message, tag: int, s: string): (m': Message)
    requires tag in ADDRESS_TAGS
    ensures m' == m.(fromEmail := m'.fromEmail, toEmail := m'.toEmail, toName := m'.toName)
  {
    if tag in FROM_EMAIL_TAGS then SetFromEmail(m, s)
    else if tag == TAG_RECEIVED_BY_EMAIL then SetToEmail(m, Some(s), true)
    else if tag == TAG_TO_EMAIL then SetToEmail(m, Some(s), false)
    else SetToName(m, Some(s))
  }

  /** The cases of the switch for the three bodies. */
  function DispatchBody(m: Message, tag: int, v: Value, env: Collaborators, converter: string -> Option<string>): (m': Message)
    requires tag in OM.BODY_TAGS
    ensures m' == m.(bodyText := m'.bodyText, bodyHTML := m'.bodyHTML, bodyRTF := m'.bodyRTF,
                     convertedBodyHTML := m'.convertedBodyHTML)
  {
    var s := ValueToString(v, env);
    if tag == OM.TAG_HTML then SetBodyHTML(m, s)
    else if tag == OM.TAG_BODY then SetBodyText(m, s)
    else SetBodyRTF(m, v, env, converter)
  }

  /** The cases of the switch for the header block and the dates. */
  function DispatchHeadersAndDates(m: Message, tag: int, s: string, env: Collaborators): (m': Message)
    requires tag in HEADER_AND_DATE_TAGS
    ensures m' == m.(fromEmail := m'.fromEmail, headers := m'.headers, date := m'.date,
                     creationDate := m'.creationDate, lastModificationDate := m'.lastModificationDate,
                     clientSubmitTime := m'.clientSubmitTime)
  {
    if tag == OM.TAG_TRANSPORT_HEADERS then SetHeaders(m, s, env)
    else if tag == OM.TAG_CREATION_TIME then
      (match env.parseDate(s) case None => m case Some(d) => m.(creationDate := Some(d), date := Some(d)))
    else if tag == OM.TAG_LAST_MODIFICATION_TIME then
      (match env.parseDate(s) case None => m case Some(d) => m.(lastModificationDate := Some(d)))
    else
      (match env.parseDate(s) case None => m case Some(d) => m.(clientSubmitTime := Some(d)))
  }

  /** The field update the setter's switch makes for one tag; it never throws. */
  function Dispatch(m: Message, tag: int, v: Value, env: Collaborators, converter: string -> Option<string>): (m': Message)
    ensures tag !in HANDLED_TAGS ==> m' == m
    ensures m'.attachments == m.attachments && m'.recipients == m.recipients && m'.properties == m.properties
    ensures m'.displayTo != m.displayTo ==> tag == OM.TAG_DISPLAY_TO
  {
    var s := ValueToString(v, env);
    if tag in OM.TEXT_FIELD_TAGS then DispatchText(m, tag, s)
    else if tag in OM.BODY_TAGS then DispatchBody(m, tag, v, env, converter)
    else if tag in ADDRESS_TAGS then DispatchAddresses(m, tag, s)
    else if tag in HEADER_AND_DATE_TAGS then DispatchHeadersAndDates(m, tag, s, env)
    else m
  }

  /**
   * `setProperty`: a property with a null class or value changes nothing;
   * otherwise its tag picks the field to update, the value is recorded in
   * the raw map under the tag (-1 when the class does not parse), and the
   * "to" recipient is checked again, which is the only thing that can throw.
   */
  function SetProperty(m: Message, p: Property, env: Collaborators, converter: string -> Option<string>): (r: Result<Message, Exception>)
    ensures p.clazz.None? || p.data.None? ==> r == Ok(m)
    ensures r.Err? ==> r.error == NullPointer
    ensures r.Ok? && p.clazz.Some? && p.data.Some? ==>
      r.value.properties == m.properties[MapiClass(p.clazz.value) := p.data.value]
    ensures r.Ok? ==> r.value.attachments == m.attachments && multiset(r.value.recipients) == multiset(m.recipients)
  {
    if p.clazz.None? || p.data.None? then Ok(m)
    else
      var tag := MapiClass(p.clazz.value);
      var m' := Dispatch(m, tag, p.data.value, env, converter);
      var stored := m'.(properties := m'.properties[tag := p.data.value]);
      if CheckToRecipient(stored).Ok? then CheckToRecipientPermutes(stored); CheckToRecipient(stored)
      else CheckToRecipient(stored)
  }

  /** Every property of a stream, in order; the first exception stops it. */
  function SetProperties(m: Message, ps: seq<Property>, env: Collaborators, converter: string -> Option<string>): (r: Result<Message, Exception>)
    ensures r.Ok? ==> r.value.attachments == m.attachments && multiset(r.value.recipients) == multiset(m.recipients)
    decreases |ps|
  {
    if |ps| == 0 then Ok(m)
    else
      match SetProperty(m, ps[0], env, converter)
      case Err(e) => Err(e)
      case Ok(m') => SetProperties(m', ps[1..], env, converter)
  }

  // ---------------------------------------------------------------------
  // The "to" recipient

  /** The recipients from `from` up to `n` all have names, and `keep` rejects each of them. */
  predicate PassedOver(rs: seq<Recipient>, keep: Recipient -> bool, from: nat, n: nat)
    requires from <= n <= |rs|
  {
    forall j :: from <= j < n ==> rs[j].name.Some? && !keep(rs[j])
  }

  /**
   * The loop of `getToRecipient` from position `from`: the position of the
   * first recipient `keep` accepts; a nameless recipient reached first
   * throws, since its name is trimmed before the test.
   */
  function FindListed(rs: seq<Recipient>, keep: Recipient -> bool, from: nat): (r: Result<Option<nat>, Exception>)
    requires from <= |rs|
    ensures r.Err? ==> r.error == NullPointer
    ensures r.Ok? && r.value.Some? ==>
      from <= r.value.value < |rs| && rs[r.value.value].name.Some? && keep(rs[r.value.value]) && PassedOver(rs, keep, from, r.value.value)
    ensures r.Ok? && r.value.None? <==> PassedOver(rs, keep, from, |rs|)
    ensures r.Err? ==> exists j :: from <= j < |rs| && rs[j].name.None? && PassedOver(rs, keep, from, j)
    decreases |rs| - from
  {
    if from == |rs| then Ok(None)
    else if rs[from].name.None? then Err(NullPointer)
    else if keep(rs[from]) then Ok(Some(from))
    else FindListed(rs, keep, from + 1)
  }

  /** `getToRecipient`, as the position of the recipient it returns; a null display-to string finds none. */
  function GetToRecipient(m: Message): (r: Result<Option<nat>, Exception>)
    ensures m.displayTo.None? ==> r == Ok(None)
    ensures r.Ok? && r.value.Some? ==>
      r.value.value < |m.recipients| && MessageView.Listed(Trim(m.displayTo.value), m.recipients[r.value.value])
  {
    if m.displayTo.None? then Ok(None) else FindListed(m.recipients, MessageView.ListedUnder(Trim(m.displayTo.value)), 0)
  }

  /** `List.remove(Object)`: drops the first element equal to `x`, if there is one. */
  function RemoveFirst(rs: seq<Recipient>, x: Recipient): (r: seq<Recipient>)
    ensures (forall k :: 0 <= k < |rs| ==> !OutlookRecipient.Equals(x, rs[k])) ==> r == rs
    ensures multiset(r) <= multiset(rs)
    decreases |rs|
  {
    if |rs| == 0 then []
    else
      assert rs == [rs[0]] + rs[1..];
      if OutlookRecipient.Equals(x, rs[0]) then rs[1..]
      else
        var rest := RemoveFirst(rs[1..], x);
        assert forall k :: 0 <= k < |rs[1..]| ==> rs[1..][k] == rs[k + 1];
        [rs[0]] + rest
  }

  /** Removing by equality removes the first equal element and nothing else. */
  lemma {:induction false} RemoveFirstAt(rs: seq<Recipient>, x: Recipient, i: nat)
    requires i < |rs| && OutlookRecipient.Equals(x, rs[i])
    requires forall j :: 0 <= j < i ==> !OutlookRecipient.Equals(x, rs[j])
    ensures RemoveFirst(rs, x) == rs[..i] + rs[i + 1..]
    decreases i
  {
    if i > 0 {
      assert !OutlookRecipient.Equals(x, rs[0]);
      RemoveFirstAt(rs[1..], x, i - 1);
      assert rs[1..][..i - 1] == rs[1..i];
      assert rs[1..][i..] == rs[i + 1..];
      assert [rs[0]] + rs[1..i] == rs[..i];
    }
  }

  /**
   * `checkToRecipient`: when the display-to string names a recipient, that
   * recipient's address (forced, when it has an `@`) and trimmed name
   * become the "to" fields and the recipient moves to the front of the
   * list.
   */
  function CheckToRecipient(m: Message): (r: Result<Message, Exception>)
    ensures r.Err? <==> GetToRecipient(m).Err?
    ensures r.Err? ==> r.error == NullPointer
    ensures r.Ok? ==> r.value == m.(toEmail := r.value.toEmail, toName := r.value.toName, recipients := r.value.recipients)
    ensures GetToRecipient(m) == Ok(None) ==> r == Ok(m)
  {
    match GetToRecipient(m)
    case Err(e) => Err(e)
    case Ok(None) => Ok(m)
    case Ok(Some(i)) =>
      var rec := m.recipients[i];
      var m' := SetToName(SetToEmail(m, rec.address, true), rec.name);
      Ok(m'.(recipients := [rec] + RemoveFirst(m.recipients, rec)))
  }

  /**
   * The recipient the display-to string names is moved to the front; the
   * equality `remove` uses finds that very recipient, because an earlier
   * equal one would have the same name and would have been found first.
   */
  lemma MovesToFront(m: Message)
    ensures GetToRecipient(m).Ok? && GetToRecipient(m).value.Some? ==>
      var i := GetToRecipient(m).value.value;
      var rs := m.recipients;
      CheckToRecipient(m).Ok?
      && CheckToRecipient(m).value.recipients == [rs[i]] + (rs[..i] + rs[i + 1..])
      && CheckToRecipient(m).value.toName == Some(Trim(rs[i].name.value))
  {
    if GetToRecipient(m).Err? || GetToRecipient(m).value.None? {
      return;
    }
    var i := GetToRecipient(m).value.value;
    var rs := m.recipients;
    var keep := MessageView.ListedUnder(Trim(m.displayTo.value));
    assert PassedOver(rs, keep, 0, i);
    forall j | 0 <= j < i ensures !OutlookRecipient.Equals(rs[i], rs[j]) {
      assert !keep(rs[j]);
    }
    RemoveFirstAt(rs, rs[i], i);
  }

  /** Taking one element out and putting it in front keeps the same elements, each as often as before. */
  lemma MoveToFrontPermutes<T>(rs: seq<T>, i: nat)
    requires i < |rs|
    ensures multiset([rs[i]] + (rs[..i] + rs[i + 1..])) == multiset(rs)
  {
    assert rs == rs[..i] + [rs[i]] + rs[i + 1..];
  }

  /** Moving the named recipient to the front keeps the same recipients, each as often as before. */
  lemma CheckToRecipientPermutes(m: Message)
    ensures CheckToRecipient(m).Ok? ==> multiset(CheckToRecipient(m).value.recipients) == multiset(m.recipients)
  {
    if CheckToRecipient(m).Err? {
      return;
    }
    match GetToRecipient(m).value
    case None =>
    case Some(i) =>
      MovesToFront(m);
      MoveToFrontPermutes(m.recipients, i);
  }

  /** Checking twice is checking once: the recipient at the front is found again and left there. */
  lemma CheckToRecipientIdempotent(m: Message)
    ensures CheckToRecipient(m).Ok? ==> CheckToRecipient(CheckToRecipient(m).value) == CheckToRecipient(m)
  {
    if CheckToRecipient(m).Err? {
      return;
    }
    match GetToRecipient(m).value
    case None =>
    case Some(i) =>
      var rs := m.recipients;
      var rec := rs[i];
      MovesToFront(m);
      var m1 := CheckToRecipient(m).value;
      var rest := rs[..i] + rs[i + 1..];
      var moved := [rec] + rest;
      assert m1 == SetToName(SetToEmail(m, rec.address, true), rec.name).(recipients := moved);
      var keep := MessageView.ListedUnder(Trim(m.displayTo.value));
      assert m1.displayTo == m.displayTo && m1.recipients[0] == rec;
      assert FindListed(m1.recipients, keep, 0) == Ok(Some(0));
      RemoveFirstAt(moved, rec, 0);
      assert moved[1..] == rest;
      assert SetToName(SetToEmail(m1, rec.address, true), rec.name) == m1.(recipients := m1.recipients);
  }

  /**
   * `addRecipient`: appends the recipient, and offers its address (first
   * wins, `@` required) and trimmed name to "to" fields that are still
   * unset.
   */
  function AddRecipient(m: Message, rec: Recipient): (m': Message)
    ensures m'.recipients == m.recipients + [rec]
    ensures m' == m.(recipients := m'.recipients, toEmail := m'.toEmail, toName := m'.toName)
    ensures m.toEmail.Some? ==> m'.toEmail == m.toEmail
    ensures m.toEmail.None? && rec.address.Some? && '@' in rec.address.value ==> m'.toEmail == rec.address
    ensures m.toName.Some? ==> m'.toName == m.toName
    ensures m.toName.None? && rec.name.Some? ==> m'.toName == Some(Trim(rec.name.value))
  {
    var added := m.(recipients := m.recipients + [rec]);
    var withEmail := if m.toEmail.None? then SetToEmail(added, rec.address, false) else added;
    if m.toName.None? then SetToName(withEmail, rec.name) else withEmail
  }

  // ---------------------------------------------------------------------
  // Recipients per role

  /**
   * `getCcRecipients` as written: a null display-cc string throws, and
   * otherwise the loop runs over the freshly created result list, which is
   * empty, instead of over the message's recipients.
   */
  function CcRecipientsAsWritten(m: Message): (r: Result<seq<Recipient>, Exception>)
    ensures r.Err? <==> m.displayCc.None?
  {
    if m.displayCc.None? then Err(NullPointer)
    else MessageView.FilterWith([], MessageView.ListedUnder(Trim(m.displayCc.value)))
  }

  /** `getBccRecipients` as written, with the same loop over the empty result list. */
  function BccRecipientsAsWritten(m: Message): (r: Result<seq<Recipient>, Exception>)
    ensures r.Err? <==> m.displayBcc.None?
  {
    if m.displayBcc.None? then Err(NullPointer)
    else MessageView.FilterWith([], MessageView.ListedUnder(Trim(m.displayBcc.value)))
  }

  /** Whatever the message holds, the getters as written never return a recipient. */
  lemma RoleGettersAsWrittenAreEmpty(m: Message)
    ensures CcRecipientsAsWritten(m).Ok? ==> CcRecipientsAsWritten(m).value == []
    ensures BccRecipientsAsWritten(m).Ok? ==> BccRecipientsAsWritten(m).value == []
  {
  }

  /** A message whose only recipient the display-cc string lists, yet the getter as written returns nobody. */
  lemma CcAsWrittenMissesListedRecipient()
    ensures var m := NewMessage().(displayCc := Some("Bob"), recipients := [MessageView.BOB]);
      CcRecipients(m) == Ok([MessageView.BOB]) && CcRecipientsAsWritten(m) == Ok([])
  {
    MessageView.BobRoles();
    MessageView.FilterOne(MessageView.BOB, MessageView.ListedUnder(Trim("Bob")));
  }

  /** The evidently intended `getCcRecipients`: the recipients the display-cc string lists, in order. */
  function CcRecipients(m: Message): (r: Result<seq<Recipient>, Exception>)
    ensures r.Ok? <==> m.displayCc.Some? && MessageView.AllNamed(m.recipients)
  {
    MessageView.FilterRecipients(m.recipients, m.displayCc)
  }

  /** The evidently intended `getBccRecipients`. */
  function BccRecipients(m: Message): (r: Result<seq<Recipient>, Exception>)
    ensures r.Ok? <==> m.displayBcc.Some? && MessageView.AllNamed(m.recipients)
  {
    MessageView.FilterRecipients(m.recipients, m.displayBcc)
  }

  /** The intended getters return exactly the recipients their display string lists. */
  lemma RoleMembers(m: Message, x: Recipient)
    ensures CcRecipients(m).Ok? ==> (x in CcRecipients(m).value <==> x in m.recipients && MessageView.Listed(Trim(m.displayCc.value), x))
    ensures BccRecipients(m).Ok? ==> (x in BccRecipients(m).value <==> x in m.recipients && MessageView.Listed(Trim(m.displayBcc.value), x))
  {
    if CcRecipients(m).Ok? {
      MessageView.FilterMembers(m.recipients, MessageView.ListedUnder(Trim(m.displayCc.value)), x);
    }
    if BccRecipients(m).Ok? {
      MessageView.FilterMembers(m.recipients, MessageView.ListedUnder(Trim(m.displayBcc.value)), x);
    }
  }

  // ---------------------------------------------------------------------
  // Property keys in hexadecimal

  /** The keys of a raw property map are Java `int`s. */
  predicate IntKeys(props: map<int, Value>) {
    forall k :: k in props ==> IsInt32(k)
  }

  /** `getPropertiesAsHex` (of the message and of a recipient entry): each key printed with `%04x`. */
  function PropertiesAsHex(props: map<int, Value>): (r: set<string>)
    requires IntKeys(props)
    ensures forall k :: k in props ==> FormatHex(k, 4, false) in r
    ensures forall s :: s in r ==> exists k :: k in props && s == FormatHex(k, 4, false)
  {
    set k | k in props :: FormatHex(k, 4, false)
  }

  /** `getPropertyFromHex`: the name parsed as hexadecimal (-1 when it does not parse) and looked up. */
  function PropertyFromHex(props: map<int, Value>, name: string): (r: Option<Value>)
    ensures r.Some? <==> MapiClass(name) in props
    ensures r.Some? ==> r.value == props[MapiClass(name)]
  {
    var key := MapiClass(name);
    if key in props then Some(props[key]) else None
  }

  /**
   * Looking up a key by its hexadecimal name finds that key's value for
   * every non-negative key and for -1; any other negative key prints as
   * eight digits beyond the `int` range, which fall back to -1.
   */
  lemma HexNameFindsKey(props: map<int, Value>, k: int)
    requires IntKeys(props) && k in props
    ensures k >= 0 || k == -1 ==> PropertyFromHex(props, FormatHex(k, 4, false)) == Some(props[k])
    ensures k < 0 ==> MapiClass(FormatHex(k, 4, false)) == -1
  {
    ParseFormatHex(k, 4);
  }
}
