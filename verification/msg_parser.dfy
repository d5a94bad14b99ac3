/**
 * `MsgParser`, the older parser: the same container walk as the current
 * one, but filling the older message, recipient entry and file attachment.
 * It has no special case for the named-property directory, reads 8-bit
 * strings as ISO-8859-1 without looking for a declared charset, adds a file
 * attachment whenever the data property was seen, and after the walk only
 * extracts the Reply-To header. The top-level message converts its RTF body
 * with the parser's converter; each nested message is created with its own
 * default converter.
 */
module MsgParser {
  import opened Wrappers
  import opened JavaLang
  import opened Collaborators
  import opened MapiProperty
  import PropertiesStream
  import OutlookRecipient
  import FileOutlookAttachment
  import opened MsgContainer
  import opened LegacyMessage

  /** The two RTF-to-HTML converters in play: the parser's, for the top-level message, and the default one of a new nested message. */
  datatype Converters = Converters(top: string -> Option<string>, nested: string -> Option<string>)

  // ---------------------------------------------------------------------
  // Document streams of the message

  function RecordProperty(rec: PropertiesStream.StreamEntry): Result<Property, Exception> {
    LegacyReadProperty(rec.name, rec.data, |rec.data|)
  }

  /** The records of a properties stream given to the message in order. */
  function SetRecords(m: Message, recs: seq<PropertiesStream.StreamEntry>, env: Collaborators, conv: string -> Option<string>)
    : (r: Result<Message, Exception>)
    ensures r.Ok? ==> r.value.attachments == m.attachments && multiset(r.value.recipients) == multiset(m.recipients)
    decreases |recs|
  {
    if |recs| == 0 then Ok(m)
    else
      match RecordProperty(recs[0])
      case Err(e) => Err(e)
      case Ok(p) =>
        match SetProperty(m, p, env, conv)
        case Err(e) => Err(e)
        case Ok(m') => SetRecords(m', recs[1..], env, conv)
  }

  /** `checkDirectoryDocumentEntry`: a properties stream is split into records, any other stream is one property. */
  function CheckDocument(m: Message, name: string, bytes: seq<uint8>, size: int, env: Collaborators, conv: string -> Option<string>)
    : (r: Result<Message, Exception>)
    ensures r.Ok? ==> r.value.attachments == m.attachments && multiset(r.value.recipients) == multiset(m.recipients)
  {
    if StartsWith(name, PropertiesStream.PROPS_KEY) then SetRecords(m, PropertiesStream.Split(bytes), env, conv)
    else
      match LegacyReadProperty(name, bytes, size)
      case Err(e) => Err(e)
      case Ok(p) => SetProperty(m, p, env, conv)
  }

  // ---------------------------------------------------------------------
  // Recipient directories

  function RecipientRecords(rc: Recipient, recs: seq<PropertiesStream.StreamEntry>): Result<Recipient, Exception>
    decreases |recs|
  {
    if |recs| == 0 then Ok(rc)
    else
      match RecordProperty(recs[0])
      case Err(e) => Err(e)
      case Ok(p) =>
        match OutlookRecipient.SetProperty(rc, p)
        case Err(e) => Err(e)
        case Ok(rc') => RecipientRecords(rc', recs[1..])
  }

  /** `checkRecipientDocumentEntry`. */
  function RecipientDocument(rc: Recipient, name: string, bytes: seq<uint8>, size: int): Result<Recipient, Exception> {
    if StartsWith(name, PropertiesStream.PROPS_KEY) then RecipientRecords(rc, PropertiesStream.Split(bytes))
    else
      match LegacyReadProperty(name, bytes, size)
      case Err(e) => Err(e)
      case Ok(p) => OutlookRecipient.SetProperty(rc, p)
  }

  /** The entries of a recipient directory: document streams feed the recipient entry, directories are passed over. */
  function RecipientEntries(rc: Recipient, es: seq<Entry>): Result<Recipient, Exception>
    decreases |es|
  {
    if |es| == 0 then Ok(rc)
    else
      match es[0]
      case Dir(_, _) => RecipientEntries(rc, es[1..])
      case Leaf(name, bytes, size) =>
        match RecipientDocument(rc, name, bytes, size)
        case Err(e) => Err(e)
        case Ok(rc') => RecipientEntries(rc', es[1..])
  }

  /**
   * `checkRecipientDirectoryEntry`: one new recipient entry takes every
   * property of the directory and is then added with `addRecipient`.
   */
  function CheckRecipientDirectory(m: Message, children: seq<Entry>): (r: Result<Message, Exception>)
    ensures r.Ok? ==>
      RecipientEntries(OutlookRecipient.NewRecipient(), children).Ok?
      && r.value == AddRecipient(m, RecipientEntries(OutlookRecipient.NewRecipient(), children).value)
    ensures r.Ok? ==> r.value.attachments == m.attachments && multiset(r.value.recipients) == multiset(m.recipients) + multiset{r.value.recipients[|m.recipients|]}
  {
    match RecipientEntries(OutlookRecipient.NewRecipient(), children)
    case Err(e) => Err(e)
    case Ok(rc) => Ok(AddRecipient(m, rc))
  }

  // ---------------------------------------------------------------------
  // Attachment directories and the walk

  /**
   * The entries of an attachment directory: document streams feed the file
   * attachment; each directory is a nested message with the default
   * converter, walked and added to this message's attachments.
   */
  function AttachmentEntries(m: Message, att: FileOutlookAttachment.FileAttachment, es: seq<Entry>, env: Collaborators, cs: Converters)
    : (r: Result<(Message, FileOutlookAttachment.FileAttachment), Exception>)
    ensures r.Ok? ==> r.value.0 == m.(attachments := r.value.0.attachments)
    ensures r.Ok? ==> |m.attachments| <= |r.value.0.attachments| && r.value.0.attachments[..|m.attachments|] == m.attachments
    ensures r.Ok? ==> forall k :: |m.attachments| <= k < |r.value.0.attachments| ==> r.value.0.attachments[k].MsgAttachment?
    decreases EntriesSize(es), 2
  {
    if |es| == 0 then Ok((m, att))
    else
      match es[0]
      case Leaf(name, bytes, size) =>
        (match LegacyReadProperty(name, bytes, size)
         case Err(e) => Err(e)
         case Ok(p) =>
           match FileOutlookAttachment.SetProperty(att, p)
           case Err(e) => Err(e)
           case Ok(att') => AttachmentEntries(m, att', es[1..], env, cs))
      case Dir(_, children) =>
        assert EntriesSize(children) < EntriesSize(es) by {
          assert EntrySize(es[0]) == 1 + EntriesSize(children);
        }
        match CheckEntries(NewMessage(), children, env, cs.nested, cs)
        case Err(e) => Err(e)
        case Ok(nested) =>
          var m' := AddAttachment(m, MsgAttachment(nested));
          var r := AttachmentEntries(m', att, es[1..], env, cs);
          if r.Err? then r
          else
            NestedFirst(m, MsgAttachment(nested), r.value.0);
            r
  }

  /** Attachments added after a nested message extend the message that came before it. */
  lemma NestedFirst(m: Message, a: Attachment, r: Message)
    requires a.MsgAttachment?
    requires r == AddAttachment(m, a).(attachments := r.attachments)
    requires |m.attachments| + 1 <= |r.attachments| && r.attachments[..|m.attachments| + 1] == m.attachments + [a]
    requires forall k :: |m.attachments| + 1 <= k < |r.attachments| ==> r.attachments[k].MsgAttachment?
    ensures r == m.(attachments := r.attachments)
    ensures |m.attachments| <= |r.attachments| && r.attachments[..|m.attachments|] == m.attachments
    ensures forall k :: |m.attachments| <= k < |r.attachments| ==> r.attachments[k].MsgAttachment?
  {
    var atts := r.attachments;
    assert atts[..|m.attachments|] == (m.attachments + [a])[..|m.attachments|];
    assert atts[|m.attachments|] == atts[..|m.attachments| + 1][|m.attachments|];
  }

  /**
   * `parseAttachment`: nested messages first, in the order of their
   * directories; the file attachment last, and only when its size is no
   * longer -1, that is when its data property was seen.
   */
  function ParseAttachment(m: Message, children: seq<Entry>, env: Collaborators, cs: Converters): (r: Result<Message, Exception>)
    ensures r.Ok? ==> r.value == m.(attachments := r.value.attachments)
    ensures r.Ok? ==> |m.attachments| <= |r.value.attachments| && r.value.attachments[..|m.attachments|] == m.attachments
    ensures r.Ok? ==> forall k :: |m.attachments| <= k < |r.value.attachments| - 1 ==> r.value.attachments[k].MsgAttachment?
    ensures r.Ok? && |r.value.attachments| > |m.attachments| && r.value.attachments[|r.value.attachments| - 1].FileAttachment? ==>
      r.value.attachments[|r.value.attachments| - 1].file.size > -1
    decreases EntriesSize(children), 3
  {
    match AttachmentEntries(m, FileOutlookAttachment.NewFileAttachment(), children, env, cs)
    case Err(e) => Err(e)
    case Ok((m', a)) =>
      if a.size > -1 then
        var r := AddAttachment(m', Attachment.FileAttachment(a));
        assert r.attachments[..|m.attachments|] == m'.attachments[..|m.attachments|];
        Ok(r)
      else Ok(m')
  }

  /** `checkDirectoryEntry` over a directory's entries, in order, filling a message whose converter is `conv`. */
  function CheckEntries(m: Message, es: seq<Entry>, env: Collaborators, conv: string -> Option<string>, cs: Converters)
    : (r: Result<Message, Exception>)
    ensures r.Ok? ==> |m.attachments| <= |r.value.attachments| && r.value.attachments[..|m.attachments|] == m.attachments
    ensures r.Ok? ==> multiset(m.recipients) <= multiset(r.value.recipients)
    decreases EntriesSize(es), 1
  {
    if |es| == 0 then Ok(m)
    else
      match CheckEntry(m, es[0], env, conv, cs)
      case Err(e) => Err(e)
      case Ok(m') =>
        var r := CheckEntries(m', es[1..], env, conv, cs);
        if r.Err? then r
        else
          assert r.value.attachments[..|m.attachments|] == m'.attachments[..|m.attachments|];
          r
  }

  /**
   * One entry: attachment and recipient directories are recognised by their
   * name's prefix; any other directory, the named-property one included, is
   * walked into the same message, and a document stream holds properties
   * of the message.
   */
  function CheckEntry(m: Message, e: Entry, env: Collaborators, conv: string -> Option<string>, cs: Converters)
    : (r: Result<Message, Exception>)
    ensures r.Ok? ==> |m.attachments| <= |r.value.attachments| && r.value.attachments[..|m.attachments|] == m.attachments
    ensures r.Ok? ==> multiset(m.recipients) <= multiset(r.value.recipients)
    decreases EntrySize(e), 0
  {
    match e
    case Leaf(name, bytes, size) => CheckDocument(m, name, bytes, size, env, conv)
    case Dir(name, children) =>
      if StartsWith(name, ATTACH_PREFIX) then ParseAttachment(m, children, env, cs)
      else if StartsWith(name, RECIP_PREFIX) then CheckRecipientDirectory(m, children)
      else CheckEntries(m, children, env, conv, cs)
  }

  // ---------------------------------------------------------------------
  // Post-processing

  /** `extractReplyToHeader`: the first match's groups, if any, set the Reply-To name and address. */
  function ExtractReplyTo(m: Message, headers: string, env: Collaborators): (r: Message)
    ensures r == m.(replyToName := r.replyToName, replyToEmail := r.replyToEmail)
    ensures r != m ==> env.replyTo(headers).Some? && r.replyToName == env.replyTo(headers).value.nameOrAddress
    ensures r.replyToEmail != m.replyToEmail ==> r.replyToEmail.Some?
  {
    match env.replyTo(headers)
    case None => m
    case Some(g) =>
      if g.address.Some? then m.(replyToName := g.nameOrAddress, replyToEmail := g.address)
      else if g.nameOrAddress.Some? then m.(replyToName := g.nameOrAddress, replyToEmail := g.nameOrAddress)
      else m
  }

  /** `convertHeaders`: only the Reply-To header, and nothing without a header block. */
  function ConvertHeaders(m: Message, env: Collaborators): (r: Message)
    ensures r == m.(replyToName := r.replyToName, replyToEmail := r.replyToEmail)
    ensures m.headers.None? ==> r == m
  {
    match m.headers
    case None => m
    case Some(h) => ExtractReplyTo(m, h, env)
  }

  /**
   * `parseMsg`: the root directory's entries walked into a new message with
   * the parser's converter, then the Reply-To extraction. Nothing is purged.
   */
  function ParseMsg(root: seq<Entry>, env: Collaborators, cs: Converters): (r: Result<Message, Exception>)
    ensures r.Ok? ==>
      CheckEntries(NewMessage(), root, env, cs.top, cs).Ok?
      && r.value.attachments == CheckEntries(NewMessage(), root, env, cs.top, cs).value.attachments
  {
    match CheckEntries(NewMessage(), root, env, cs.top, cs)
    case Err(e) => Err(e)
    case Ok(m) => Ok(ConvertHeaders(m, env))
  }
}
