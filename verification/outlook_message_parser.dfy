/**
 * `OutlookMessageParser`: walks the container tree of a `.msg` file and
 * feeds every property it finds to the message, its recipients and its
 * attachments, then post-processes the message (Reply-To and S/MIME from
 * the header block, empty nested messages purged). An exception anywhere
 * aborts the whole parse; it is the `Err` of the result.
 */
module OutlookMessageParser {
  import opened Wrappers
  import opened JavaLang
  import opened Collaborators
  import opened MapiProperty
  import PropertiesStream
  import OutlookRecipient
  import OutlookFileAttachment
  import opened OutlookSmime
  import opened OutlookMessage
  import opened MsgContainer
  import MessagePolicies

  type Recipient = OutlookRecipient.Recipient

  // ---------------------------------------------------------------------
  // Document streams of the message

  /** A synthetic record of a properties stream, read as a property; its size is its byte count. */
  function RecordProperty(rec: PropertiesStream.StreamEntry, env: Collaborators): Result<Property, Exception> {
    ReadProperty(rec.name, rec.data, |rec.data|, env)
  }

  /** The records of a properties stream given to the message in order, each read and then set. */
  function SetRecords(m: Message, recs: seq<PropertiesStream.StreamEntry>, env: Collaborators): (r: Result<Message, Exception>)
    ensures r.Ok? ==> r.value.attachments == m.attachments && r.value.recipients == m.recipients
    decreases |recs|
  {
    if |recs| == 0 then Ok(m)
    else
      match RecordProperty(recs[0], env)
      case Err(e) => Err(e)
      case Ok(p) =>
        match SetProperty(m, p, env)
        case Err(e) => Err(e)
        case Ok(m') => SetRecords(m', recs[1..], env)
  }

  /** `checkDirectoryDocumentEntry`: a properties stream is split into records, any other stream is one property. */
  function CheckDocument(m: Message, name: string, bytes: seq<uint8>, size: int, env: Collaborators): (r: Result<Message, Exception>)
    ensures r.Ok? ==> r.value.attachments == m.attachments && r.value.recipients == m.recipients
  {
    if StartsWith(name, PropertiesStream.PROPS_KEY) then SetRecords(m, PropertiesStream.Split(bytes), env)
    else
      match ReadProperty(name, bytes, size, env)
      case Err(e) => Err(e)
      case Ok(p) => SetProperty(m, p, env)
  }

  // ---------------------------------------------------------------------
  // Recipient directories

  function RecipientRecords(rc: Recipient, recs: seq<PropertiesStream.StreamEntry>, env: Collaborators): Result<Recipient, Exception>
    decreases |recs|
  {
    if |recs| == 0 then Ok(rc)
    else
      match RecordProperty(recs[0], env)
      case Err(e) => Err(e)
      case Ok(p) =>
        match OutlookRecipient.SetProperty(rc, p)
        case Err(e) => Err(e)
        case Ok(rc') => RecipientRecords(rc', recs[1..], env)
  }

  /** `checkRecipientDocumentEntry`. */
  function RecipientDocument(rc: Recipient, name: string, bytes: seq<uint8>, size: int, env: Collaborators): Result<Recipient, Exception> {
    if StartsWith(name, PropertiesStream.PROPS_KEY) then RecipientRecords(rc, PropertiesStream.Split(bytes), env)
    else
      match ReadProperty(name, bytes, size, env)
      case Err(e) => Err(e)
      case Ok(p) => OutlookRecipient.SetProperty(rc, p)
  }

  /** The entries of a recipient directory: document streams feed the recipient, directories are passed over. */
  function RecipientEntries(rc: Recipient, es: seq<Entry>, env: Collaborators): Result<Recipient, Exception>
    decreases |es|
  {
    if |es| == 0 then Ok(rc)
    else
      match es[0]
      case Dir(_, _) => RecipientEntries(rc, es[1..], env)
      case Leaf(name, bytes, size) =>
        match RecipientDocument(rc, name, bytes, size, env)
        case Err(e) => Err(e)
        case Ok(rc') => RecipientEntries(rc', es[1..], env)
  }

  /**
   * `checkRecipientDirectoryEntry`: one new recipient takes every property
   * of the directory and is then appended; nothing else in the message
   * changes.
   */
  function CheckRecipientDirectory(m: Message, children: seq<Entry>, env: Collaborators): (r: Result<Message, Exception>)
    ensures r.Ok? ==> |r.value.recipients| == |m.recipients| + 1
    ensures r.Ok? ==> r.value == AddRecipient(m, r.value.recipients[|m.recipients|])
    ensures r.Ok? ==> Ok(r.value.recipients[|m.recipients|]) == RecipientEntries(OutlookRecipient.NewRecipient(), children, env)
  {
    match RecipientEntries(OutlookRecipient.NewRecipient(), children, env)
    case Err(e) => Err(e)
    case Ok(rc) => Ok(AddRecipient(m, rc))
  }

  // ---------------------------------------------------------------------
  // Attachment directories and the walk

  /** `parseAttachment`'s test that there really was a file: a positive declared size and some bytes. */
  predicate HasFileData(a: OutlookFileAttachment.FileAttachment) {
    a.size > 0 && a.data.Some? && |a.data.value| > 0
  }

  /**
   * The entries of an attachment directory: document streams feed the file
   * attachment; each directory is a nested message, parsed into a fresh
   * message and added to this one's attachments at once.
   */
  function AttachmentEntries(m: Message, att: OutlookFileAttachment.FileAttachment, es: seq<Entry>, env: Collaborators)
    : (r: Result<(Message, OutlookFileAttachment.FileAttachment), Exception>)
    ensures r.Ok? ==> r.value.0 == m.(attachments := r.value.0.attachments)
    ensures r.Ok? ==> |m.attachments| <= |r.value.0.attachments| && r.value.0.attachments[..|m.attachments|] == m.attachments
    ensures r.Ok? ==> forall k :: |m.attachments| <= k < |r.value.0.attachments| ==> r.value.0.attachments[k].MsgAttachment?
    decreases EntriesSize(es), 2
  {
    if |es| == 0 then Ok((m, att))
    else
      match es[0]
      case Leaf(name, bytes, size) =>
        (match ReadProperty(name, bytes, size, env)
         case Err(e) => Err(e)
         case Ok(p) =>
           match OutlookFileAttachment.SetProperty(att, p)
           case Err(e) => Err(e)
           case Ok(att') => AttachmentEntries(m, att', es[1..], env))
      case Dir(_, children) =>
        assert EntriesSize(children) < EntriesSize(es) by {
          assert EntrySize(es[0]) == 1 + EntriesSize(children);
        }
        match CheckEntries(NewMessage(), children, env)
        case Err(e) => Err(e)
        case Ok(nested) =>
          var m' := AddAttachment(m, MsgAttachment(nested));
          var r := AttachmentEntries(m', att, es[1..], env);
          if r.Err? then r
          else
            NestedFirst(m, MsgAttachment(nested), r.value.0);
            r
  }

  /** Attachments added after a nested message extend the message that came before it. */
  lemma NestedFirst(m: Message, a: Attachment, r: Message)
    requires a.MsgAttachment?
    requires r == AddAttachment(m, a).(attachments := r.attachments)
    requires |m.attachments| + 1 <= |r.attachments| && r.attachments[..|m.attachments| + 1] == m.attachments + [a]
    requires forall k :: |m.attachments| + 1 <= k < |r.attachments| ==> r.attachments[k].MsgAttachment?
    ensures r == m.(attachments := r.attachments)
    ensures |m.attachments| <= |r.attachments| && r.attachments[..|m.attachments|] == m.attachments
    ensures forall k :: |m.attachments| <= k < |r.attachments| ==> r.attachments[k].MsgAttachment?
  {
    var atts := r.attachments;
    assert atts[..|m.attachments|] == (m.attachments + [a])[..|m.attachments|];
    assert atts[|m.attachments|] == atts[..|m.attachments| + 1][|m.attachments|];
  }

  /**
   * `parseAttachment`: nested messages come first, in the order of their
   * directories; the file attachment is added last, after the S/MIME file
   * name and MIME type fix-ups, and only when it has data. The data's length
   * is read whenever the size is positive, so a size without data throws.
   */
  function ParseAttachment(m: Message, children: seq<Entry>, env: Collaborators): (r: Result<Message, Exception>)
    ensures r.Ok? ==> r.value == m.(attachments := r.value.attachments)
    ensures r.Ok? ==> |m.attachments| <= |r.value.attachments| && r.value.attachments[..|m.attachments|] == m.attachments
    ensures r.Ok? ==> forall k :: |m.attachments| <= k < |r.value.attachments| - 1 ==> r.value.attachments[k].MsgAttachment?
    ensures r.Ok? && |r.value.attachments| > |m.attachments| && r.value.attachments[|r.value.attachments| - 1].FileAttachment? ==>
      HasFileData(r.value.attachments[|r.value.attachments| - 1].file)
    decreases EntriesSize(children), 3
  {
    match AttachmentEntries(m, OutlookFileAttachment.NewFileAttachment(), children, env)
    case Err(e) => Err(e)
    case Ok((m', a)) =>
      if a.size > 0 then
        match a.data
        case None => Err(NullPointer)
        case Some(d) =>
          if |d| > 0 then
            var fixed := OutlookFileAttachment.CheckMimeTag(OutlookFileAttachment.CheckSmimeFilename(a), env.mimeTypes);
            var r := AddAttachment(m', Attachment.FileAttachment(fixed));
            assert r.attachments[..|m.attachments|] == m'.attachments[..|m.attachments|];
            Ok(r)
          else Ok(m')
      else Ok(m')
  }

  /** `checkDirectoryEntry` over a directory's entries, in order. */
  function CheckEntries(m: Message, es: seq<Entry>, env: Collaborators): (r: Result<Message, Exception>)
    ensures r.Ok? ==> |m.attachments| <= |r.value.attachments| && r.value.attachments[..|m.attachments|] == m.attachments
    ensures r.Ok? ==> |m.recipients| <= |r.value.recipients| && r.value.recipients[..|m.recipients|] == m.recipients
    decreases EntriesSize(es), 1
  {
    if |es| == 0 then Ok(m)
    else
      match CheckEntry(m, es[0], env)
      case Err(e) => Err(e)
      case Ok(m') =>
        var r := CheckEntries(m', es[1..], env);
        if r.Err? then r
        else
          assert r.value.attachments[..|m.attachments|] == m'.attachments[..|m.attachments|];
          assert r.value.recipients[..|m.recipients|] == m'.recipients[..|m.recipients|];
          r
  }

  /**
   * One entry: attachment directories, recipient directories and the
   * named-property directory are recognised by their name's prefix; any
   * other directory is walked into the same message, and a document stream
   * holds properties of the message.
   */
  function CheckEntry(m: Message, e: Entry, env: Collaborators): (r: Result<Message, Exception>)
    ensures r.Ok? ==> |m.attachments| <= |r.value.attachments| && r.value.attachments[..|m.attachments|] == m.attachments
    ensures r.Ok? ==> |m.recipients| <= |r.value.recipients| && r.value.recipients[..|m.recipients|] == m.recipients
    decreases EntrySize(e), 0
  {
    match e
    case Leaf(name, bytes, size) => CheckDocument(m, name, bytes, size, env)
    case Dir(name, children) =>
      if StartsWith(name, ATTACH_PREFIX) then ParseAttachment(m, children, env)
      else if StartsWith(name, RECIP_PREFIX) then CheckRecipientDirectory(m, children, env)
      else if StartsWith(name, NAMEID_PREFIX) then Ok(m)
      else CheckEntries(m, children, env)
  }

  // ---------------------------------------------------------------------
  // Post-processing

  /** `messageIsEmpty`: no id, subject or body of any kind. */
  predicate MessageIsEmpty(n: Message) {
    n.messageId.None? && n.subject.None? && n.bodyText.None? && n.bodyRTF.None? && n.bodyHTML.None?
  }

  /** The attachments the purge keeps: files, and nested messages that are not empty. */
  predicate Kept(a: Attachment) {
    a.FileAttachment? || !MessageIsEmpty(a.message)
  }

  /** `purgeEmptyAttachments`: drops the empty nested messages and keeps everything else in order. */
  function PurgeEmptyAttachments(atts: seq<Attachment>): (r: seq<Attachment>)
    ensures |r| <= |atts|
    ensures forall k :: 0 <= k < |r| ==> Kept(r[k])
    decreases |atts|
  {
    if |atts| == 0 then []
    else (if Kept(atts[0]) then [atts[0]] else []) + PurgeEmptyAttachments(atts[1..])
  }

  /** `extractReplyToHeader`: the first match's groups, if any, set the Reply-To name and address. */
  function ExtractReplyTo(m: Message, headers: string, env: Collaborators): (r: Message)
    ensures r == m.(replyToName := r.replyToName, replyToEmail := r.replyToEmail)
    ensures r != m ==> env.replyTo(headers).Some? && r.replyToName == env.replyTo(headers).value.nameOrAddress
    ensures r.replyToEmail != m.replyToEmail ==> r.replyToEmail.Some?
  {
    match env.replyTo(headers)
    case None => m
    case Some(g) =>
      if g.address.Some? then m.(replyToName := g.nameOrAddress, replyToEmail := g.address)
      else if g.nameOrAddress.Some? then m.(replyToName := g.nameOrAddress, replyToEmail := g.nameOrAddress)
      else m
  }

  /** `extractSMimeHeader`: only a message without an S/MIME descriptor takes one from the headers. */
  function ExtractSmimeHeader(m: Message, headers: string, env: Collaborators): (r: Message)
    ensures r == m.(smime := r.smime)
    ensures m.smime.Some? ==> r == m
    ensures r.smime.Some? && m.smime.None? ==> r.smime.value.ApplicationSmime?
  {
    if m.smime.Some? then m
    else
      match env.smimeHeader(headers)
      case None => m
      case Some(g) => m.(smime := Some(ApplicationSmime(Some(g.contentType), g.smimeType, g.name)))
  }

  /** `convertHeaders`: nothing without a header block. */
  function ConvertHeaders(m: Message, env: Collaborators): (r: Message)
    ensures r == m.(replyToName := r.replyToName, replyToEmail := r.replyToEmail, smime := r.smime)
    ensures m.headers.None? ==> r == m
  {
    match m.headers
    case None => m
    case Some(h) => ExtractSmimeHeader(ExtractReplyTo(m, h, env), h, env)
  }

  /**
   * `parseMsg`: the root directory's entries walked into a new message, then
   * the header post-processing, then the purge of empty nested messages.
   */
  function ParseMsg(root: seq<Entry>, env: Collaborators): (r: Result<Message, Exception>)
    ensures r.Ok? ==> forall k :: 0 <= k < |r.value.attachments| ==> Kept(r.value.attachments[k])
  {
    match CheckEntries(NewMessage(), root, env)
    case Err(e) => Err(e)
    case Ok(m) =>
      var m' := ConvertHeaders(m, env);
      Ok(m'.(attachments := PurgeEmptyAttachments(m'.attachments)))
  }
}
