/**
 * Properties of the container walk of `OutlookMessageParser`: how
 * directories are dispatched, how many recipients a walk produces, that the
 * sender address stays well formed throughout, which attachments an
 * attachment directory yields and what the purge keeps.
 */
module WalkProperties {
  import opened Wrappers
  import opened JavaLang
  import opened Collaborators
  import opened MapiProperty
  import PropertiesStream
  import OutlookRecipient
  import OutlookFileAttachment
  import opened OutlookMessage
  import opened MsgContainer
  import MessagePolicies
  import opened OutlookMessageParser

  // ---------------------------------------------------------------------
  // Dispatch

  /** Each special directory goes to its own handler; the named-property directory is skipped; any other is walked into. */
  lemma DirectoryDispatch(m: Message, name: string, children: seq<Entry>, env: Collaborators)
    ensures StartsWith(name, ATTACH_PREFIX) ==> CheckEntry(m, Dir(name, children), env) == ParseAttachment(m, children, env)
    ensures StartsWith(name, RECIP_PREFIX) ==> CheckEntry(m, Dir(name, children), env) == CheckRecipientDirectory(m, children, env)
    ensures StartsWith(name, NAMEID_PREFIX) ==> CheckEntry(m, Dir(name, children), env) == Ok(m)
    ensures !StartsWith(name, ATTACH_PREFIX) && !StartsWith(name, RECIP_PREFIX) && !StartsWith(name, NAMEID_PREFIX) ==>
      CheckEntry(m, Dir(name, children), env) == CheckEntries(m, children, env)
  {
    PrefixesExclusive(name);
  }

  /** A recipient directory's sub-directories contribute nothing to the recipient. */
  lemma {:induction false} RecipientIgnoresDirectories(rc: Recipient, es: seq<Entry>, env: Collaborators)
    ensures RecipientEntries(rc, es, env) == RecipientEntries(rc, Leaves(es), env)
    decreases |es|
  {
    if |es| > 0 {
      var rest := Leaves(es[1..]);
      if es[0].Leaf? {
        assert Leaves(es) == [es[0]] + rest;
        assert (Leaves(es))[1..] == rest;
        match RecipientDocument(rc, es[0].name, es[0].bytes, es[0].declaredSize, env)
        case Err(_) =>
        case Ok(rc') => RecipientIgnoresDirectories(rc', es[1..], env);
      } else {
        assert Leaves(es) == rest;
        RecipientIgnoresDirectories(rc, es[1..], env);
      }
    }
  }

  // ---------------------------------------------------------------------
  // Recipients

  /** The recipient directories a walk reaches: not inside attachments, not inside the named-property directory. */
  function RecipientDirs(es: seq<Entry>): nat
    decreases EntriesSize(es), 1
  {
    if |es| == 0 then 0 else RecipientDirsIn(es[0]) + RecipientDirs(es[1..])
  }

  function RecipientDirsIn(e: Entry): nat
    decreases EntrySize(e), 0
  {
    match e
    case Leaf(_, _, _) => 0
    case Dir(name, children) =>
      if StartsWith(name, ATTACH_PREFIX) then 0
      else if StartsWith(name, RECIP_PREFIX) then 1
      else if StartsWith(name, NAMEID_PREFIX) then 0
      else RecipientDirs(children)
  }

  /** A walk appends exactly one recipient per recipient directory it reaches. */
  lemma {:induction false} WalkRecipientCount(m: Message, es: seq<Entry>, env: Collaborators)
    ensures var r := CheckEntries(m, es, env); r.Ok? ==> |r.value.recipients| == |m.recipients| + RecipientDirs(es)
    decreases EntriesSize(es), 1
  {
    if |es| > 0 && CheckEntry(m, es[0], env).Ok? {
      EntryRecipientCount(m, es[0], env);
      WalkRecipientCount(CheckEntry(m, es[0], env).value, es[1..], env);
    }
  }

  lemma {:induction false} EntryRecipientCount(m: Message, e: Entry, env: Collaborators)
    ensures var r := CheckEntry(m, e, env); r.Ok? ==> |r.value.recipients| == |m.recipients| + RecipientDirsIn(e)
    decreases EntrySize(e), 0
  {
    match e
    case Leaf(_, _, _) =>
    case Dir(name, children) =>
      if !StartsWith(name, ATTACH_PREFIX) && !StartsWith(name, RECIP_PREFIX) && !StartsWith(name, NAMEID_PREFIX) {
        WalkRecipientCount(m, children, env);
      }
  }

  // ---------------------------------------------------------------------
  // The sender address stays well formed

  lemma SetPropertyKeepsValid(m: Message, p: Property, env: Collaborators)
    requires Valid(m)
    ensures SetProperty(m, p, env).Ok? ==> Valid(SetProperty(m, p, env).value)
  {
    MessagePolicies.SetPropertyFromEmail(m, p, env);
  }

  lemma {:induction false} SetRecordsKeepsValid(m: Message, recs: seq<PropertiesStream.StreamEntry>, env: Collaborators)
    requires Valid(m)
    ensures SetRecords(m, recs, env).Ok? ==> Valid(SetRecords(m, recs, env).value)
    decreases |recs|
  {
    if |recs| > 0 && RecordProperty(recs[0], env).Ok? {
      var p := RecordProperty(recs[0], env).value;
      SetPropertyKeepsValid(m, p, env);
      if SetProperty(m, p, env).Ok? {
        SetRecordsKeepsValid(SetProperty(m, p, env).value, recs[1..], env);
      }
    }
  }

  /** Whatever the walk reads, the message's sender address is either absent or contains an `@`. */
  lemma {:induction false} WalkKeepsValid(m: Message, es: seq<Entry>, env: Collaborators)
    requires Valid(m)
    ensures CheckEntries(m, es, env).Ok? ==> Valid(CheckEntries(m, es, env).value)
    decreases EntriesSize(es), 1
  {
    if |es| > 0 && CheckEntry(m, es[0], env).Ok? {
      EntryKeepsValid(m, es[0], env);
      WalkKeepsValid(CheckEntry(m, es[0], env).value, es[1..], env);
    }
  }

  lemma {:induction false} EntryKeepsValid(m: Message, e: Entry, env: Collaborators)
    requires Valid(m)
    ensures CheckEntry(m, e, env).Ok? ==> Valid(CheckEntry(m, e, env).value)
    decreases EntrySize(e), 0
  {
    match e
    case Leaf(name, bytes, size) =>
      if StartsWith(name, PropertiesStream.PROPS_KEY) {
        SetRecordsKeepsValid(m, PropertiesStream.Split(bytes), env);
      } else if ReadProperty(name, bytes, size, env).Ok? {
        SetPropertyKeepsValid(m, ReadProperty(name, bytes, size, env).value, env);
      }
    case Dir(name, children) =>
      if !StartsWith(name, ATTACH_PREFIX) && !StartsWith(name, RECIP_PREFIX) && !StartsWith(name, NAMEID_PREFIX) {
        WalkKeepsValid(m, children, env);
      }
  }

  /** A parsed message's sender address, if any, contains an `@`. */
  lemma ParsedSenderIsAddress(root: seq<Entry>, env: Collaborators)
    ensures ParseMsg(root, env).Ok? ==> Valid(ParseMsg(root, env).value)
  {
    WalkKeepsValid(NewMessage(), root, env);
  }

  // ---------------------------------------------------------------------
  // Attachment directories

  /** The file attachment after `parseAttachment`'s fix-ups. */
  function Fixed(a: OutlookFileAttachment.FileAttachment, env: Collaborators): OutlookFileAttachment.FileAttachment {
    OutlookFileAttachment.CheckMimeTag(OutlookFileAttachment.CheckSmimeFilename(a), env.mimeTypes)
  }

  /** Document streams alone never add to the message's attachments. */
  lemma {:induction false} LeavesOnlyFeedTheFile(m: Message, att: OutlookFileAttachment.FileAttachment, es: seq<Entry>, env: Collaborators)
    requires forall k :: 0 <= k < |es| ==> es[k].Leaf?
    ensures AttachmentEntries(m, att, es, env).Ok? ==> AttachmentEntries(m, att, es, env).value.0 == m
    decreases |es|
  {
    if |es| > 0 && ReadProperty(es[0].name, es[0].bytes, es[0].declaredSize, env).Ok?
      && OutlookFileAttachment.SetProperty(att, ReadProperty(es[0].name, es[0].bytes, es[0].declaredSize, env).value).Ok?
    {
      var p := ReadProperty(es[0].name, es[0].bytes, es[0].declaredSize, env).value;
      LeavesOnlyFeedTheFile(m, OutlookFileAttachment.SetProperty(att, p).value, es[1..], env);
    }
  }

  /**
   * An attachment directory without sub-directories adds its file
   * attachment, fixed up, exactly when the file has a positive size and
   * some bytes, and adds nothing otherwise.
   */
  lemma FileAttachmentOnlyWithData(m: Message, children: seq<Entry>, env: Collaborators)
    requires forall k :: 0 <= k < |children| ==> children[k].Leaf?
    ensures ParseAttachment(m, children, env).Ok? ==>
      var a := AttachmentEntries(m, OutlookFileAttachment.NewFileAttachment(), children, env).value.1;
      ParseAttachment(m, children, env).value.attachments ==
        m.attachments + (if HasFileData(a) then [Attachment.FileAttachment(Fixed(a, env))] else [])
  {
    if ParseAttachment(m, children, env).Ok? {
      LeavesOnlyFeedTheFile(m, OutlookFileAttachment.NewFileAttachment(), children, env);
      var a := AttachmentEntries(m, OutlookFileAttachment.NewFileAttachment(), children, env).value.1;
      if !HasFileData(a) {
        assert m.attachments + [] == m.attachments;
      }
    }
  }

  /** A nested message found in an attachment directory is added ahead of the directory's file attachment. */
  lemma NestedMessageComesFirst(m: Message, name: string, nested: seq<Entry>, leaves: seq<Entry>, env: Collaborators)
    requires forall k :: 0 <= k < |leaves| ==> leaves[k].Leaf?
    ensures ParseAttachment(m, [Dir(name, nested)] + leaves, env).Ok? ==>
      && CheckEntries(NewMessage(), nested, env).Ok?
      && var r := ParseAttachment(m, [Dir(name, nested)] + leaves, env).value.attachments;
         |r| > |m.attachments| && r[|m.attachments|] == MsgAttachment(CheckEntries(NewMessage(), nested, env).value)
  {
    var es := [Dir(name, nested)] + leaves;
    if ParseAttachment(m, es, env).Err? {
      return;
    }
    assert es[0] == Dir(name, nested) && es[1..] == leaves;
    assert AttachmentEntries(m, OutlookFileAttachment.NewFileAttachment(), es, env).Ok?;
    var n := CheckEntries(NewMessage(), nested, env).value;
    var m' := AddAttachment(m, MsgAttachment(n));
    LeavesOnlyFeedTheFile(m', OutlookFileAttachment.NewFileAttachment(), leaves, env);
    var r := ParseAttachment(m, es, env).value.attachments;
    assert r[..|m'.attachments|] == m'.attachments;
  }

  // ---------------------------------------------------------------------
  // The purge

  /** The purge keeps exactly the kept attachments. */
  lemma {:induction false} PurgeMembers(atts: seq<Attachment>, x: Attachment)
    ensures x in PurgeEmptyAttachments(atts) <==> x in atts && Kept(x)
    decreases |atts|
  {
    if |atts| > 0 {
      PurgeMembers(atts[1..], x);
      assert atts == [atts[0]] + atts[1..];
    }
  }

  /** The purge works element by element, so it keeps the order of what it keeps. */
  lemma {:induction false} PurgeAppend(a: seq<Attachment>, b: seq<Attachment>)
    ensures PurgeEmptyAttachments(a + b) == PurgeEmptyAttachments(a) + PurgeEmptyAttachments(b)
    decreases |a|
  {
    if |a| == 0 {
      assert a + b == b;
    } else {
      assert (a + b)[0] == a[0] && (a + b)[1..] == a[1..] + b;
      PurgeAppend(a[1..], b);
    }
  }

  /** A list with nothing to purge is left as it is. */
  lemma {:induction false} PurgeKeepsKept(atts: seq<Attachment>)
    requires forall k :: 0 <= k < |atts| ==> Kept(atts[k])
    ensures PurgeEmptyAttachments(atts) == atts
    decreases |atts|
  {
    if |atts| > 0 {
      PurgeKeepsKept(atts[1..]);
    }
  }

  /** Purging twice is purging once. */
  lemma PurgeIdempotent(atts: seq<Attachment>)
    ensures PurgeEmptyAttachments(PurgeEmptyAttachments(atts)) == PurgeEmptyAttachments(atts)
  {
    PurgeKeepsKept(PurgeEmptyAttachments(atts));
  }
}
