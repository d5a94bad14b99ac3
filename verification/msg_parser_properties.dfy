/**
 * Properties of the older parser's walk: how directories are dispatched
 * (the named-property directory is not special), how many recipients a
 * walk produces, that the sender and "to" addresses stay well formed, and
 * which attachments an attachment directory yields.
 */
module MsgParserProperties {
  import opened Wrappers
  import opened JavaLang
  import opened Collaborators
  import opened MapiProperty
  import PropertiesStream
  import FileOutlookAttachment
  import opened MsgContainer
  import opened LegacyMessage
  import LegacyPolicies
  import opened MsgParser

  // ---------------------------------------------------------------------
  // Dispatch

  /** Attachment and recipient directories go to their handlers; every other directory, the named-property one included, is walked into. */
  lemma DirectoryDispatch(m: Message, name: string, children: seq<Entry>, env: Collaborators, conv: string -> Option<string>, cs: Converters)
    ensures StartsWith(name, ATTACH_PREFIX) ==> CheckEntry(m, Dir(name, children), env, conv, cs) == ParseAttachment(m, children, env, cs)
    ensures StartsWith(name, RECIP_PREFIX) ==> CheckEntry(m, Dir(name, children), env, conv, cs) == CheckRecipientDirectory(m, children)
    ensures StartsWith(name, NAMEID_PREFIX) ==> CheckEntry(m, Dir(name, children), env, conv, cs) == CheckEntries(m, children, env, conv, cs)
  {
    PrefixesExclusive(name);
  }

  // ---------------------------------------------------------------------
  // Recipients

  /** The recipient directories the older walk reaches: not inside attachments. */
  function RecipientDirs(es: seq<Entry>): nat
    decreases EntriesSize(es), 1
  {
    if |es| == 0 then 0 else RecipientDirsIn(es[0]) + RecipientDirs(es[1..])
  }

  function RecipientDirsIn(e: Entry): nat
    decreases EntrySize(e), 0
  {
    match e
    case Leaf(_, _, _) => 0
    case Dir(name, children) =>
      if StartsWith(name, ATTACH_PREFIX) then 0
      else if StartsWith(name, RECIP_PREFIX) then 1
      else RecipientDirs(children)
  }

  /**
   * The older walk adds exactly one recipient per recipient directory it
   * reaches; moving the "to" recipient to the front reorders but never
   * adds or drops one.
   */
  lemma {:induction false} WalkRecipientCount(m: Message, es: seq<Entry>, env: Collaborators, conv: string -> Option<string>, cs: Converters)
    ensures var r := CheckEntries(m, es, env, conv, cs); r.Ok? ==> |r.value.recipients| == |m.recipients| + RecipientDirs(es)
    decreases EntriesSize(es), 1
  {
    if |es| > 0 && CheckEntry(m, es[0], env, conv, cs).Ok? {
      EntryRecipientCount(m, es[0], env, conv, cs);
      WalkRecipientCount(CheckEntry(m, es[0], env, conv, cs).value, es[1..], env, conv, cs);
    }
  }

  lemma {:induction false} EntryRecipientCount(m: Message, e: Entry, env: Collaborators, conv: string -> Option<string>, cs: Converters)
    ensures var r := CheckEntry(m, e, env, conv, cs); r.Ok? ==> |r.value.recipients| == |m.recipients| + RecipientDirsIn(e)
    decreases EntrySize(e), 0
  {
    match e
    case Leaf(name, bytes, size) =>
      if CheckEntry(m, e, env, conv, cs).Err? {
        return;
      }
      var r := CheckEntry(m, e, env, conv, cs).value;
      assert |multiset(r.recipients)| == |multiset(m.recipients)|;
    case Dir(name, children) =>
      if !StartsWith(name, ATTACH_PREFIX) && !StartsWith(name, RECIP_PREFIX) {
        WalkRecipientCount(m, children, env, conv, cs);
      }
  }

  // ---------------------------------------------------------------------
  // Addresses stay well formed

  lemma {:induction false} SetRecordsKeepsValid(m: Message, recs: seq<PropertiesStream.StreamEntry>, env: Collaborators, conv: string -> Option<string>)
    requires Valid(m)
    ensures SetRecords(m, recs, env, conv).Ok? ==> Valid(SetRecords(m, recs, env, conv).value)
    decreases |recs|
  {
    if |recs| > 0 && RecordProperty(recs[0]).Ok? {
      var p := RecordProperty(recs[0]).value;
      LegacyPolicies.SetPropertyKeepsValid(m, p, env, conv);
      if SetProperty(m, p, env, conv).Ok? {
        SetRecordsKeepsValid(SetProperty(m, p, env, conv).value, recs[1..], env, conv);
      }
    }
  }

  /** A recipient directory offers its entry's address to an unset "to" address only when it contains an `@`. */
  lemma RecipientDirectoryKeepsValid(m: Message, children: seq<Entry>)
    requires Valid(m)
    ensures CheckRecipientDirectory(m, children).Ok? ==> Valid(CheckRecipientDirectory(m, children).value)
  {
  }

  /** Whatever the older walk reads, the message's sender and "to" addresses are absent or contain an `@`. */
  lemma {:induction false} WalkKeepsValid(m: Message, es: seq<Entry>, env: Collaborators, conv: string -> Option<string>, cs: Converters)
    requires Valid(m)
    ensures CheckEntries(m, es, env, conv, cs).Ok? ==> Valid(CheckEntries(m, es, env, conv, cs).value)
    decreases EntriesSize(es), 1
  {
    if |es| > 0 && CheckEntry(m, es[0], env, conv, cs).Ok? {
      EntryKeepsValid(m, es[0], env, conv, cs);
      WalkKeepsValid(CheckEntry(m, es[0], env, conv, cs).value, es[1..], env, conv, cs);
    }
  }

  lemma {:induction false} EntryKeepsValid(m: Message, e: Entry, env: Collaborators, conv: string -> Option<string>, cs: Converters)
    requires Valid(m)
    ensures CheckEntry(m, e, env, conv, cs).Ok? ==> Valid(CheckEntry(m, e, env, conv, cs).value)
    decreases EntrySize(e), 0
  {
    match e
    case Leaf(name, bytes, size) =>
      if StartsWith(name, PropertiesStream.PROPS_KEY) {
        SetRecordsKeepsValid(m, PropertiesStream.Split(bytes), env, conv);
      } else if LegacyReadProperty(name, bytes, size).Ok? {
        LegacyPolicies.SetPropertyKeepsValid(m, LegacyReadProperty(name, bytes, size).value, env, conv);
      }
    case Dir(name, children) =>
      if StartsWith(name, RECIP_PREFIX) && !StartsWith(name, ATTACH_PREFIX) {
        RecipientDirectoryKeepsValid(m, children);
      } else if !StartsWith(name, ATTACH_PREFIX) {
        WalkKeepsValid(m, children, env, conv, cs);
      }
  }

  /** A message the older parser returns has its sender and "to" addresses absent or containing an `@`. */
  lemma ParsedAddressesValid(root: seq<Entry>, env: Collaborators, cs: Converters)
    ensures ParseMsg(root, env, cs).Ok? ==> Valid(ParseMsg(root, env, cs).value)
  {
    WalkKeepsValid(NewMessage(), root, env, cs.top, cs);
  }

  // ---------------------------------------------------------------------
  // Attachment directories

  /** Document streams alone never add to the message's attachments. */
  lemma {:induction false} LeavesOnlyFeedTheFile(m: Message, att: FileOutlookAttachment.FileAttachment, es: seq<Entry>, env: Collaborators, cs: Converters)
    requires forall k :: 0 <= k < |es| ==> es[k].Leaf?
    ensures AttachmentEntries(m, att, es, env, cs).Ok? ==> AttachmentEntries(m, att, es, env, cs).value.0 == m
    decreases |es|
  {
    if |es| > 0 && LegacyReadProperty(es[0].name, es[0].bytes, es[0].declaredSize).Ok?
      && FileOutlookAttachment.SetProperty(att, LegacyReadProperty(es[0].name, es[0].bytes, es[0].declaredSize).value).Ok?
    {
      var p := LegacyReadProperty(es[0].name, es[0].bytes, es[0].declaredSize).value;
      LeavesOnlyFeedTheFile(m, FileOutlookAttachment.SetProperty(att, p).value, es[1..], env, cs);
    }
  }

  /**
   * An attachment directory without sub-directories adds its file
   * attachment exactly when the size was set, whatever the data, and adds
   * nothing otherwise.
   */
  lemma FileAttachmentWhenSized(m: Message, children: seq<Entry>, env: Collaborators, cs: Converters)
    requires forall k :: 0 <= k < |children| ==> children[k].Leaf?
    ensures ParseAttachment(m, children, env, cs).Ok? ==>
      var a := AttachmentEntries(m, FileOutlookAttachment.NewFileAttachment(), children, env, cs).value.1;
      ParseAttachment(m, children, env, cs).value.attachments ==
        m.attachments + (if a.size > -1 then [Attachment.FileAttachment(a)] else [])
  {
    if ParseAttachment(m, children, env, cs).Ok? {
      LeavesOnlyFeedTheFile(m, FileOutlookAttachment.NewFileAttachment(), children, env, cs);
      var a := AttachmentEntries(m, FileOutlookAttachment.NewFileAttachment(), children, env, cs).value.1;
      if a.size <= -1 {
        assert m.attachments + [] == m.attachments;
      }
    }
  }

  /** A nested message, parsed with the default converter, is added ahead of the directory's file attachment. */
  lemma NestedMessageComesFirst(m: Message, name: string, nested: seq<Entry>, leaves: seq<Entry>, env: Collaborators, cs: Converters)
    requires forall k :: 0 <= k < |leaves| ==> leaves[k].Leaf?
    ensures ParseAttachment(m, [Dir(name, nested)] + leaves, env, cs).Ok? ==>
      && CheckEntries(NewMessage(), nested, env, cs.nested, cs).Ok?
      && var r := ParseAttachment(m, [Dir(name, nested)] + leaves, env, cs).value.attachments;
         |r| > |m.attachments| && r[|m.attachments|] == MsgAttachment(CheckEntries(NewMessage(), nested, env, cs.nested, cs).value)
  {
    var es := [Dir(name, nested)] + leaves;
    if ParseAttachment(m, es, env, cs).Err? {
      return;
    }
    assert es[0] == Dir(name, nested) && es[1..] == leaves;
    assert AttachmentEntries(m, FileOutlookAttachment.NewFileAttachment(), es, env, cs).Ok?;
    var n := CheckEntries(NewMessage(), nested, env, cs.nested, cs).value;
    var m' := AddAttachment(m, MsgAttachment(n));
    LeavesOnlyFeedTheFile(m', FileOutlookAttachment.NewFileAttachment(), leaves, env, cs);
    var r := ParseAttachment(m, es, env, cs).value.attachments;
    assert r[..|m'.attachments|] == m'.attachments;
  }
}
