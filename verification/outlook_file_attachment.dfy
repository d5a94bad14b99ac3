/** A file attached to an Outlook message, filled from the property streams of its attachment directory. */
module OutlookFileAttachment {
  import opened Wrappers
  import opened JavaLang
  import opened MapiProperty

  const SMIME_SIGNATURE_FILENAME: string := "smime.p7s"
  const PKCS7_PROTOCOL: string := "protocol=\"application/pkcs7-signature\""

  /**
   * The attachment's fields. `contentId` is read by the message's CID
   * lookup; no property sets it. `size` is the declared size of the data
   * stream, -1 until one is seen.
   */
  datatype FileAttachment = FileAttachment(
    filename: Option<string>,
    longFilename: Option<string>,
    mimeTag: Option<string>,
    extension: Option<string>,
    contentId: Option<string>,
    data: Option<seq<uint8>>,
    size: int)

  function NewFileAttachment(): (a: FileAttachment)
    ensures a.size == -1 && a.data.None? && a.filename.None? && a.longFilename.None? && a.mimeTag.None?
  {
    FileAttachment(None, None, None, None, None, None, -1)
  }

  /**
   * `setProperty`: dispatches on the class string exactly as written
   * (lower-case hex); a null class or value, or any other class, changes
   * nothing. The data class records both the bytes and the declared size; a
   * value of the wrong kind throws `ClassCastException`.
   */
  function SetProperty(a: FileAttachment, p: Property): (r: Result<FileAttachment, Exception>)
    ensures p.clazz.None? || p.data.None? ==> r == Ok(a)
    ensures p.clazz.Some? && p.clazz.value !in {"3701", "3704", "3707", "370e", "3703"} ==> r == Ok(a)
    ensures p.clazz == Some("3701") && p.data.Some? ==>
      match p.data.value
      case Binary(b) => r == Ok(a.(size := p.size, data := Some(b)))
      case _ => r == Err(ClassCast)
    ensures r.Ok? ==> r.value.contentId == a.contentId
    ensures r.Ok? && r.value.size != a.size ==> p.clazz == Some("3701") && r.value.size == p.size
  {
    if p.clazz.None? || p.data.None? then Ok(a)
    else
      var value := p.data.value;
      match p.clazz.value
      case "3701" =>
        (match AsBinary(value)
         case Err(e) => Err(e)
         case Ok(b) => Ok(a.(size := p.size, data := Some(b))))
      case "3704" =>
        (match AsText(value)
         case Err(e) => Err(e)
         case Ok(t) => Ok(a.(filename := Some(t))))
      case "3707" =>
        (match AsText(value)
         case Err(e) => Err(e)
         case Ok(t) => Ok(a.(longFilename := Some(t))))
      case "370e" =>
        (match AsText(value)
         case Err(e) => Err(e)
         case Ok(t) => Ok(a.(mimeTag := Some(t))))
      case "3703" =>
        (match AsText(value)
         case Err(e) => Err(e)
         case Ok(t) => Ok(a.(extension := Some(t))))
      case _ => Ok(a)
  }

  /** A MIME tag that names a detached S/MIME signature (or a signed message with no protocol). */
  predicate IsSmimeSignatureTag(mimeTag: string) {
    Contains(mimeTag, "multipart/signed")
    && (!Contains(mimeTag, "protocol") || Contains(mimeTag, PKCS7_PROTOCOL))
  }

  /**
   * `checkSmimeFilename`: an attachment without a file name whose MIME tag
   * is a multipart/signed one, with no protocol or the PKCS#7 signature
   * protocol, is named `smime.p7s`.
   */
  function CheckSmimeFilename(a: FileAttachment): (r: FileAttachment)
    ensures r.(filename := a.filename) == a
    ensures r.filename != a.filename <==>
      a.filename.None? && a.mimeTag.Some? && IsSmimeSignatureTag(a.mimeTag.value)
    ensures r.filename != a.filename ==> r.filename == Some(SMIME_SIGNATURE_FILENAME)
  {
    if a.filename.None? && a.mimeTag.Some? && IsSmimeSignatureTag(a.mimeTag.value)
    then a.(filename := Some(SMIME_SIGNATURE_FILENAME))
    else a
  }

  /** Naming the signature twice changes nothing more. */
  lemma CheckSmimeFilenameIdempotent(a: FileAttachment)
    ensures CheckSmimeFilename(CheckSmimeFilename(a)) == CheckSmimeFilename(a)
  {
  }

  /**
   * `checkMimeTag`: an attachment without a (non-empty) MIME tag gets the
   * content type of its file name, or else of its long file name, when one
   * is non-empty; the lookup is on the lower-cased name.
   */
  function CheckMimeTag(a: FileAttachment, mimeTypes: string -> string): (r: FileAttachment)
    ensures r.(mimeTag := a.mimeTag) == a
    ensures a.mimeTag.Some? && a.mimeTag.value != "" ==> r == a
    ensures r.mimeTag != a.mimeTag ==>
      (a.filename.Some? && a.filename.value != "" && r.mimeTag == Some(mimeTypes(ToLower(a.filename.value))))
      || ((a.filename.None? || a.filename.value == "") && a.longFilename.Some? && a.longFilename.value != ""
          && r.mimeTag == Some(mimeTypes(ToLower(a.longFilename.value))))
    ensures (a.mimeTag.None? || a.mimeTag.value == "") && a.filename.Some? && a.filename.value != "" ==>
      r.mimeTag == Some(mimeTypes(ToLower(a.filename.value)))
  {
    if a.mimeTag.None? || a.mimeTag.value == "" then
      if a.filename.Some? && a.filename.value != "" then a.(mimeTag := Some(mimeTypes(ToLower(a.filename.value))))
      else if a.longFilename.Some? && a.longFilename.value != "" then a.(mimeTag := Some(mimeTypes(ToLower(a.longFilename.value))))
      else a
    else a
  }

  /** A text shorter than a pattern does not contain it. */
  lemma ShorterNotContains(s: string, sub: string)
    requires |s| < |sub|
    ensures !Contains(s, sub)
  {
  }

  /** Scenario of the attachment's unit test: a PNG is no signature. */
  lemma SmimeScenarioPng()
    ensures CheckSmimeFilename(NewFileAttachment().(mimeTag := Some("image/png"))).filename == None
  {
    ShorterNotContains("image/png", "multipart/signed");
  }

  /** Scenario of the attachment's unit test: a signed message with no protocol is named. */
  lemma SmimeScenarioNoProtocol()
    ensures CheckSmimeFilename(NewFileAttachment().(mimeTag := Some("multipart/signed"))).filename == Some("smime.p7s")
  {
    var signed := "multipart/signed";
    assert signed == "" + signed + "";
    ContainsPart("", signed, "");
    if Contains(signed, "protocol") {
      ContainsHasChar(signed, "protocol", 6);
      assert false;
    }
  }

  /** Scenario of the attachment's unit test: an existing file name is kept. */
  lemma SmimeScenarioNamed()
    ensures CheckSmimeFilename(NewFileAttachment().(filename := Some("file"), mimeTag := Some("multipart/signed"))).filename == Some("file")
  {
  }

  /** Scenario of the attachment's unit test: another protocol is no signature. */
  lemma SmimeScenarioOtherProtocol()
    ensures CheckSmimeFilename(NewFileAttachment().(mimeTag := Some("multipart/signed;protocol=\"moomoo\""))).filename == None
  {
    var moo := "multipart/signed;protocol=\"moomoo\"";
    assert moo == "multipart/signed;" + "protocol" + "=\"moomoo\"";
    ContainsPart("multipart/signed;", "protocol", "=\"moomoo\"");
    ShorterNotContains(moo, "protocol=\"application/pkcs7-signature\"");
  }

  /** Scenario of the attachment's unit test: the PKCS#7 signature protocol is named. */
  lemma SmimeScenarioPkcs7()
    ensures CheckSmimeFilename(NewFileAttachment().(mimeTag := Some("multipart/signed" + ";" + PKCS7_PROTOCOL))).filename
            == Some("smime.p7s")
  {
    var tag := "multipart/signed" + ";" + PKCS7_PROTOCOL;
    assert tag == "" + "multipart/signed" + (";" + PKCS7_PROTOCOL);
    ContainsPart("", "multipart/signed", ";" + PKCS7_PROTOCOL);
    assert tag == ("multipart/signed" + ";") + PKCS7_PROTOCOL + "";
    ContainsPart("multipart/signed" + ";", PKCS7_PROTOCOL, "");
  }

  /** Looking the MIME tag up twice gives what looking it up once gave. */
  lemma CheckMimeTagIdempotent(a: FileAttachment, mimeTypes: string -> string)
    ensures CheckMimeTag(CheckMimeTag(a, mimeTypes), mimeTypes) == CheckMimeTag(a, mimeTypes)
  {
  }

  /** `toString`: the long file name when there is one, else the short one. */
  function ToString(a: FileAttachment): (s: Option<string>)
    ensures a.longFilename.Some? ==> s == a.longFilename
    ensures a.longFilename.None? ==> s == a.filename
  {
    if a.longFilename.Some? then a.longFilename else a.filename
  }
}
