/**
 * The file attachment of the older `attachment` package, which the older
 * parser fills. It has the same fields as the current one except the
 * content id, and no MIME or S/MIME fix-ups.
 */
module FileOutlookAttachment {
  import opened Wrappers
  import opened JavaLang
  import opened MapiProperty
  import Current = OutlookFileAttachment

  datatype FileAttachment = FileAttachment(
    filename: Option<string>,
    longFilename: Option<string>,
    mimeTag: Option<string>,
    extension: Option<string>,
    data: Option<seq<uint8>>,
    size: int)

  function NewFileAttachment(): (a: FileAttachment)
    ensures a.size == -1 && a.data.None? && a.filename.None? && a.longFilename.None? && a.mimeTag.None? && a.extension.None?
  {
    FileAttachment(None, None, None, None, None, -1)
  }

  /**
   * `setProperty`: the data class sets the size and the bytes, the four name
   * classes set their field; anything else, or a null class or value, is
   * ignored, and a value of the wrong kind throws `ClassCastException`.
   */
  function SetProperty(a: FileAttachment, p: Property): (r: Result<FileAttachment, Exception>)
    ensures p.clazz.None? || p.data.None? ==> r == Ok(a)
    ensures p.clazz.Some? && p.clazz.value !in {"3701", "3704", "3707", "370e", "3703"} ==> r == Ok(a)
    ensures p.clazz.Some? && p.data.Some? && p.clazz.value in {"3704", "3707", "370e", "3703"} ==>
      (r.Err? <==> !p.data.value.Text?)
    ensures r.Ok? && r.value.size != a.size ==> p.clazz == Some("3701") && r.value.size == p.size
  {
    if p.clazz.None? || p.data.None? then Ok(a)
    else
      var value := p.data.value;
      match p.clazz.value
      case "3701" =>
        (match AsBinary(value)
         case Err(e) => Err(e)
         case Ok(b) => Ok(a.(size := p.size, data := Some(b))))
      case "3704" =>
        (match AsText(value)
         case Err(e) => Err(e)
         case Ok(t) => Ok(a.(filename := Some(t))))
      case "3707" =>
        (match AsText(value)
         case Err(e) => Err(e)
         case Ok(t) => Ok(a.(longFilename := Some(t))))
      case "370e" =>
        (match AsText(value)
         case Err(e) => Err(e)
         case Ok(t) => Ok(a.(mimeTag := Some(t))))
      case "3703" =>
        (match AsText(value)
         case Err(e) => Err(e)
         case Ok(t) => Ok(a.(extension := Some(t))))
      case _ => Ok(a)
  }

  /** `toString`: the long file name when there is one, else the short one. */
  function ToString(a: FileAttachment): (s: Option<string>)
    ensures a.longFilename.Some? ==> s == a.longFilename
    ensures a.longFilename.None? ==> s == a.filename
  {
    if a.longFilename.Some? then a.longFilename else a.filename
  }

  /** The current attachment seen with the fields this one has. */
  function FromCurrent(c: Current.FileAttachment): (a: FileAttachment)
    ensures a.filename == c.filename && a.longFilename == c.longFilename && a.mimeTag == c.mimeTag
    ensures a.extension == c.extension && a.data == c.data && a.size == c.size
  {
    FileAttachment(c.filename, c.longFilename, c.mimeTag, c.extension, c.data, c.size)
  }

  /**
   * Both attachment classes take every property the same way: they throw on
   * the same properties and otherwise end with the same fields, and print
   * the same.
   */
  lemma SetPropertyAgreesWithCurrent(c: Current.FileAttachment, p: Property)
    ensures SetProperty(FromCurrent(c), p).Ok? <==> Current.SetProperty(c, p).Ok?
    ensures SetProperty(FromCurrent(c), p).Ok? ==>
      SetProperty(FromCurrent(c), p).value == FromCurrent(Current.SetProperty(c, p).value)
    ensures ToString(FromCurrent(c)) == Current.ToString(c)
  {
  }

  /** A new legacy attachment is the current new attachment. */
  lemma NewAgreesWithCurrent()
    ensures NewFileAttachment() == FromCurrent(Current.NewFileAttachment())
  {
  }
}
