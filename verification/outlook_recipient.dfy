/** A recipient of an Outlook message: display name, e-mail address and the raw property map. */
module OutlookRecipient {
  import opened Wrappers
  import opened JavaLang
  import opened MapiProperty

  const TAG_EMAIL_ADDRESS: int := 0x3003
  const TAG_SMTP_ADDRESS: int := 0x39fe
  const TAG_DISPLAY_NAME: int := 0x3001

  datatype Recipient = Recipient(name: Option<string>, address: Option<string>, properties: map<int, Value>)

  function NewRecipient(): (r: Recipient)
    ensures r.name.None? && r.address.None? && r.properties == map[]
  {
    Recipient(None, None, map[])
  }

  /** Every address a recipient holds contains an `@`. */
  predicate Valid(r: Recipient) {
    r.address.Some? ==> Contains(r.address.value, "@")
  }

  /** `setAddress`: the first non-null value that contains an `@` wins. */
  function SetAddress(r: Recipient, address: Option<string>): (r': Recipient)
    ensures r'.name == r.name && r'.properties == r.properties
    ensures r.address.Some? ==> r'.address == r.address
    ensures r.address.None? && address.Some? && Contains(address.value, "@") ==> r'.address == address
    ensures r'.address != r.address ==> r'.address == address
    ensures Valid(r) ==> Valid(r')
  {
    if r.address.None? && address.Some? && Contains(address.value, "@") then r.(address := address) else r
  }

  /** `setName`: the last non-null value wins. */
  function SetName(r: Recipient, name: Option<string>): (r': Recipient)
    ensures r'.address == r.address && r'.properties == r.properties
    ensures name.Some? ==> r'.name == name
    ensures name.None? ==> r'.name == r.name
  {
    if name.Some? then r.(name := name) else r
  }

  /**
   * `setProperty`: a property with a null class or value changes nothing;
   * the address and display-name tags go through their setters (a value
   * that is not text throws); every other property is only recorded in the
   * map, keyed by the parsed tag (-1 when it does not parse).
   */
  function SetProperty(r: Recipient, p: Property): (res: Result<Recipient, Exception>)
    ensures p.clazz.None? || p.data.None? ==> res == Ok(r)
    ensures res.Err? <==>
      p.clazz.Some? && p.data.Some? && !p.data.value.Text?
      && MapiClass(p.clazz.value) in {TAG_EMAIL_ADDRESS, TAG_SMTP_ADDRESS, TAG_DISPLAY_NAME}
    ensures res.Ok? && p.clazz.Some? && p.data.Some? ==>
      res.value.properties == r.properties[MapiClass(p.clazz.value) := p.data.value]
    ensures res.Ok? && r.address.Some? ==> res.value.address == r.address
    ensures res.Ok? && Valid(r) ==> Valid(res.value)
  {
    if p.clazz.None? || p.data.None? then Ok(r)
    else
      var tag := MapiClass(p.clazz.value);
      var value := p.data.value;
      var updated :=
        if tag == TAG_EMAIL_ADDRESS || tag == TAG_SMTP_ADDRESS then
          match AsText(value)
          case Err(e) => Err(e)
          case Ok(t) => Ok(SetAddress(r, Some(t)))
        else if tag == TAG_DISPLAY_NAME then
          match AsText(value)
          case Err(e) => Err(e)
          case Ok(t) => Ok(SetName(r, Some(t)))
        else Ok(r);
      match updated
      case Err(e) => Err(e)
      case Ok(r') => Ok(r'.(properties := r'.properties[tag := value]))
  }

  /** The recipient built from its property streams, in order; the first exception stops it. */
  function SetProperties(r: Recipient, ps: seq<Property>): (res: Result<Recipient, Exception>)
    decreases |ps|
  {
    if |ps| == 0 then Ok(r)
    else
      match SetProperty(r, ps[0])
      case Err(e) => Err(e)
      case Ok(r') => SetProperties(r', ps[1..])
  }

  /** The address an address property offers to `setAddress`, if it offers one with an `@`. */
  function OfferedAddress(p: Property): Option<string> {
    if p.clazz.Some? && p.data.Some? && p.data.value.Text?
       && MapiClass(p.clazz.value) in {TAG_EMAIL_ADDRESS, TAG_SMTP_ADDRESS}
       && Contains(p.data.value.text, "@")
    then Some(p.data.value.text)
    else None
  }

  /** The first address offered by a sequence of properties. */
  function FirstOfferedAddress(ps: seq<Property>): Option<string>
    decreases |ps|
  {
    if |ps| == 0 then None
    else if OfferedAddress(ps[0]).Some? then OfferedAddress(ps[0])
    else FirstOfferedAddress(ps[1..])
  }

  /**
   * A recipient read from scratch keeps the first address with an `@` that
   * its address properties offer, whatever follows.
   */
  lemma {:induction false} AddressIsFirstOffered(r: Recipient, ps: seq<Property>)
    requires r.address.None?
    requires SetProperties(r, ps).Ok?
    ensures SetProperties(r, ps).value.address == FirstOfferedAddress(ps)
    decreases |ps|
  {
    if |ps| > 0 {
      var r' := SetProperty(r, ps[0]).value;
      if OfferedAddress(ps[0]).Some? {
        assert r'.address == OfferedAddress(ps[0]);
        KeepsAddress(r', ps[1..]);
      } else {
        assert r'.address.None?;
        AddressIsFirstOffered(r', ps[1..]);
      }
    }
  }

  lemma {:induction false} KeepsAddress(r: Recipient, ps: seq<Property>)
    requires r.address.Some? && SetProperties(r, ps).Ok?
    ensures SetProperties(r, ps).value.address == r.address
    decreases |ps|
  {
    if |ps| > 0 {
      KeepsAddress(SetProperty(r, ps[0]).value, ps[1..]);
    }
  }

  /** `equals`: same address and same name; the property map does not take part. */
  predicate Equals(a: Recipient, b: Recipient) {
    a.address == b.address && a.name == b.name
  }

  /** `hashCode`: `Objects.hash(address, name)`. */
  function HashCode(r: Recipient): (h: int)
    ensures IsInt32(h)
  {
    ObjectsHash([r.address, r.name])
  }

  /** Equal recipients hash alike. */
  lemma EqualsHashCode(a: Recipient, b: Recipient)
    requires Equals(a, b)
    ensures HashCode(a) == HashCode(b)
  {
  }

  /**
   * `toString`: the name (the text "null" when there is none), a space
   * when that is not empty, then the address in angle brackets when there
   * is a non-empty one.
   */
  function ToString(r: Recipient): (s: string)
    ensures r.name.Some? && r.name.value != "" ==> StartsWith(s, r.name.value + " ")
    ensures r.name.None? ==> StartsWith(s, "null ")
    ensures r.address.Some? && r.address.value != "" ==> EndsWith(s, "<" + r.address.value + ">")
    ensures (r.address.None? || r.address.value == "") ==> s == (match r.name case None => "null " case Some(n) => if n == "" then "" else n + " ")
  {
    var shown := ValueOf(r.name);
    var prefix := if |shown| > 0 then shown + " " else shown;
    var s := if r.address.Some? && |r.address.value| > 0 then prefix + "<" + r.address.value + ">" else prefix;
    assert r.name.Some? && r.name.value != "" ==> s[..|r.name.value + " "|] == r.name.value + " ";
    assert r.name.None? ==> s[..5] == "null ";
    s
  }
}
