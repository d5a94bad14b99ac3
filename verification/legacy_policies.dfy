/**
 * What the older message's setter keeps true over any sequence of
 * properties: every sender and "to" address it holds contains an `@`, the
 * text and RTF bodies never change once set, and the HTML body never
 * becomes shorter.
 */
module LegacyPolicies {
  import opened Wrappers
  import opened JavaLang
  import opened Collaborators
  import opened MapiProperty
  import OM = OutlookMessage
  import opened LegacyMessage

  // ---------------------------------------------------------------------
  // Addresses

  lemma AddressesKeepValid(m: Message, tag: int, s: string)
    requires Valid(m) && tag in ADDRESS_TAGS
    ensures Valid(DispatchAddresses(m, tag, s))
  {
  }

  lemma HeadersKeepValid(m: Message, tag: int, s: string, env: Collaborators)
    requires Valid(m) && tag in HEADER_AND_DATE_TAGS
    ensures Valid(DispatchHeadersAndDates(m, tag, s, env))
  {
  }

  lemma DispatchKeepsValid(m: Message, tag: int, v: Value, env: Collaborators, converter: string -> Option<string>)
    requires Valid(m)
    ensures Valid(Dispatch(m, tag, v, env, converter))
  {
    var s := ValueToString(v, env);
    if tag in ADDRESS_TAGS && tag !in OM.TEXT_FIELD_TAGS && tag !in OM.BODY_TAGS {
      AddressesKeepValid(m, tag, s);
    } else if tag in HEADER_AND_DATE_TAGS && tag !in OM.TEXT_FIELD_TAGS && tag !in OM.BODY_TAGS {
      HeadersKeepValid(m, tag, s, env);
    }
  }

  /** The "to" address taken from the named recipient is forced only when it contains an `@`. */
  lemma CheckToRecipientKeepsValid(m: Message)
    requires Valid(m)
    ensures CheckToRecipient(m).Ok? ==> Valid(CheckToRecipient(m).value)
  {
    var found := GetToRecipient(m);
    if found.Ok? && found.value.Some? {
      var rec := m.recipients[found.value.value];
      var m1 := SetToEmail(m, rec.address, true);
      assert Valid(m1);
      var m2 := SetToName(m1, rec.name);
      assert Valid(m2.(recipients := [rec] + RemoveFirst(m.recipients, rec)));
    }
  }

  lemma SetPropertyKeepsValid(m: Message, p: Property, env: Collaborators, converter: string -> Option<string>)
    requires Valid(m)
    ensures SetProperty(m, p, env, converter).Ok? ==> Valid(SetProperty(m, p, env, converter).value)
  {
    if p.clazz.Some? && p.data.Some? {
      var tag := MapiClass(p.clazz.value);
      var m' := Dispatch(m, tag, p.data.value, env, converter);
      DispatchKeepsValid(m, tag, p.data.value, env, converter);
      CheckToRecipientKeepsValid(m'.(properties := m'.properties[tag := p.data.value]));
    }
  }

  /** Whatever properties the older message reads, its sender and "to" addresses are absent or contain an `@`. */
  lemma {:induction false} SetPropertiesKeepsValid(m: Message, ps: seq<Property>, env: Collaborators, converter: string -> Option<string>)
    requires Valid(m)
    ensures SetProperties(m, ps, env, converter).Ok? ==> Valid(SetProperties(m, ps, env, converter).value)
    decreases |ps|
  {
    if |ps| > 0 && SetProperty(m, ps[0], env, converter).Ok? {
      SetPropertyKeepsValid(m, ps[0], env, converter);
      SetPropertiesKeepsValid(SetProperty(m, ps[0], env, converter).value, ps[1..], env, converter);
    }
  }

  // ---------------------------------------------------------------------
  // Bodies

  /** The bodies of `n` are those of `m` or grown from them under the setter's policies. */
  predicate BodiesGrow(m: Message, n: Message) {
    (m.bodyText.Some? ==> n.bodyText == m.bodyText)
    && (m.bodyRTF.Some? ==> n.bodyRTF == m.bodyRTF)
    && (m.bodyHTML.Some? ==> n.bodyHTML.Some? && Utf16Length(m.bodyHTML.value) <= Utf16Length(n.bodyHTML.value))
  }

  lemma BodyCasesGrow(m: Message, tag: int, v: Value, env: Collaborators, converter: string -> Option<string>)
    requires tag in OM.BODY_TAGS
    ensures BodiesGrow(m, DispatchBody(m, tag, v, env, converter))
  {
  }

  lemma DispatchBodiesGrow(m: Message, tag: int, v: Value, env: Collaborators, converter: string -> Option<string>)
    ensures BodiesGrow(m, Dispatch(m, tag, v, env, converter))
  {
    if tag in OM.BODY_TAGS && tag !in OM.TEXT_FIELD_TAGS {
      BodyCasesGrow(m, tag, v, env, converter);
    }
  }

  lemma SetPropertyBodiesGrow(m: Message, p: Property, env: Collaborators, converter: string -> Option<string>)
    ensures SetProperty(m, p, env, converter).Ok? ==> BodiesGrow(m, SetProperty(m, p, env, converter).value)
  {
    if p.clazz.Some? && p.data.Some? {
      DispatchBodiesGrow(m, MapiClass(p.clazz.value), p.data.value, env, converter);
    }
  }

  /**
   * Over any sequence of properties the text and RTF bodies keep their
   * first value and the HTML body never becomes shorter.
   */
  lemma {:induction false} SetPropertiesBodiesGrow(m: Message, ps: seq<Property>, env: Collaborators, converter: string -> Option<string>)
    ensures SetProperties(m, ps, env, converter).Ok? ==> BodiesGrow(m, SetProperties(m, ps, env, converter).value)
    decreases |ps|
  {
    if |ps| > 0 && SetProperty(m, ps[0], env, converter).Ok? {
      var m' := SetProperty(m, ps[0], env, converter).value;
      SetPropertyBodiesGrow(m, ps[0], env, converter);
      SetPropertiesBodiesGrow(m', ps[1..], env, converter);
    }
  }
}
