/**
 * The overwrite policies of the message's property setter, stated over a
 * single property and over a whole sequence of properties read in order.
 */
module MessagePolicies {
  import opened Wrappers
  import opened JavaLang
  import opened Collaborators
  import opened MapiProperty
  import opened OutlookMessage

  /** The tag a property is dispatched on, when it is not ignored. */
  predicate Carries(p: Property, tag: int) {
    p.clazz.Some? && p.data.Some? && MapiClass(p.clazz.value) == tag
  }

  /** The text a carried property hands to the field setters. */
  function TextOf(p: Property, env: Collaborators): string
    requires p.data.Some?
  {
    ValueToString(p.data.value, env)
  }

  // ---------------------------------------------------------------------
  // Last value wins

  /**
   * The plain fields take the text of the last property that carries one
   * of their tags: class, id, subject (two tags), sender name and the three
   * display strings.
   */
  lemma SetPropertyLastWins(m: Message, p: Property, env: Collaborators)
    ensures var r := SetProperty(m, p, env); r.Ok? ==>
      && (Carries(p, TAG_MESSAGE_CLASS) ==> r.value.messageClass == TextOf(p, env))
      && (Carries(p, TAG_MESSAGE_ID) ==> r.value.messageId == Some(TextOf(p, env)))
      && (Carries(p, TAG_SUBJECT) || Carries(p, TAG_NORMALIZED_SUBJECT) ==> r.value.subject == Some(TextOf(p, env)))
      && (Carries(p, TAG_SENT_REPRESENTING_NAME) ==> r.value.fromName == Some(TextOf(p, env)))
      && (Carries(p, TAG_DISPLAY_TO) ==> r.value.displayTo == Some(TextOf(p, env)))
      && (Carries(p, TAG_DISPLAY_CC) ==> r.value.displayCc == Some(TextOf(p, env)))
      && (Carries(p, TAG_DISPLAY_BCC) ==> r.value.displayBcc == Some(TextOf(p, env)))
  {
  }

  // ---------------------------------------------------------------------
  // First value wins

  /** One property never replaces a body text or an RTF body that is already set. */
  lemma SetPropertyKeepsFirstBodies(m: Message, p: Property, env: Collaborators)
    ensures var r := SetProperty(m, p, env); r.Ok? ==>
      && (m.bodyText.Some? ==> r.value.bodyText == m.bodyText)
      && (m.bodyRTF.Some? ==> r.value.bodyRTF == m.bodyRTF)
  {
  }

  /** Once set, the body text and the RTF body survive every later property. */
  lemma {:induction false} KeepsFirstBodies(m: Message, ps: seq<Property>, env: Collaborators)
    ensures var r := SetProperties(m, ps, env); r.Ok? ==>
      && (m.bodyText.Some? ==> r.value.bodyText == m.bodyText)
      && (m.bodyRTF.Some? ==> r.value.bodyRTF == m.bodyRTF)
    decreases |ps|
  {
    if |ps| > 0 && SetProperty(m, ps[0], env).Ok? {
      SetPropertyKeepsFirstBodies(m, ps[0], env);
      KeepsFirstBodies(SetProperty(m, ps[0], env).value, ps[1..], env);
    }
  }

  /** The body text offered by a property: the text of a body property. */
  function OfferedBodyText(p: Property, env: Collaborators): Option<string> {
    if Carries(p, TAG_BODY) then Some(TextOf(p, env)) else None
  }

  /** The first body text offered in a sequence of properties. */
  function FirstBodyText(ps: seq<Property>, env: Collaborators): Option<string>
    decreases |ps|
  {
    if |ps| == 0 then None
    else if OfferedBodyText(ps[0], env).Some? then OfferedBodyText(ps[0], env)
    else FirstBodyText(ps[1..], env)
  }

  lemma SetPropertyBodyText(m: Message, p: Property, env: Collaborators)
    requires m.bodyText.None?
    ensures SetProperty(m, p, env).Ok? ==> SetProperty(m, p, env).value.bodyText == OfferedBodyText(p, env)
  {
  }

  /** A message read from scratch has the first body text offered, whatever follows. */
  lemma {:induction false} BodyTextIsFirstOffered(m: Message, ps: seq<Property>, env: Collaborators)
    requires m.bodyText.None?
    ensures SetProperties(m, ps, env).Ok? ==> SetProperties(m, ps, env).value.bodyText == FirstBodyText(ps, env)
    decreases |ps|
  {
    if |ps| > 0 && SetProperty(m, ps[0], env).Ok? {
      var m' := SetProperty(m, ps[0], env).value;
      SetPropertyBodyText(m, ps[0], env);
      if m'.bodyText.Some? {
        KeepsFirstBodies(m', ps[1..], env);
      } else {
        BodyTextIsFirstOffered(m', ps[1..], env);
      }
    }
  }

  // ---------------------------------------------------------------------
  // The HTML body only grows

  lemma SetPropertyHtmlGrows(m: Message, p: Property, env: Collaborators)
    requires m.bodyHTML.Some?
    ensures var r := SetProperty(m, p, env); r.Ok? ==>
      r.value.bodyHTML.Some? && Utf16Length(m.bodyHTML.value) <= Utf16Length(r.value.bodyHTML.value)
  {
  }

  /** The HTML body, once set, never gets shorter. */
  lemma {:induction false} HtmlNeverShrinks(m: Message, ps: seq<Property>, env: Collaborators)
    requires m.bodyHTML.Some?
    ensures var r := SetProperties(m, ps, env); r.Ok? ==>
      r.value.bodyHTML.Some? && Utf16Length(m.bodyHTML.value) <= Utf16Length(r.value.bodyHTML.value)
    decreases |ps|
  {
    if |ps| > 0 && SetProperty(m, ps[0], env).Ok? {
      SetPropertyHtmlGrows(m, ps[0], env);
      HtmlNeverShrinks(SetProperty(m, ps[0], env).value, ps[1..], env);
    }
  }

  /** Offering the same HTML body twice is the same as offering it once. */
  lemma SetBodyHTMLIdempotent(m: Message, html: string)
    ensures SetBodyHTML(SetBodyHTML(m, html), html) == SetBodyHTML(m, html)
  {
  }

  // ---------------------------------------------------------------------
  // The sender address is the last candidate with an `@`

  /**
   * The sender address a property offers: the text of a sender-address
   * property when it contains an `@`, or the `From:` address of a header
   * block.
   */
  function OfferedFromEmail(p: Property, env: Collaborators): (r: Option<string>)
    ensures r.Some? ==> '@' in r.value
  {
    if Carries(p, TAG_TRANSPORT_HEADERS) then FromEmailFromHeaders(TextOf(p, env))
    else if p.clazz.Some? && p.data.Some? && MapiClass(p.clazz.value) in FROM_EMAIL_TAGS && '@' in TextOf(p, env)
    then Some(TextOf(p, env))
    else None
  }

  /** The last sender address offered in a sequence of properties. */
  function LastFromEmail(ps: seq<Property>, env: Collaborators): (r: Option<string>)
    decreases |ps|
  {
    if |ps| == 0 then None
    else
      var later := LastFromEmail(ps[1..], env);
      if later.Some? then later else OfferedFromEmail(ps[0], env)
  }

  /** The switch hands a header block to `setHeaders`. */
  lemma DispatchHeaders(m: Message, v: Value, s: string, env: Collaborators)
    requires s == ValueToString(v, env)
    ensures Dispatch(m, TAG_TRANSPORT_HEADERS, v, env) == Ok(SetHeaders(m, s, env))
  {
  }

  /** The switch hands a sender-address property to `setFromEmail`. */
  lemma DispatchSenderEmail(m: Message, tag: int, v: Value, s: string, env: Collaborators)
    requires s == ValueToString(v, env) && tag in FROM_EMAIL_TAGS
    ensures Dispatch(m, tag, v, env) == Ok(SetFromEmail(m, s))
  {
    assert Dispatch(m, tag, v, env) == Ok(DispatchSenderAndDates(m, tag, s, env));
  }

  /** Every other tag leaves the sender address alone. */
  lemma DispatchKeepsFromEmail(m: Message, tag: int, v: Value, env: Collaborators)
    requires tag != TAG_TRANSPORT_HEADERS && tag !in FROM_EMAIL_TAGS
    ensures Dispatch(m, tag, v, env).Ok? ==> Dispatch(m, tag, v, env).value.fromEmail == m.fromEmail
  {
    var s := ValueToString(v, env);
    if tag in TEXT_FIELD_TAGS {
      assert Dispatch(m, tag, v, env) == Ok(DispatchText(m, tag, s));
    } else if tag in BODY_TAGS {
      assert Dispatch(m, tag, v, env) == Ok(DispatchBody(m, tag, v, env));
    } else if tag in SENDER_AND_DATE_TAGS {
      assert Dispatch(m, tag, v, env) == Ok(DispatchSenderAndDates(m, tag, s, env));
    }
  }

  lemma SetPropertyFromEmail(m: Message, p: Property, env: Collaborators)
    ensures var r := SetProperty(m, p, env); r.Ok? ==>
      r.value.fromEmail == if OfferedFromEmail(p, env).Some? then OfferedFromEmail(p, env) else m.fromEmail
  {
    if p.clazz.Some? && p.data.Some? {
      var tag := MapiClass(p.clazz.value);
      if tag == TAG_TRANSPORT_HEADERS {
        DispatchHeaders(m, p.data.value, TextOf(p, env), env);
      } else if tag in FROM_EMAIL_TAGS {
        DispatchSenderEmail(m, tag, p.data.value, TextOf(p, env), env);
      } else {
        DispatchKeepsFromEmail(m, tag, p.data.value, env);
      }
    }
  }

  /**
   * After any sequence of properties the sender address is the last one
   * offered, or the one held before when none was offered.
   */
  lemma {:induction false} FromEmailIsLastOffered(m: Message, ps: seq<Property>, env: Collaborators)
    ensures var r := SetProperties(m, ps, env); r.Ok? ==>
      r.value.fromEmail == if LastFromEmail(ps, env).Some? then LastFromEmail(ps, env) else m.fromEmail
    decreases |ps|
  {
    if |ps| > 0 && SetProperty(m, ps[0], env).Ok? {
      SetPropertyFromEmail(m, ps[0], env);
      FromEmailIsLastOffered(SetProperty(m, ps[0], env).value, ps[1..], env);
    }
  }

  /** Every sender address the message ever holds contains an `@`. */
  lemma FromEmailStaysValid(m: Message, ps: seq<Property>, env: Collaborators)
    requires Valid(m)
    ensures SetProperties(m, ps, env).Ok? ==> Valid(SetProperties(m, ps, env).value)
  {
    FromEmailIsLastOffered(m, ps, env);
    LastFromEmailHasAt(ps, env);
  }

  lemma {:induction false} LastFromEmailHasAt(ps: seq<Property>, env: Collaborators)
    ensures LastFromEmail(ps, env).Some? ==> '@' in LastFromEmail(ps, env).value
    decreases |ps|
  {
    if |ps| > 0 {
      LastFromEmailHasAt(ps[1..], env);
    }
  }

  // ---------------------------------------------------------------------
  // The raw map

  /** The raw value recorded for a tag: the value of the last property that carries it. */
  function LastRaw(ps: seq<Property>, tag: int): (r: Option<Value>)
    decreases |ps|
  {
    if |ps| == 0 then None
    else
      var later := LastRaw(ps[1..], tag);
      if later.Some? then later
      else if Carries(ps[0], tag) then ps[0].data
      else None
  }

  /** After any sequence of properties each tag maps to the last value carried for it. */
  lemma {:induction false} RawIsLastCarried(m: Message, ps: seq<Property>, env: Collaborators, tag: int)
    ensures var r := SetProperties(m, ps, env); r.Ok? ==>
      && (LastRaw(ps, tag).Some? ==> tag in r.value.properties && r.value.properties[tag] == LastRaw(ps, tag).value)
      && (LastRaw(ps, tag).None? ==>
            (tag in r.value.properties <==> tag in m.properties)
            && (tag in m.properties ==> r.value.properties[tag] == m.properties[tag]))
    decreases |ps|
  {
    if |ps| > 0 && SetProperty(m, ps[0], env).Ok? {
      RawIsLastCarried(SetProperty(m, ps[0], env).value, ps[1..], env, tag);
    }
  }
}
