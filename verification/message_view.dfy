/**
 * What a message shows of itself beyond its fields: the recipient lists
 * per role, picked out of all recipients by the display strings, and the
 * human-readable summary `toString` prints.
 */
module MessageView {
  import opened Wrappers
  import opened JavaLang
  import opened Collaborators
  import OutlookRecipient
  import opened OutlookMessage

  type Recipient = OutlookRecipient.Recipient

  // ---------------------------------------------------------------------
  // Recipients per role

  /** A recipient is listed under a display string when its trimmed name occurs in it. */
  predicate Listed(key: string, x: Recipient) {
    x.name.Some? && Contains(key, Trim(x.name.value))
  }

  /** Every recipient has a name; a nameless one makes `trim()` throw. */
  predicate AllNamed(rs: seq<Recipient>) {
    forall k :: 0 <= k < |rs| ==> rs[k].name.Some?
  }

  /** The test `filterRecipients` applies, for one trimmed display string. */
  function ListedUnder(key: string): Recipient -> bool {
    x => Listed(key, x)
  }

  /** The loop of `filterRecipients` over the recipients, keeping those that pass `keep`. */
  function FilterWith(rs: seq<Recipient>, keep: Recipient -> bool): (r: Result<seq<Recipient>, Exception>)
    ensures r.Ok? <==> AllNamed(rs)
    ensures r.Err? ==> r.error == NullPointer
    decreases |rs|
  {
    if |rs| == 0 then Ok([])
    else if rs[0].name.None? then Err(NullPointer)
    else
      assert AllNamed(rs) <==> AllNamed(rs[1..]) by {
        if AllNamed(rs[1..]) {
          forall k | 0 <= k < |rs| ensures rs[k].name.Some? {
            if k > 0 { assert rs[k] == rs[1..][k - 1]; }
          }
        }
      }
      match FilterWith(rs[1..], keep)
      case Err(e) => Err(e)
      case Ok(rest) => Ok((if keep(rs[0]) then [rs[0]] else []) + rest)
  }

  /**
   * `filterRecipients`: the recipients listed under a display string, in
   * their original order; a null display string or a nameless recipient
   * throws a null-pointer exception.
   */
  function FilterRecipients(rs: seq<Recipient>, display: Option<string>): (r: Result<seq<Recipient>, Exception>)
    ensures r.Ok? <==> display.Some? && AllNamed(rs)
    ensures r.Err? ==> r.error == NullPointer
    ensures r.Ok? ==> r == FilterWith(rs, ListedUnder(Trim(display.value)))
  {
    if display.None? then Err(NullPointer) else FilterWith(rs, ListedUnder(Trim(display.value)))
  }

  function ToRecipients(m: Message): Result<seq<Recipient>, Exception> {
    FilterRecipients(m.recipients, m.displayTo)
  }

  function CcRecipients(m: Message): Result<seq<Recipient>, Exception> {
    FilterRecipients(m.recipients, m.displayCc)
  }

  function BccRecipients(m: Message): Result<seq<Recipient>, Exception> {
    FilterRecipients(m.recipients, m.displayBcc)
  }

  /** One step of the loop: the first recipient, if listed, goes in front of the rest. */
  lemma FilterStep(rs: seq<Recipient>, keep: Recipient -> bool)
    requires |rs| > 0 && AllNamed(rs)
    ensures AllNamed(rs[1..])
    ensures FilterWith(rs, keep) == Ok((if keep(rs[0]) then [rs[0]] else []) + FilterWith(rs[1..], keep).value)
  {
    assert rs[0].name.Some?;
    forall k | 0 <= k < |rs[1..]| ensures rs[1..][k].name.Some? {
      assert rs[1..][k] == rs[k + 1];
    }
  }

  /** A recipient is in the filtered list exactly when it is one of the recipients and is listed. */
  lemma {:induction false} FilterMembers(rs: seq<Recipient>, keep: Recipient -> bool, x: Recipient)
    requires AllNamed(rs)
    ensures x in FilterWith(rs, keep).value <==> x in rs && keep(x)
    decreases |rs|
  {
    if |rs| > 0 {
      FilterStep(rs, keep);
      FilterMembers(rs[1..], keep, x);
      assert x in rs <==> x == rs[0] || x in rs[1..] by {
        assert rs == [rs[0]] + rs[1..];
      }
    }
  }

  /** Filtering is done recipient by recipient, in order: a recipient added last is listed last. */
  lemma {:induction false} FilterAppend(rs: seq<Recipient>, x: Recipient, keep: Recipient -> bool)
    requires AllNamed(rs) && x.name.Some?
    ensures FilterWith(rs + [x], keep) == Ok(FilterWith(rs, keep).value + (if keep(x) then [x] else []))
    decreases |rs|
  {
    var extra := if keep(x) then [x] else [];
    var rx := rs + [x];
    assert AllNamed(rx) by {
      forall k | 0 <= k < |rx| ensures rx[k].name.Some? {
        if k < |rs| { assert rx[k] == rs[k]; }
      }
    }
    FilterStep(rx, keep);
    if |rs| == 0 {
      assert rx[0] == x && rx[1..] == [];
      assert FilterWith(rx[1..], keep) == Ok([]);
      assert FilterWith(rs, keep).value + extra == extra == extra + [];
    } else {
      assert rx[0] == rs[0] && rx[1..] == rs[1..] + [x];
      FilterStep(rs, keep);
      FilterAppend(rs[1..], x, keep);
      var front := if keep(rs[0]) then [rs[0]] else [];
      var tail := FilterWith(rs[1..], keep).value;
      assert front + (tail + extra) == (front + tail) + extra;
    }
  }

  /**
   * Adding a recipient extends each role's list by that recipient exactly
   * when its name occurs in the role's display string.
   */
  lemma AddRecipientLists(m: Message, x: Recipient)
    requires m.displayTo.Some? && AllNamed(m.recipients) && x.name.Some?
    ensures ToRecipients(AddRecipient(m, x)) ==
      Ok(ToRecipients(m).value + (if Listed(Trim(m.displayTo.value), x) then [x] else []))
  {
    FilterAppend(m.recipients, x, ListedUnder(Trim(m.displayTo.value)));
  }

  /** A recipient whose name is blank is listed under every role. */
  lemma BlankNameListedEverywhere(key: string, x: Recipient)
    ensures x.name.Some? && Trim(x.name.value) == "" ==> Listed(key, x)
  {
    assert OccursAt(key, "", 0);
  }

  // ---------------------------------------------------------------------
  // The summary text

  /**
   * `createMailString(mail, name)`: the address, the name, or both as
   * `"name" <mail>` when they differ other than in case.
   */
  function CreateMailString(mail: Option<string>, name: Option<string>): (r: Option<string>)
    ensures r.None? <==> mail.None? && name.None?
    ensures mail.Some? ==> Contains(r.value, mail.value)
    ensures mail.None? && name.Some? ==> r == name
    ensures mail.Some? && name.Some? && !EqualsIgnoreCase(mail.value, name.value) ==>
      Contains(r.value, name.value) && EndsWith(r.value, "<" + mail.value + ">")
  {
    if mail.None? && name.None? then None
    else if name.None? then
      assert OccursAt(mail.value, mail.value, 0);
      mail
    else if mail.None? then name
    else if EqualsIgnoreCase(mail.value, name.value) then
      assert OccursAt(mail.value, mail.value, 0);
      mail
    else
      QuotedEntry(mail.value, name.value);
      Some("\"" + name.value + "\" <" + mail.value + ">")
  }

  /** The quoted form `"name" <mail>` shows both and ends with the bracketed address. */
  lemma QuotedEntry(mail: string, name: string)
    ensures var r := "\"" + name + "\" <" + mail + ">";
      Contains(r, mail) && Contains(r, name) && EndsWith(r, "<" + mail + ">")
  {
    ContainsPart("\"" + name + "\" <", mail, ">");
    QuotedShowsName(mail, name);
    QuotedEndsWithMail(mail, name);
  }

  lemma QuotedShowsName(mail: string, name: string)
    ensures Contains("\"" + name + "\" <" + mail + ">", name)
  {
    ContainsPart("\"", name, "\" <" + mail + ">");
    assert "\"" + name + "\" <" + mail + ">" == "\"" + name + ("\" <" + mail + ">");
  }

  lemma QuotedEndsWithMail(mail: string, name: string)
    ensures EndsWith("\"" + name + "\" <" + mail + ">", "<" + mail + ">")
  {
    var r := "\"" + name + "\" <" + mail + ">";
    assert r[|r| - |"<" + mail + ">"|..] == "<" + mail + ">";
  }

  /** One entry of a recipient line: the address with the name around it. */
  function Entry(x: Recipient): string {
    ValueOf(CreateMailString(x.address, x.name))
  }

  /** One entry as `appendRecipients` builds it: name and address change places. */
  function AsWrittenEntry(x: Recipient): string {
    ValueOf(CreateMailString(x.name, x.address))
  }

  function Entries(rs: seq<Recipient>): (r: seq<string>)
    ensures |r| == |rs|
    ensures forall k :: 0 <= k < |rs| ==> r[k] == Entry(rs[k])
    decreases |rs|
  {
    if |rs| == 0 then [] else [Entry(rs[0])] + Entries(rs[1..])
  }

  function AsWrittenEntries(rs: seq<Recipient>): (r: seq<string>)
    ensures |r| == |rs|
    ensures forall k :: 0 <= k < |rs| ==> r[k] == AsWrittenEntry(rs[k])
    decreases |rs|
  {
    if |rs| == 0 then [] else [AsWrittenEntry(rs[0])] + AsWrittenEntries(rs[1..])
  }

  /** The texts with `sep` between neighbours. */
  function JoinStrings(es: seq<string>, sep: string): string
    decreases |es|
  {
    if |es| == 0 then ""
    else if |es| == 1 then es[0]
    else es[0] + sep + JoinStrings(es[1..], sep)
  }

  /** The texts each followed by `"; "`, as the loop appends them. */
  function Terminated(es: seq<string>): string
    decreases |es|
  {
    if |es| == 0 then "" else es[0] + "; " + Terminated(es[1..])
  }

  /** Each text occurs in the joined text. */
  lemma {:induction false} JoinContains(es: seq<string>, sep: string, k: int)
    requires 0 <= k < |es|
    ensures Contains(JoinStrings(es, sep), es[k])
    decreases |es|
  {
    if |es| == 1 {
      assert OccursAt(es[0], es[0], 0);
    } else if k == 0 {
      ContainsPart("", es[0], sep + JoinStrings(es[1..], sep));
      assert "" + es[0] + (sep + JoinStrings(es[1..], sep)) == JoinStrings(es, sep);
    } else {
      JoinContains(es[1..], sep, k - 1);
      ContainsInfix(es[0] + sep, JoinStrings(es[1..], sep), "", es[k]);
      assert es[0] + sep + JoinStrings(es[1..], sep) + "" == JoinStrings(es, sep);
    }
  }

  /** Terminating every text is joining them and terminating the last. */
  lemma {:induction false} TerminatedJoin(es: seq<string>)
    requires |es| > 0
    ensures Terminated(es) == JoinStrings(es, "; ") + "; "
    decreases |es|
  {
    if |es| == 1 {
      assert es[1..] == [];
    } else {
      TerminatedJoin(es[1..]);
    }
  }

  /**
   * `sb.delete(sb.lastIndexOf("; "), sb.length())`: cut the text at its
   * last separator; without one the start index is -1 and the call throws.
   */
  function DeleteLastSeparator(built: string): (r: Result<string, Exception>)
    ensures r.Err? <==> !Contains(built, "; ")
    ensures r.Err? ==> r.error == StringIndexOutOfBounds
    ensures r.Ok? ==> OccursAt(built, "; ", |r.value|) && built[..|r.value|] == r.value
    ensures r.Ok? ==> forall j :: |r.value| < j ==> !OccursAt(built, "; ", j)
  {
    var i := LastIndexOf(built, "; ");
    if i < 0 then Err(StringIndexOutOfBounds) else Ok(built[..i])
  }

  /** Cutting a terminated list at its last separator leaves the joined list. */
  lemma DeleteTerminated(prefix: string, es: seq<string>)
    requires |es| > 0
    ensures DeleteLastSeparator(prefix + Terminated(es)) == Ok(prefix + JoinStrings(es, "; "))
  {
    TerminatedJoin(es);
    var j := JoinStrings(es, "; ");
    assert prefix + Terminated(es) == (prefix + j) + "; ";
    CutAfterSeparator(prefix + j);
  }

  /** A text that ends in the separator is cut just before it. */
  lemma CutAfterSeparator(joined: string)
    ensures DeleteLastSeparator(joined + "; ") == Ok(joined)
  {
    var built := joined + "; ";
    assert OccursAt(built, "; ", |joined|);
    assert built[..|joined|] == joined;
  }

  /**
   * `appendRecipients` as written: when the role's list is non-empty it
   * prints the heading and then the entries of the TO list, whatever the role.
   */
  function AppendRecipientsAsWritten(sb: string, heading: string, list: seq<Recipient>, toList: seq<Recipient>): (r: Result<string, Exception>)
    ensures |list| == 0 ==> r == Ok(sb)
  {
    if |list| == 0 then Ok(sb) else DeleteLastSeparator(sb + heading + Terminated(AsWrittenEntries(toList)))
  }

  /** `appendRecipients` as intended: the heading and the role's own entries, separated by `"; "`. */
  function AppendRecipients(sb: string, heading: string, list: seq<Recipient>): (r: string)
    ensures |list| == 0 ==> r == sb
    ensures StartsWith(r, sb)
  {
    if |list| == 0 then sb else sb + heading + JoinStrings(Entries(list), "; ")
  }

  /** The intended loop over the role's own list never hits the missing-separator case. */
  lemma AppendRecipientsIsLoop(sb: string, heading: string, list: seq<Recipient>)
    requires |list| > 0
    ensures DeleteLastSeparator(sb + heading + Terminated(Entries(list))) == Ok(AppendRecipients(sb, heading, list))
  {
    DeleteTerminated(sb + heading, Entries(list));
  }

  /** Every listed recipient's address appears in its role's line. */
  lemma AppendRecipientsShowsAddress(sb: string, heading: string, list: seq<Recipient>, k: int)
    requires 0 <= k < |list| && list[k].address.Some?
    ensures Contains(AppendRecipients(sb, heading, list), list[k].address.value)
  {
    var es := Entries(list);
    var a := list[k].address.value;
    JoinContains(es, "; ", k);
    assert Contains(es[k], a);
    ContainsTransitive(JoinStrings(es, "; "), es[k], a);
    ContainsInfix(sb + heading, JoinStrings(es, "; "), "", a);
    assert sb + heading + JoinStrings(es, "; ") + "" == AppendRecipients(sb, heading, list);
  }

  /** Containment is transitive. */
  lemma ContainsTransitive(s: string, t: string, u: string)
    requires Contains(s, t) && Contains(t, u)
    ensures Contains(s, u)
  {
    var i := IndexOf(s, t);
    var j := IndexOf(t, u);
    assert s[i + j..i + j + |u|] == t[j..j + |u|];
    OccursAtContains(s, u, i + j);
  }

  /**
   * Whatever the role's list holds, the as-written line shows the TO
   * recipients, with name and address swapped.
   */
  lemma AsWrittenShowsToRecipients(sb: string, heading: string, list: seq<Recipient>, toList: seq<Recipient>)
    requires |list| > 0 && |toList| > 0
    ensures AppendRecipientsAsWritten(sb, heading, list, toList) == Ok(sb + heading + JoinStrings(AsWrittenEntries(toList), "; "))
  {
    DeleteTerminated(sb + heading, AsWrittenEntries(toList));
  }

  function FromLine(m: Message): string {
    "From: " + ValueOf(CreateMailString(m.fromEmail, m.fromName)) + "\n"
  }

  function DateAndSubject(m: Message, env: Collaborators): string {
    (if m.date.Some? then "Date: " + env.formatHeaderDate(m.date.value) + "\n" else "")
    + (if m.subject.Some? then "Subject: " + m.subject.value + "\n" else "")
  }

  function AttachmentCount(m: Message): string {
    IntToString(|m.attachments|) + " outlookAttachments."
  }

  /** `toString` as written. */
  function ToStringAsWritten(m: Message, env: Collaborators): (r: Result<string, Exception>)
    ensures r.Err? ==> r.error in {NullPointer, StringIndexOutOfBounds}
    ensures r.Ok? ==> ToString(m, env).Ok?
  {
    var to :- ToRecipients(m);
    var withTo :- AppendRecipientsAsWritten(FromLine(m), "To: ", to, to);
    var cc :- CcRecipients(m);
    var withCc :- AppendRecipientsAsWritten(withTo, "Cc: ", cc, to);
    var bcc :- BccRecipients(m);
    var withBcc :- AppendRecipientsAsWritten(withCc, "Bcc: ", bcc, to);
    Ok(withBcc + DateAndSubject(m, env) + AttachmentCount(m))
  }

  /** `toString` with each role printing its own recipients, address first. */
  function ToString(m: Message, env: Collaborators): (r: Result<string, Exception>)
    ensures r.Ok? <==> m.displayTo.Some? && m.displayCc.Some? && m.displayBcc.Some? && AllNamed(m.recipients)
    ensures r.Err? ==> r.error == NullPointer
    ensures r.Ok? ==> StartsWith(r.value, FromLine(m)) && EndsWith(r.value, " outlookAttachments.")
  {
    var to :- ToRecipients(m);
    var cc :- CcRecipients(m);
    var bcc :- BccRecipients(m);
    Ok(Summary(m, env, to, cc, bcc))
  }

  /** The summary text for given recipient lists. */
  function Summary(m: Message, env: Collaborators, to: seq<Recipient>, cc: seq<Recipient>, bcc: seq<Recipient>): (r: string)
    ensures StartsWith(r, FromLine(m)) && EndsWith(r, " outlookAttachments.")
  {
    var from := FromLine(m);
    var withTo := AppendRecipients(from, "To: ", to);
    var withCc := AppendRecipients(withTo, "Cc: ", cc);
    var lines := AppendRecipients(withCc, "Bcc: ", bcc);
    SummaryFrame(from, withTo, withCc, lines, DateAndSubject(m, env), IntToString(|m.attachments|));
    lines + (DateAndSubject(m, env) + AttachmentCount(m))
  }

  /** Lines that extend the From line, followed by the date, subject and count, start with the From line and end with the count. */
  lemma SummaryFrame(from: string, withTo: string, withCc: string, lines: string, dated: string, count: string)
    requires StartsWith(withTo, from) && StartsWith(withCc, withTo) && StartsWith(lines, withCc)
    ensures var r := lines + (dated + (count + " outlookAttachments."));
      StartsWith(r, from) && EndsWith(r, " outlookAttachments.")
  {
    var r := lines + (dated + (count + " outlookAttachments."));
    StartsWithTransitive(withCc, withTo, from);
    StartsWithTransitive(lines, withCc, from);
    assert r[..|lines|] == lines;
    StartsWithTransitive(r, lines, from);
    assert r[|r| - |" outlookAttachments."|..] == " outlookAttachments.";
  }

  /** A text starts with whatever its prefix starts with. */
  lemma StartsWithTransitive(s: string, t: string, u: string)
    requires StartsWith(s, t) && StartsWith(t, u)
    ensures StartsWith(s, u)
  {
    assert s[..|t|] == t;
    assert s[..|u|] == t[..|u|];
  }

  /** What a text starts with, and everything in that, occurs in the text. */
  lemma ContainsPrefix(s: string, t: string, u: string)
    requires StartsWith(s, t) && Contains(t, u)
    ensures Contains(s, u)
  {
    assert s == t + s[|t|..];
    ContainsExtend(t, s[|t|..], u);
  }

  /** Every CC entry's address appears in the summary text. */
  lemma SummaryShowsCc(m: Message, env: Collaborators, to: seq<Recipient>, cc: seq<Recipient>, bcc: seq<Recipient>, k: int)
    requires 0 <= k < |cc| && cc[k].address.Some?
    ensures Contains(Summary(m, env, to, cc, bcc), cc[k].address.value)
  {
    var a := cc[k].address.value;
    var withTo := AppendRecipients(FromLine(m), "To: ", to);
    var withCc := AppendRecipients(withTo, "Cc: ", cc);
    var lines := AppendRecipients(withCc, "Bcc: ", bcc);
    AppendRecipientsShowsAddress(withTo, "Cc: ", cc, k);
    ContainsPrefix(lines, withCc, a);
    ContainsExtend(lines, DateAndSubject(m, env) + AttachmentCount(m), a);
  }

  /** A recipient listed as CC appears in the summary with its address. */
  lemma ToStringShowsCcAddress(m: Message, env: Collaborators, x: Recipient)
    requires x in m.recipients && x.address.Some?
    ensures ToString(m, env).Ok? && Listed(Trim(m.displayCc.value), x) ==> Contains(ToString(m, env).value, x.address.value)
  {
    if ToString(m, env).Err? || !Listed(Trim(m.displayCc.value), x) {
      return;
    }
    var to := ToRecipients(m).value;
    var cc := CcRecipients(m).value;
    var bcc := BccRecipients(m).value;
    FilterMembers(m.recipients, ListedUnder(Trim(m.displayCc.value)), x);
    var k :| 0 <= k < |cc| && cc[k] == x;
    SummaryShowsCc(m, env, to, cc, bcc, k);
    assert ToString(m, env) == Ok(Summary(m, env, to, cc, bcc));
  }

  // ---------------------------------------------------------------------
  // Where the as-written summary goes wrong

  const BOB: Recipient := OutlookRecipient.Recipient(Some("Bob"), Some("bob@example.com"), map[])

  /** Alice is the only name on the TO line, but the one recipient, Bob, is on the CC line. */
  const BOB_IN_CC: Message :=
    NewMessage().(displayTo := Some("Alice"), displayCc := Some("Bob"), displayBcc := Some(""), recipients := [BOB])

  lemma BobRoles()
    ensures !Listed(Trim("Alice"), BOB) && Listed(Trim("Bob"), BOB) && !Listed(Trim(""), BOB)
  {
    BobNotUnderAlice();
    BobUnderBob();
    assert !OccursAt(Trim(""), "Bob", 0);
  }

  lemma BobNotUnderAlice()
    ensures !Listed(Trim("Alice"), BOB)
  {
    TrimmedName("Bob");
    TrimmedName("Alice");
    AliceLacksBob();
  }

  /** A name without surrounding blanks trims to itself. */
  lemma TrimmedName(s: string)
    requires |s| > 0 && 'A' <= s[0] <= 'Z' && 'a' <= s[|s| - 1] <= 'z'
    ensures Trim(s) == s
  {
  }

  lemma AliceLacksBob()
    ensures !Contains("Alice", "Bob")
  {
    if Contains("Alice", "Bob") {
      ContainsHasChar("Alice", "Bob", 0);
      assert false;
    }
  }

  lemma BobUnderBob()
    ensures Listed(Trim("Bob"), BOB)
  {
    TrimmedName("Bob");
    assert OccursAt("Bob", "Bob", 0);
  }

  /** Filtering a single named recipient. */
  lemma FilterOne(x: Recipient, keep: Recipient -> bool)
    requires x.name.Some?
    ensures FilterWith([x], keep) == Ok(if keep(x) then [x] else [])
  {
    FilterStep([x], keep);
    assert [x][1..] == [];
    assert FilterWith([], keep) == Ok([]);
    var front := if keep(x) then [x] else [];
    assert front + [] == front;
  }

  lemma BobInCcLists()
    ensures ToRecipients(BOB_IN_CC) == Ok([])
    ensures CcRecipients(BOB_IN_CC) == Ok([BOB])
    ensures BccRecipients(BOB_IN_CC) == Ok([])
  {
    BobRoles();
    assert BOB_IN_CC.recipients == [BOB];
    FilterOne(BOB, ListedUnder(Trim("Alice")));
    FilterOne(BOB, ListedUnder(Trim("Bob")));
    FilterOne(BOB, ListedUnder(Trim("")));
  }

  /**
   * With a CC recipient and no TO recipient the as-written summary has no
   * separator to cut at and throws, where the intended one succeeds.
   */
  lemma AsWrittenThrowsWithoutToRecipients(env: Collaborators)
    ensures ToStringAsWritten(BOB_IN_CC, env) == Err(StringIndexOutOfBounds)
    ensures ToString(BOB_IN_CC, env).Ok?
  {
    BobInCcLists();
    var from := FromLine(BOB_IN_CC);
    assert AppendRecipientsAsWritten(from, "To: ", [], []) == Ok(from);
    CcWithoutToThrows();
  }

  /** The CC line of the example, built from an empty TO list, has no separator to cut at. */
  lemma CcWithoutToThrows()
    ensures AppendRecipientsAsWritten(FromLine(BOB_IN_CC), "Cc: ", [BOB], []) == Err(StringIndexOutOfBounds)
  {
    var built := FromLine(BOB_IN_CC) + "Cc: " + Terminated(AsWrittenEntries([]));
    assert built == "From: null\nCc: ";
    assert !Contains(built, "; ") by {
      if Contains(built, "; ") {
        ContainsHasChar(built, "; ", 0);
        assert false;
      }
    }
  }

  /** The as-written entry puts the address where the name belongs. */
  lemma AsWrittenSwapsNameAndAddress(x: Recipient)
    requires x.name.Some? && x.address.Some? && !EqualsIgnoreCase(x.name.value, x.address.value)
    ensures AsWrittenEntry(x) == "\"" + x.address.value + "\" <" + x.name.value + ">"
    ensures Entry(x) == "\"" + x.name.value + "\" <" + x.address.value + ">"
  {
  }
}
