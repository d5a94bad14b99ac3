/**
 * The older, regular-expression based RTF-to-HTML converter of the
 * `msgparser` package. It cuts out the HTML section an RTF body embeds, or
 * wraps plain text in a page of its own, then runs three passes that need a
 * backtracking regex engine (escaped bytes, RTF groups, control words) and
 * finally removes every line break.
 */
module LegacyRtfConverter {
  import opened Wrappers
  import opened JavaLang
  import opened Collaborators
  import MapiProperty

  /**
   * The three passes whose patterns need a backtracking regex engine:
   * `replaceHexSequences`, `replaceSpecialSequences` and
   * `replaceRemainingControlSequences`.
   */
  datatype RegexPasses = RegexPasses(
    hexSequences: string -> string,
    specialSequences: string -> string,
    remainingControlSequences: string -> string)

  /** The spellings of the opening tag, searched for in this order. */
  const START_TAGS: seq<string> := ["<html ", "<Html ", "<HTML "]
  /** The spellings of the closing tag, searched for in this order; all have the same length. */
  const END_TAGS: seq<string> := ["</html>", "</Html>", "</HTML>"]
  const END_TAG_LENGTH: nat := 7

  /** The page a text without an HTML section is wrapped in. */
  const ENVELOPE_OPEN: string := "<html><body style=\"font-family:'Courier',monospace;font-size:10pt;\">"
  const ENVELOPE_CLOSE: string := "</body></html>"

  /** The HTML line break a run of line breaks becomes. */
  const BREAK: string := " <br/> "

  const HTTP: string := "http://"
  const MAILTO: string := "mailto:"

  /** The name `new String(bytes, "CP1252")` looks its charset up by. */
  const CP1252: string := "CP1252"

  // ---------------------------------------------------------------------
  // fetchHtmlSection

  /**
   * Which spelling a `for` loop that tries `indexOf` with each tag in turn,
   * while nothing has been found, stops at: the first one that occurs at
   * all, or `|tags|` when none does.
   */
  function FirstTag(text: string, tags: seq<string>): (k: nat)
    ensures k <= |tags|
    ensures forall j :: 0 <= j < k ==> !Contains(text, tags[j])
    ensures k < |tags| ==> Contains(text, tags[k])
    decreases |tags|
  {
    if |tags| == 0 || Contains(text, tags[0]) then 0
    else
      var k := FirstTag(text, tags[1..]);
      assert forall j :: 1 <= j < |tags| ==> tags[j] == tags[1..][j - 1];
      k + 1
  }

  /** The index that loop settles on: where the first spelling that occurs begins, or -1. */
  function FirstFound(text: string, tags: seq<string>): (r: int)
    ensures r == -1 <==> FirstTag(text, tags) == |tags|
    ensures r != -1 ==> OccursAt(text, tags[FirstTag(text, tags)], r)
  {
    var k := FirstTag(text, tags);
    if k == |tags| then -1 else IndexOf(text, tags[k])
  }

  /**
   * The end loop as written: a spelling found at a positive index moves the
   * index past the tag, but one found at index 0 stays at 0 and still ends
   * the loop.
   */
  function AsWrittenEnd(text: string, tags: seq<string>): (r: int)
    ensures var k := FirstTag(text, tags);
      if k == |tags| then r == -1
      else if IndexOf(text, tags[k]) > 0 then r == IndexOf(text, tags[k]) + |tags[k]|
      else r == 0
    decreases |tags|
  {
    if |tags| == 0 then -1
    else
      var i := IndexOf(text, tags[0]);
      if i > 0 then i + |tags[0]|
      else if i == 0 then 0
      else
        assert forall j :: 1 <= j < |tags| ==> tags[j] == tags[1..][j - 1];
        AsWrittenEnd(text, tags[1..])
  }

  /** `String.substring(begin, end)`, which throws unless `0 <= begin <= end <= length`. */
  function Substring(s: string, begin: int, end: int): (r: Result<string, Exception>)
    ensures r.Ok? <==> 0 <= begin <= end <= |s|
    ensures r.Ok? ==> |r.value| == end - begin && OccursAt(s, r.value, begin)
    ensures r.Err? ==> r.error == StringIndexOutOfBounds
  {
    if 0 <= begin <= end <= |s| then Ok(s[begin..end]) else Err(StringIndexOutOfBounds)
  }

  /**
   * `fetchHtmlSection` as written: with both tags present the section is cut
   * from the start tag to one character beyond the end tag, which throws
   * when the end tag closes the text.
   */
  function FetchHtmlSectionAsWritten(text: string): (r: Result<string, Exception>)
    ensures r.Err? ==> (r.error == StringIndexOutOfBounds
      && FirstFound(text, START_TAGS) != -1 && FirstFound(text, END_TAGS) != -1)
  {
    var start := FirstFound(text, START_TAGS);
    var end := AsWrittenEnd(text, END_TAGS);
    if start > -1 && end > -1 then Substring(text, start, end + 1)
    else Ok(Envelope(text))
  }

  /**
   * `fetchHtmlSection` with the cut ending right after the end tag: the
   * section runs from the first start tag to the end of the first end tag,
   * provided that end tag does not come before it; otherwise the text is
   * wrapped in the envelope.
   */
  function FetchHtmlSection(text: string): (r: string)
    ensures var start := FirstFound(text, START_TAGS); var i := FirstFound(text, END_TAGS);
      if start != -1 && i != -1 && start <= i then
        OccursAt(text, r, start)
        && (exists k :: 0 <= k < |START_TAGS| && StartsWith(r, START_TAGS[k]))
        && (exists k :: 0 <= k < |END_TAGS| && EndsWith(r, END_TAGS[k]))
      else r == Envelope(text)
  {
    var start := FirstFound(text, START_TAGS);
    var i := FirstFound(text, END_TAGS);
    if start != -1 && i != -1 && start <= i then
      SectionShape(text, start, i);
      text[start..i + END_TAG_LENGTH]
    else Envelope(text)
  }

  /** The cut from a start tag to the end of a later end tag begins with the one and ends with the other. */
  lemma SectionShape(text: string, start: int, i: int)
    requires FirstFound(text, START_TAGS) == start != -1 && FirstFound(text, END_TAGS) == i != -1 && start <= i
    ensures i + END_TAG_LENGTH <= |text|
    ensures var r := text[start..i + END_TAG_LENGTH];
      (exists k :: 0 <= k < |START_TAGS| && StartsWith(r, START_TAGS[k]))
      && (exists k :: 0 <= k < |END_TAGS| && EndsWith(r, END_TAGS[k]))
  {
    var r := text[start..i + END_TAG_LENGTH];
    var a := FirstTag(text, START_TAGS);
    var b := FirstTag(text, END_TAGS);
    assert |END_TAGS[b]| == END_TAG_LENGTH;
    assert |START_TAGS[a]| == 6;
    assert r[..6] == text[start..start + 6];
    assert StartsWith(r, START_TAGS[a]);
    assert r[|r| - END_TAG_LENGTH..] == text[i..i + END_TAG_LENGTH];
    assert EndsWith(r, END_TAGS[b]);
  }

  /** The page plain text is wrapped in: line-break runs become HTML breaks, then web and mail addresses become links. */
  function Envelope(text: string): (r: string)
    ensures NoLineBreak(r)
  {
    MailtoLinks(HttpLinks(ReplaceBreakRuns(ENVELOPE_OPEN + text + ENVELOPE_CLOSE)))
  }

  // ---------------------------------------------------------------------
  // Line breaks

  /** The end of the run of line breaks starting at `i`. */
  function BreakRunEnd(s: string, i: nat): (j: nat)
    requires i <= |s|
    ensures i <= j <= |s| && (j == |s| || !IsLineBreak(s[j]))
    ensures forall k :: i <= k < j ==> IsLineBreak(s[k])
    decreases |s| - i
  {
    if i < |s| && IsLineBreak(s[i]) then BreakRunEnd(s, i + 1) else i
  }

  /** `replaceAll("[\\n\\r]+", " <br/> ")`: every maximal run of CR and LF becomes one HTML break. */
  function ReplaceBreakRuns(s: string): (r: string)
    ensures NoLineBreak(r)
    ensures NoLineBreak(s) ==> r == s
    decreases |s|
  {
    if |s| == 0 then ""
    else if IsLineBreak(s[0]) then
      BREAK + ReplaceBreakRuns(s[BreakRunEnd(s, 0)..])
    else
      assert NoLineBreak(s) ==> NoLineBreak(s[1..]) by {
        assert forall c :: c in s[1..] ==> c in s;
      }
      [s[0]] + ReplaceBreakRuns(s[1..])
  }

  /**
   * A run of line breaks between a break-free text and a text that does not
   * continue the run is replaced by exactly one HTML break.
   */
  lemma BreakRunReplaced(a: string, b: string, c: string)
    requires NoLineBreak(a) && |b| > 0 && forall k :: 0 <= k < |b| ==> IsLineBreak(b[k])
    requires |c| == 0 || !IsLineBreak(c[0])
    ensures ReplaceBreakRuns(a + b + c) == a + BREAK + ReplaceBreakRuns(c)
  {
    CopiesText(a, b + c);
    BreakRunAtStart(b, c);
    assert a + b + c == a + (b + c);
    assert a + BREAK + ReplaceBreakRuns(c) == a + (BREAK + ReplaceBreakRuns(c));
  }

  /** Text without line breaks is copied as it stands, whatever follows it. */
  lemma {:induction false} CopiesText(a: string, tail: string)
    requires NoLineBreak(a)
    ensures ReplaceBreakRuns(a + tail) == a + ReplaceBreakRuns(tail)
    decreases |a|
  {
    if |a| > 0 {
      assert !IsLineBreak(a[0]) by {
        assert a[0] in a;
      }
      assert NoLineBreak(a[1..]) by {
        assert forall x :: x in a[1..] ==> x in a;
      }
      CopiesText(a[1..], tail);
      TextBeforeBreaks(a[0], a[1..], tail, ReplaceBreakRuns(tail));
      assert [a[0]] + a[1..] == a;
    } else {
      assert a + tail == tail;
    }
  }

  /** A run of line breaks at the start that a non-break or the end follows becomes one HTML break. */
  lemma BreakRunAtStart(b: string, c: string)
    requires |b| > 0 && forall k :: 0 <= k < |b| ==> IsLineBreak(b[k])
    requires |c| == 0 || !IsLineBreak(c[0])
    ensures ReplaceBreakRuns(b + c) == BREAK + ReplaceBreakRuns(c)
  {
    var s := b + c;
    assert BreakRunEnd(s, 0) == |b| by {
      assert forall k :: 0 <= k < |b| ==> s[k] == b[k];
      assert |c| > 0 ==> s[|b|] == c[0];
    }
    assert s[|b|..] == c;
  }

  /** A character that is no line break is copied to the front. */
  lemma TextBeforeBreaks(x: char, a: string, rest: string, r: string)
    requires !IsLineBreak(x) && ReplaceBreakRuns(a + rest) == a + r
    ensures ReplaceBreakRuns([x] + a + rest) == [x] + a + r
  {
    assert ([x] + a + rest)[1..] == a + rest;
  }

  /** The end of the run of back-to-back HTML breaks starting at `i`. */
  function BreakCopiesEnd(s: string, i: nat): (j: nat)
    requires i <= |s|
    ensures i <= j <= |s|
    ensures OccursAt(s, BREAK, i) ==> j >= i + |BREAK|
    decreases |s| - i
  {
    if OccursAt(s, BREAK, i) then BreakCopiesEnd(s, i + |BREAK|) else i
  }

  /** Two HTML breaks back to back. */
  const DOUBLE_BREAK: string := BREAK + BREAK

  ghost predicate HasDoubleBreak(s: string) {
    exists j :: OccursAt(s, DOUBLE_BREAK, j)
  }

  /**
   * `replaceAll("( <br/> ( <br/> )+)", " <br/> ")`: two or more HTML breaks
   * back to back become one, scanning left to right. The text shrinks
   * exactly when it had such a pair, so it stays unchanged exactly when it
   * had none.
   */
  function CollapseBreaks(s: string): (r: string)
    ensures |r| <= |s|
    ensures !HasDoubleBreak(s) ==> r == s
    ensures HasDoubleBreak(s) ==> |r| < |s|
    decreases |s|
  {
    if |s| == 0 then ""
    else if OccursAt(s, DOUBLE_BREAK, 0) then
      assert OccursAt(s, BREAK, 0) && OccursAt(s, BREAK, |BREAK|) by {
        assert s[..|BREAK|] == s[0..|DOUBLE_BREAK|][..|BREAK|];
        assert s[|BREAK|..|DOUBLE_BREAK|] == s[0..|DOUBLE_BREAK|][|BREAK|..];
      }
      var e := BreakCopiesEnd(s, |BREAK|);
      var r := BREAK + CollapseBreaks(s[e..]);
      assert |r| < |s|;
      r
    else
      var rest := CollapseBreaks(s[1..]);
      ShiftDoubleBreak(s);
      [s[0]] + rest
  }

  /** Without a pair at the front, a pair in the text is a pair in its tail. */
  lemma ShiftDoubleBreak(s: string)
    requires |s| > 0 && !OccursAt(s, DOUBLE_BREAK, 0)
    ensures HasDoubleBreak(s) <==> HasDoubleBreak(s[1..])
  {
    if HasDoubleBreak(s) {
      var j :| OccursAt(s, DOUBLE_BREAK, j);
      assert j >= 1;
      assert s[1..][j - 1..j - 1 + |DOUBLE_BREAK|] == s[j..j + |DOUBLE_BREAK|];
      assert OccursAt(s[1..], DOUBLE_BREAK, j - 1);
    }
    if HasDoubleBreak(s[1..]) {
      var j :| OccursAt(s[1..], DOUBLE_BREAK, j);
      assert s[1..][j..j + |DOUBLE_BREAK|] == s[j + 1..j + 1 + |DOUBLE_BREAK|];
      assert OccursAt(s, DOUBLE_BREAK, j + 1);
    }
  }

  /** Collapsing leaves a text unchanged exactly when no two HTML breaks stand back to back in it. */
  lemma CollapseUnchangedIff(s: string)
    ensures CollapseBreaks(s) == s <==> !Contains(s, DOUBLE_BREAK)
  {
    ContainsIff(s, DOUBLE_BREAK);
  }

  /**
   * `replaceLineBreaks`: collapse back-to-back HTML breaks, then remove
   * every CR and LF. The result never contains a line break, and a text
   * with neither is returned unchanged.
   */
  function ReplaceLineBreaks(text: string): (r: string)
    ensures NoLineBreak(r)
    ensures |r| <= |text|
    ensures NoLineBreak(text) && !HasDoubleBreak(text) ==> r == text
  {
    var collapsed := CollapseBreaks(text);
    RemoveNothing(collapsed);
    RemoveCharsShorter(collapsed);
    RemoveChars(collapsed, {'\r', '\n'})
  }

  lemma {:induction false} RemoveNothing(s: string)
    ensures NoLineBreak(s) ==> RemoveChars(s, {'\r', '\n'}) == s
    decreases |s|
  {
    if |s| > 0 && NoLineBreak(s) {
      assert s[0] in s;
      assert NoLineBreak(s[1..]) by {
        assert forall c :: c in s[1..] ==> c in s;
      }
      RemoveNothing(s[1..]);
      assert [s[0]] + s[1..] == s;
    }
  }

  lemma {:induction false} RemoveCharsShorter(s: string)
    ensures |RemoveChars(s, {'\r', '\n'})| <= |s|
    decreases |s|
  {
    if |s| > 0 {
      RemoveCharsShorter(s[1..]);
    }
  }

  // ---------------------------------------------------------------------
  // Links

  /** `\s` of a Java regular expression: space, tab, LF, vertical tab, form feed and CR. */
  predicate IsRegexSpace(c: char) {
    c == ' ' || c == '\t' || c == '\n' || c == '\U{B}' || c == '\U{C}' || c == '\r'
  }

  /** The end of the run of characters other than `\s` starting at `i`. */
  function NonSpaceEnd(s: string, i: nat): (j: nat)
    requires i <= |s|
    ensures i <= j <= |s| && (j == |s| || IsRegexSpace(s[j]))
    ensures forall k :: i <= k < j ==> !IsRegexSpace(s[k])
    decreases |s| - i
  {
    if i < |s| && !IsRegexSpace(s[i]) then NonSpaceEnd(s, i + 1) else i
  }

  /** A slice keeps the absence of line breaks. */
  lemma SliceNoLineBreak(s: string, i: int, j: int)
    requires 0 <= i <= j <= |s| && NoLineBreak(s)
    ensures NoLineBreak(s[i..j])
  {
    assert forall c :: c in s[i..j] ==> c in s;
  }

  /** Where `http://` is followed by at least one character other than `\s`. */
  predicate HttpLinkAt(s: string) {
    StartsWith(s, HTTP) && |s| > |HTTP| && !IsRegexSpace(s[|HTTP|])
  }

  /**
   * `replaceAll("(http://\\S+)", "<a href=\"$1\">$1</a>")`: every `http://`
   * with the longest run of non-space characters after it becomes a link
   * to itself. A text without `http://` is returned unchanged, and no line
   * break is introduced.
   */
  function HttpLinks(s: string): (r: string)
    ensures NoLineBreak(s) ==> NoLineBreak(r)
    ensures !Contains(s, HTTP) ==> r == s
    decreases |s|
  {
    if |s| == 0 then ""
    else if HttpLinkAt(s) then
      var e := NonSpaceEnd(s, |HTTP|);
      var url := s[..e];
      var rest := HttpLinks(s[e..]);
      RunAfterPrefix(s, HTTP);
      LinkNoLineBreak("<a href=\"", url, rest);
      "<a href=\"" + url + "\">" + url + "</a>" + rest
    else
      var rest := HttpLinks(s[1..]);
      TailKeeps(s, HTTP);
      [s[0]] + rest
  }

  /**
   * A text that starts with `prefix` contains it, and without line breaks
   * so are the run of non-spaces after the prefix, the text up to its end
   * and the text after it.
   */
  lemma RunAfterPrefix(s: string, prefix: string)
    requires StartsWith(s, prefix)
    ensures Contains(s, prefix)
    ensures NoLineBreak(s) ==>
      NoLineBreak(s[..NonSpaceEnd(s, |prefix|)]) &&
      NoLineBreak(s[|prefix|..NonSpaceEnd(s, |prefix|)]) &&
      NoLineBreak(s[NonSpaceEnd(s, |prefix|)..])
  {
    assert OccursAt(s, prefix, 0);
    var e := NonSpaceEnd(s, |prefix|);
    if NoLineBreak(s) {
      SliceNoLineBreak(s, 0, e);
      SliceNoLineBreak(s, |prefix|, e);
      SliceNoLineBreak(s, e, |s|);
    }
  }

  /** A link built from texts without line breaks has none. */
  lemma LinkNoLineBreak(open: string, text: string, rest: string)
    requires NoLineBreak(open)
    ensures NoLineBreak(text) && NoLineBreak(rest) ==>
      NoLineBreak(open + text + "\">" + text + "</a>" + rest)
  {
    assert NoLineBreak("\">") && NoLineBreak("</a>");
  }

  /** What holds of a text, absence of line breaks or of an occurrence, holds of its tail. */
  lemma TailKeeps(s: string, sub: string)
    requires |s| > 0
    ensures NoLineBreak(s) ==> NoLineBreak(s[1..])
    ensures !Contains(s, sub) ==> !Contains(s[1..], sub) && s == [s[0]] + s[1..]
  {
    if NoLineBreak(s) {
      SliceNoLineBreak(s, 1, |s|);
    }
    if !Contains(s, sub) && Contains(s[1..], sub) {
      var j := IndexOf(s[1..], sub);
      assert s[1..][j..j + |sub|] == s[j + 1..j + 1 + |sub|];
      assert OccursAt(s, sub, j + 1);
    }
  }

  /** Whether the non-space run after `mailto:` has the shape `\S+@\S+`: an `@` that is neither its first nor its last character. */
  predicate MailAddress(run: string) {
    exists p :: 1 <= p < |run| - 1 && run[p] == '@'
  }

  predicate MailtoLinkAt(s: string) {
    StartsWith(s, MAILTO) && MailAddress(s[|MAILTO|..NonSpaceEnd(s, |MAILTO|)])
  }

  /**
   * `replaceAll("mailto:(\\S+@\\S+)", "<a href=\"mailto:$1\">$1</a>")`: a
   * `mailto:` whose following non-space run holds an inner `@` becomes a
   * link showing that run. The match always ends where the run ends.
   */
  function MailtoLinks(s: string): (r: string)
    ensures NoLineBreak(s) ==> NoLineBreak(r)
    ensures !Contains(s, MAILTO) ==> r == s
    decreases |s|
  {
    if |s| == 0 then ""
    else if MailtoLinkAt(s) then
      var e := NonSpaceEnd(s, |MAILTO|);
      var address := s[|MAILTO|..e];
      var rest := MailtoLinks(s[e..]);
      RunAfterPrefix(s, MAILTO);
      LinkNoLineBreak("<a href=\"mailto:", address, rest);
      "<a href=\"mailto:" + address + "\">" + address + "</a>" + rest
    else
      var rest := MailtoLinks(s[1..]);
      TailKeeps(s, MAILTO);
      [s[0]] + rest
  }

  // ---------------------------------------------------------------------
  // hexToString

  /**
   * `hexToString(hex, "CP1252")`: the text parsed as a hexadecimal `int`,
   * cast to a byte (its low eight bits) and decoded as CP1252; `null` when
   * the text is no number or the charset is unknown.
   */
  function HexToString(hex: string, env: Collaborators): (r: Option<string>)
    ensures r.Some? <==> ParseInt(hex, 16).Some? && env.forName(CP1252).Some?
    ensures r.Some? ==> r.value == env.decode(env.forName(CP1252).value, [(ParseInt(hex, 16).value % 256) as uint8])
  {
    match ParseInt(hex, 16)
    case None => None
    case Some(i) =>
      match env.forName(CP1252)
      case None => None
      case Some(cs) => Some(env.decode(cs, [(i % 256) as uint8]))
  }

  /** Parsing the two hex digits of a byte, in either case, gives the byte. */
  lemma ParseByteHex(b: uint8)
    ensures ParseInt(MapiProperty.ByteHex(b), 16) == Some(b as int)
    ensures ParseInt(ToLower(MapiProperty.ByteHex(b)), 16) == Some(b as int)
  {
    var h := MapiProperty.ByteHex(b);
    assert Digit(h[0], 16) >= 0;
    assert h[0..] == h;
    MapiProperty.ToLowerKeepsHexValue(h);
    var l := ToLower(h);
    assert |l| == 2 && Digit(l[0], 16) >= 0;
    assert l[0..] == l;
  }

  /** The escape `\'XX` written for a byte, in either case, decodes to that single byte in CP1252. */
  lemma HexToStringOfByte(b: uint8, env: Collaborators)
    requires env.forName(CP1252).Some?
    ensures HexToString(MapiProperty.ByteHex(b), env) == Some(env.decode(env.forName(CP1252).value, [b]))
  {
    ParseByteHex(b);
    DecodesAsByte(MapiProperty.ByteHex(b), b, env);
  }

  /** The same holds for the lower-case spelling of the escape. */
  lemma HexToStringOfLowerByte(b: uint8, env: Collaborators)
    requires env.forName(CP1252).Some?
    ensures HexToString(ToLower(MapiProperty.ByteHex(b)), env) == Some(env.decode(env.forName(CP1252).value, [b]))
  {
    ParseByteHex(b);
    DecodesAsByte(ToLower(MapiProperty.ByteHex(b)), b, env);
  }

  /** Hex text whose value is a byte decodes to that byte. */
  lemma DecodesAsByte(hex: string, b: uint8, env: Collaborators)
    requires ParseInt(hex, 16) == Some(b as int) && env.forName(CP1252).Some?
    ensures HexToString(hex, env) == Some(env.decode(env.forName(CP1252).value, [b]))
  {
    assert (b as int % 256) as uint8 == b;
  }

  // ---------------------------------------------------------------------
  // rtf2html

  /**
   * `rtf2html` as written: `null` stays `null`; any text goes through the
   * section cut as written, the three regex passes and the line-break
   * removal, in this order. The only failure is the cut's
   * `StringIndexOutOfBoundsException`, and a result never holds a line break.
   */
  function Rtf2Html(rtf: Option<string>, passes: RegexPasses): (r: Result<Option<string>, Exception>)
    ensures r.Err? <==> rtf.Some? && FetchHtmlSectionAsWritten(rtf.value).Err?
    ensures r.Err? ==> r.error == StringIndexOutOfBounds
    ensures r.Ok? ==> (r.value.Some? <==> rtf.Some?)
    ensures r.Ok? && r.value.Some? ==> NoLineBreak(r.value.value)
  {
    match rtf
    case None => Ok(None)
    case Some(text) =>
      match FetchHtmlSectionAsWritten(text)
      case Err(e) => Err(e)
      case Ok(html) => Ok(Some(Passes(html, passes)))
  }

  /**
   * `rtf2html` with the corrected section cut: `null` stays `null`, any
   * text gives a text, and the result never holds a line break.
   */
  function Rtf2HtmlCorrected(rtf: Option<string>, passes: RegexPasses): (r: Option<string>)
    ensures r.Some? <==> rtf.Some?
    ensures r.Some? ==> NoLineBreak(r.value)
  {
    match rtf
    case None => None
    case Some(text) => Some(Passes(FetchHtmlSection(text), passes))
  }

  /** The three regex passes and the line-break removal that follow the cut. */
  function Passes(html: string, passes: RegexPasses): (r: string)
    ensures NoLineBreak(r)
  {
    var decoded := passes.hexSequences(html);
    var special := passes.specialSequences(decoded);
    var plain := passes.remainingControlSequences(special);
    ReplaceLineBreaks(plain)
  }

  /**
   * Both conversions agree on `null` and on every text without both tags;
   * on `<html ></html>` the code as written throws where the corrected
   * conversion keeps the whole text.
   */
  lemma Rtf2HtmlAgreesWithoutSection(rtf: Option<string>, passes: RegexPasses)
    ensures rtf.None? || FirstFound(rtf.value, START_TAGS) == -1 || FirstFound(rtf.value, END_TAGS) == -1 ==>
      Rtf2Html(rtf, passes) == Ok(Rtf2HtmlCorrected(rtf, passes))
  {
    if rtf.Some? && (FirstFound(rtf.value, START_TAGS) == -1 || FirstFound(rtf.value, END_TAGS) == -1) {
      NoSectionAgrees(rtf.value);
    }
  }

  /** On `<html ></html>` the code as written throws, and the corrected conversion keeps the whole text. */
  lemma Rtf2HtmlClosingTagAtEnd(passes: RegexPasses)
    ensures Rtf2Html(Some("<html ></html>"), passes) == Err(StringIndexOutOfBounds)
    ensures Rtf2HtmlCorrected(Some("<html ></html>"), passes) == Some(Passes("<html ></html>", passes))
  {
    ClosingTagAtEndThrows();
  }

  // ---------------------------------------------------------------------
  // The cut as written against the corrected one

  /** Without both tags, the code as written and the corrected cut both wrap the text in the envelope. */
  lemma NoSectionAgrees(text: string)
    requires FirstFound(text, START_TAGS) == -1 || FirstFound(text, END_TAGS) == -1
    ensures FetchHtmlSectionAsWritten(text) == Ok(FetchHtmlSection(text)) == Ok(Envelope(text))
  {
  }

  /**
   * With a start tag and a later end tag, the code as written keeps one
   * character beyond the end tag, and throws `StringIndexOutOfBoundsException`
   * when the end tag closes the text.
   */
  lemma SectionOverreads(text: string)
    requires FirstFound(text, START_TAGS) != -1 && FirstFound(text, END_TAGS) != -1
    requires FirstFound(text, START_TAGS) <= FirstFound(text, END_TAGS)
    ensures var end := FirstFound(text, END_TAGS) + END_TAG_LENGTH;
      end <= |text|
      && (end < |text| ==> FetchHtmlSectionAsWritten(text) == Ok(FetchHtmlSection(text) + [text[end]]))
      && (end == |text| ==> FetchHtmlSectionAsWritten(text) == Err(StringIndexOutOfBounds))
  {
    var start := FirstFound(text, START_TAGS);
    var i := FirstFound(text, END_TAGS);
    var end := i + END_TAG_LENGTH;
    SectionCut(text, start, i);
    AsWrittenCut(text, start, i);
    if end < |text| {
      assert text[start..end + 1] == text[start..end] + [text[end]];
    }
  }

  /** With the tags in order, the section is the cut from the start tag to the end of the end tag. */
  lemma SectionCut(text: string, start: int, i: int)
    requires FirstFound(text, START_TAGS) == start != -1 && FirstFound(text, END_TAGS) == i != -1 && start <= i
    ensures i + END_TAG_LENGTH <= |text| && FetchHtmlSection(text) == text[start..i + END_TAG_LENGTH]
  {
    SectionShape(text, start, i);
  }

  /** With the tags in order, the code as written cuts one character further. */
  lemma AsWrittenCut(text: string, start: int, i: int)
    requires FirstFound(text, START_TAGS) == start != -1 && FirstFound(text, END_TAGS) == i != -1 && start <= i
    ensures FetchHtmlSectionAsWritten(text) == Substring(text, start, i + END_TAG_LENGTH + 1)
  {
    TagsApart(text);
    AsWrittenEndPastTag(text);
  }

  /** A start tag and an end tag never begin at the same place: their second characters differ. */
  lemma TagsApart(text: string)
    requires FirstFound(text, START_TAGS) != -1 && FirstFound(text, END_TAGS) != -1
    ensures FirstFound(text, START_TAGS) != FirstFound(text, END_TAGS)
  {
    var start := FirstFound(text, START_TAGS);
    var i := FirstFound(text, END_TAGS);
    var a := FirstTag(text, START_TAGS);
    var b := FirstTag(text, END_TAGS);
    assert text[start + 1] == text[start..start + |START_TAGS[a]|][1] == START_TAGS[a][1] != '/';
    assert text[i + 1] == text[i..i + |END_TAGS[b]|][1] == END_TAGS[b][1] == '/';
  }

  /** An end tag found past the first character moves the end index past the tag. */
  lemma AsWrittenEndPastTag(text: string)
    requires FirstFound(text, END_TAGS) > 0
    ensures AsWrittenEnd(text, END_TAGS) == FirstFound(text, END_TAGS) + END_TAG_LENGTH
  {
    assert forall k :: 0 <= k < |END_TAGS| ==> |END_TAGS[k]| == END_TAG_LENGTH;
  }

  /** A text that ends with its closing tag, such as `<html ></html>`, makes the code as written throw. */
  lemma ClosingTagAtEndThrows()
    ensures FetchHtmlSectionAsWritten("<html ></html>") == Err(StringIndexOutOfBounds)
    ensures FetchHtmlSection("<html ></html>") == "<html ></html>"
  {
    var text := "<html ></html>";
    assert OccursAt(text, START_TAGS[0], 0);
    assert IndexOf(text, START_TAGS[0]) == 0;
    assert FirstFound(text, START_TAGS) == 0;
    assert OccursAt(text, END_TAGS[0], 7);
    assert IndexOf(text, END_TAGS[0]) == 7 by {
      forall j | 0 <= j < 7 ensures !OccursAt(text, END_TAGS[0], j) {
        assert text[j + 1] != '/';
        assert j + 7 <= |text| ==> text[j..j + 7][1] == text[j + 1];
      }
    }
    assert FirstFound(text, END_TAGS) == 7;
    SectionOverreads(text);
  }
}
