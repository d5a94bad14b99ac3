/**
 * Inline versus downloadable attachments: a file attachment is inline when
 * the converted HTML body refers to it as `cid:<name>`. Attachments are
 * objects without value equality, so they are identified here by their
 * index in the message's attachment list.
 */
module CidAttachments {
  import opened Wrappers
  import opened JavaLang
  import OutlookFileAttachment
  import opened OutlookMessage

  type FileAttachment = OutlookFileAttachment.FileAttachment

  // ---------------------------------------------------------------------
  // Escaping a name for the `cid:` pattern

  /** The characters `escapeCID` puts a backslash in front of, in the order it handles them. */
  const REGEX_SPECIALS: seq<char> := ['\\', '^', '$', '.', '|', '?', '*', '+', '(', ')', '[', '{']

  /** `s.replace(c, "\\" + c)`: every occurrence of `c` gets a backslash in front. */
  function ReplaceChar(s: string, c: char): (r: string)
    decreases |s|
  {
    if |s| == 0 then "" else (if s[0] == c then ['\\', c] else [s[0]]) + ReplaceChar(s[1..], c)
  }

  /** The replacements of `escapeCID`, one character after another. */
  function ReplaceEach(s: string, cs: seq<char>): string
    decreases |cs|
  {
    if |cs| == 0 then s else ReplaceEach(ReplaceChar(s, cs[0]), cs[1..])
  }

  /** `escapeCID` as written. */
  function EscapeCid(name: string): string {
    ReplaceEach(name, REGEX_SPECIALS)
  }

  /** Reference definition: each character of `ds` gets one backslash, every other character stays. */
  function EscapeIn(s: string, ds: set<char>): (r: string)
    ensures |r| >= |s|
    decreases |s|
  {
    if |s| == 0 then "" else (if s[0] in ds then ['\\', s[0]] else [s[0]]) + EscapeIn(s[1..], ds)
  }

  /** Reading an escaped text back: a backslash makes the next character plain. */
  function Unescape(s: string): (r: string)
    decreases |s|
  {
    if |s| == 0 then ""
    else if s[0] == '\\' && |s| >= 2 then [s[1]] + Unescape(s[2..])
    else [s[0]] + Unescape(s[1..])
  }

  lemma {:induction false} ReplaceCharConcat(a: string, b: string, c: char)
    ensures ReplaceChar(a + b, c) == ReplaceChar(a, c) + ReplaceChar(b, c)
    decreases |a|
  {
    if |a| == 0 {
      assert a + b == b;
    } else {
      assert (a + b)[1..] == a[1..] + b;
      ReplaceCharConcat(a[1..], b, c);
    }
  }

  /** The backslash replacement is the reference escape for the backslash alone. */
  lemma {:induction false} ReplaceBackslash(s: string)
    ensures ReplaceChar(s, '\\') == EscapeIn(s, {'\\'})
    decreases |s|
  {
    if |s| > 0 {
      ReplaceBackslash(s[1..]);
    }
  }

  /**
   * Once the backslash is escaped, replacing one more character `c` extends
   * the escaped set by `c`: the backslashes already inserted are left alone.
   */
  lemma {:induction false} ReplaceAfterEscape(s: string, ds: set<char>, c: char)
    requires c != '\\' && c !in ds
    ensures ReplaceChar(EscapeIn(s, ds), c) == EscapeIn(s, ds + {c})
    decreases |s|
  {
    if |s| > 0 {
      var head := if s[0] in ds then ['\\', s[0]] else [s[0]];
      ReplaceCharConcat(head, EscapeIn(s[1..], ds), c);
      ReplaceAfterEscape(s[1..], ds, c);
      if s[0] in ds {
        assert ReplaceChar(head, c) == head by {
          assert head[1..] == [s[0]];
          assert [s[0]][1..] == [];
        }
      } else {
        assert [s[0]][1..] == [];
      }
    }
  }

  /** The remaining characters are distinct, none is the backslash and none is escaped yet. */
  predicate FreshChars(cs: seq<char>, ds: set<char>) {
    (forall i :: 0 <= i < |cs| ==> cs[i] != '\\' && cs[i] !in ds)
    && (forall i, j :: 0 <= i < j < |cs| ==> cs[i] != cs[j])
  }

  function CharSet(cs: seq<char>): (r: set<char>)
    ensures forall c :: c in r <==> c in cs
  {
    set c | c in cs
  }

  lemma {:induction false} ReplaceEachEscapes(s: string, ds: set<char>, cs: seq<char>)
    requires FreshChars(cs, ds)
    ensures ReplaceEach(EscapeIn(s, ds), cs) == EscapeIn(s, ds + CharSet(cs))
    decreases |cs|
  {
    if |cs| == 0 {
      assert ds + CharSet(cs) == ds;
    } else {
      ReplaceAfterEscape(s, ds, cs[0]);
      assert FreshChars(cs[1..], ds + {cs[0]}) by {
        forall i | 0 <= i < |cs| - 1
          ensures cs[1..][i] != cs[0]
        {
          assert cs[0] != cs[i + 1];
        }
      }
      ReplaceEachEscapes(s, ds + {cs[0]}, cs[1..]);
      assert ds + {cs[0]} + CharSet(cs[1..]) == ds + CharSet(cs);
    }
  }

  lemma SpecialsFresh()
    ensures FreshChars(REGEX_SPECIALS[1..], {'\\'})
  {
    assert REGEX_SPECIALS[1..] == ['^', '$', '.', '|', '?', '*', '+', '(', ')', '[', '{'];
  }

  /**
   * The sequential replacements of `escapeCID` put exactly one backslash in
   * front of each special character, because the backslash is handled first.
   */
  lemma EscapeCidIsPerCharacter(name: string)
    ensures EscapeCid(name) == EscapeIn(name, CharSet(REGEX_SPECIALS))
  {
    BackslashFirst(name);
    ReplaceBackslash(name);
    SpecialsFresh();
    ReplaceEachEscapes(name, {'\\'}, REGEX_SPECIALS[1..]);
    SpecialsSet();
  }

  /** `escapeCID` handles the backslash before the other specials. */
  lemma BackslashFirst(name: string)
    ensures EscapeCid(name) == ReplaceEach(ReplaceChar(name, '\\'), REGEX_SPECIALS[1..])
  {
  }

  lemma SpecialsSet()
    ensures {'\\'} + CharSet(REGEX_SPECIALS[1..]) == CharSet(REGEX_SPECIALS)
  {
    assert REGEX_SPECIALS == ['\\'] + REGEX_SPECIALS[1..];
  }

  /** Escaping with the backslash among the escaped characters can be read back. */
  lemma {:induction false} UnescapeEscapeIn(s: string, ds: set<char>)
    requires '\\' in ds
    ensures Unescape(EscapeIn(s, ds)) == s
    decreases |s|
  {
    if |s| > 0 {
      UnescapeEscapeIn(s[1..], ds);
      var e := EscapeIn(s, ds);
      if s[0] in ds {
        assert e[2..] == EscapeIn(s[1..], ds);
      } else {
        assert e[1..] == EscapeIn(s[1..], ds);
      }
    }
  }

  /** The escaped name stands for the name itself. */
  lemma UnescapeEscapeCid(name: string)
    ensures Unescape(EscapeCid(name)) == name
  {
    EscapeCidIsPerCharacter(name);
    UnescapeEscapeIn(name, CharSet(REGEX_SPECIALS));
  }

  // ---------------------------------------------------------------------
  // Looking for a name in the HTML body

  /**
   * `htmlContainsCID`: the pattern `cid:['"]?<escaped>['"]?` occurs in the
   * HTML. The escaped part matches the text it stands for; the trailing
   * optional quote never decides a search.
   */
  predicate HtmlContainsCid(html: string, name: string) {
    var literal := Unescape(EscapeCid(name));
    Contains(html, "cid:" + literal) || Contains(html, "cid:'" + literal) || Contains(html, "cid:\"" + literal)
  }

  /** The search is a plain search for `cid:`, an optional quote and the name. */
  lemma HtmlContainsCidLiteral(html: string, name: string)
    ensures HtmlContainsCid(html, name) <==>
      Contains(html, "cid:" + name) || Contains(html, "cid:'" + name) || Contains(html, "cid:\"" + name)
  {
    UnescapeEscapeCid(name);
  }

  /** `tryAddCid`'s test: a non-null, non-empty name the HTML refers to. */
  predicate CidFound(html: string, name: Option<string>) {
    name.Some? && |name.value| != 0 && HtmlContainsCid(html, name.value)
  }

  /** The name an attachment is keyed under: content id, else file name, else long file name. */
  function AttachmentCid(html: string, a: FileAttachment): (r: Option<string>)
    ensures r.Some? ==> |r.value| > 0 && HtmlContainsCid(html, r.value)
    ensures r.None? <==> !CidFound(html, a.contentId) && !CidFound(html, a.filename) && !CidFound(html, a.longFilename)
  {
    if CidFound(html, a.contentId) then a.contentId
    else if CidFound(html, a.filename) then a.filename
    else if CidFound(html, a.longFilename) then a.longFilename
    else None
  }

  /** The name an attachment is keyed under, if it is a file attachment. */
  function CidOf(html: string, a: Attachment): Option<string> {
    if a.FileAttachment? then AttachmentCid(html, a.file) else None
  }

  /** The loop of `fetchCIDMap` over the attachments: later puts replace earlier ones. */
  function CidMapOf(html: string, atts: seq<Attachment>): (r: map<string, nat>)
    ensures forall c :: c in r ==> r[c] < |atts| && CidOf(html, atts[r[c]]) == Some(c)
    decreases |atts|
  {
    if |atts| == 0 then map[]
    else
      var prev := CidMapOf(html, atts[..|atts| - 1]);
      match CidOf(html, atts[|atts| - 1])
      case None => prev
      case Some(c) => prev[c := |atts| - 1]
  }

  /** `fetchCIDMap`: empty unless there is a non-empty converted HTML body. */
  function FetchCidMap(m: Message): (r: map<string, nat>)
    ensures m.convertedBodyHTML.None? || m.convertedBodyHTML == Some("") ==> r == map[]
    ensures forall c :: c in r ==>
      r[c] < |m.attachments| && m.attachments[r[c]].FileAttachment?
      && Some(c) == AttachmentCid(m.convertedBodyHTML.value, m.attachments[r[c]].file)
  {
    match m.convertedBodyHTML
    case None => map[]
    case Some(html) => if |html| == 0 then map[] else CidMapOf(html, m.attachments)
  }

  /** Every file attachment the HTML refers to is in the map, under its name, unless a later one took that name. */
  lemma {:induction false} CidMapHasEveryReferenced(html: string, atts: seq<Attachment>, k: int)
    requires 0 <= k < |atts|
    ensures CidOf(html, atts[k]).Some? ==>
      CidOf(html, atts[k]).value in CidMapOf(html, atts) && k <= CidMapOf(html, atts)[CidOf(html, atts[k]).value]
    decreases |atts|
  {
    if CidOf(html, atts[k]).None? {
      return;
    }
    var front := atts[..|atts| - 1];
    var c := CidOf(html, atts[k]).value;
    var last := CidOf(html, atts[|atts| - 1]);
    if k < |atts| - 1 {
      assert front[k] == atts[k];
      CidMapHasEveryReferenced(html, front, k);
      if last != Some(c) {
        assert CidMapOf(html, atts)[c] == CidMapOf(html, front)[c];
      }
    }
  }

  /** A map entry is the last attachment keyed under its name. */
  lemma CidMapKeepsLast(html: string, atts: seq<Attachment>, c: string, j: int)
    requires 0 <= j < |atts|
    ensures c in CidMapOf(html, atts) && CidMapOf(html, atts)[c] < j ==> CidOf(html, atts[j]) != Some(c)
  {
    CidMapHasEveryReferenced(html, atts, j);
  }

  // ---------------------------------------------------------------------
  // Downloadable attachments

  /**
   * `fetchTrueAttachments`: the file attachments that are not a value of the
   * CID map; nested messages are skipped. The source collects them through a
   * hash set, so the result is a set of indices.
   */
  function TrueAttachments(m: Message): (r: set<nat>)
    ensures forall k :: k in r ==> k < |m.attachments| && m.attachments[k].FileAttachment?
  {
    var inline := FetchCidMap(m).Values;
    set k: nat | k < |m.attachments| && m.attachments[k].FileAttachment? && k !in inline
  }

  /** A file attachment is downloadable exactly when it is not inline; a nested message is neither. */
  lemma TrueAttachmentsPartition(m: Message, k: nat)
    requires k < |m.attachments|
    ensures k in TrueAttachments(m) <==> m.attachments[k].FileAttachment? && k !in FetchCidMap(m).Values
    ensures k in FetchCidMap(m).Values ==> m.attachments[k].FileAttachment? && k !in TrueAttachments(m)
  {
  }

  /** Without an HTML body every file attachment is downloadable. */
  lemma NoHtmlAllTrue(m: Message, k: nat)
    requires m.convertedBodyHTML.None? || m.convertedBodyHTML == Some("")
    requires k < |m.attachments| && m.attachments[k].FileAttachment?
    ensures k in TrueAttachments(m)
  {
  }

  /** A file attachment the HTML does not refer to under any of its names is downloadable. */
  lemma UnreferencedIsTrue(m: Message, k: nat)
    requires k < |m.attachments| && m.attachments[k].FileAttachment?
    requires m.convertedBodyHTML.Some?
    requires AttachmentCid(m.convertedBodyHTML.value, m.attachments[k].file).None?
    ensures k in TrueAttachments(m)
  {
    var cids := FetchCidMap(m);
    assert forall c :: c in cids ==> cids[c] != k;
  }

  /**
   * When two file attachments are keyed under the same name only the later
   * one is inline; the earlier one is offered as downloadable.
   */
  lemma SharedCidEarlierIsTrue(m: Message, i: nat, j: nat)
    requires i < j < |m.attachments|
    requires m.convertedBodyHTML.Some? && |m.convertedBodyHTML.value| > 0
    requires m.attachments[i].FileAttachment? && m.attachments[j].FileAttachment?
    ensures var html := m.convertedBodyHTML.value;
      AttachmentCid(html, m.attachments[i].file).Some?
      && AttachmentCid(html, m.attachments[i].file) == AttachmentCid(html, m.attachments[j].file)
      ==> i in TrueAttachments(m)
  {
    var html := m.convertedBodyHTML.value;
    if AttachmentCid(html, m.attachments[i].file).None?
      || AttachmentCid(html, m.attachments[i].file) != AttachmentCid(html, m.attachments[j].file)
    {
      return;
    }
    var cids := CidMapOf(html, m.attachments);
    assert cids == FetchCidMap(m);
    assert CidOf(html, m.attachments[j]) == CidOf(html, m.attachments[i]);
    CidMapHasEveryReferenced(html, m.attachments, j);
    assert forall c :: c in cids ==> cids[c] != i;
    TrueAttachmentsPartition(m, i);
  }
}
