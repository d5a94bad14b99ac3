/**
 * `CharsetHelper` of the RTF scanner: the charset an RTF `\ansicpg` code
 * page names, found by trying a fixed list of name prefixes in order.
 */
module CharsetHelper {
  import opened Wrappers
  import opened JavaLang
  import opened Collaborators

  /** The prefixes tried in front of the code page number, in this order. */
  const CHARSET_PREFIXES: seq<string> := ["", "cp", "iso-", "ibm", "x-windows-", "ms"]

  /** `Charset.forName("CP1252")`, whose canonical name is windows-1252. */
  const WINDOWS_CHARSET: Charset := WINDOWS_1252

  /** A character `Charset.checkName` accepts; the punctuation may not come first. */
  predicate CharsetNameChar(c: char, first: bool) {
    ('A' <= c <= 'Z') || ('a' <= c <= 'z') || ('0' <= c <= '9')
    || (!first && (c == '-' || c == '+' || c == ':' || c == '_' || c == '.'))
  }

  /** A name `Charset.forName` looks up without throwing `IllegalCharsetNameException`. */
  predicate LegalCharsetName(name: string) {
    |name| > 0 && forall i :: 0 <= i < |name| ==> CharsetNameChar(name[i], i == 0)
  }

  /** `"" + rtfCodePage` for a possibly null `Integer`. */
  function CodePageText(codePage: Option<int>): string {
    match codePage
    case None => "null"
    case Some(n) => IntToString(n)
  }

  /** The charset name tried for a prefix. */
  function Candidate(prefix: string, codePage: Option<int>): string {
    prefix + CodePageText(codePage)
  }

  /**
   * `Charset.forName` on each candidate in turn. A name no provider knows
   * is checked for legality only then: an illegal one throws
   * `IllegalCharsetNameException`, which is not caught, while a legal one
   * throws `UnsupportedCharsetException`, which moves on to the next prefix.
   */
  function Probe(prefixes: seq<string>, codePage: Option<int>, forName: string -> Option<Charset>): (r: Result<Charset, Exception>)
    ensures r.Err? ==> r.error == UnsupportedCharset || r.error == IllegalCharsetName
    ensures r.Ok? ==> exists k :: 0 <= k < |prefixes| && forName(Candidate(prefixes[k], codePage)) == Some(r.value)
    decreases |prefixes|
  {
    if |prefixes| == 0 then Err(UnsupportedCharset)
    else
      var name := Candidate(prefixes[0], codePage);
      match forName(name)
      case Some(cs) => Ok(cs)
      case None =>
        if !LegalCharsetName(name) then Err(IllegalCharsetName)
        else
          var r := Probe(prefixes[1..], codePage, forName);
          assert r.Ok? ==> exists k :: 1 <= k < |prefixes| && forName(Candidate(prefixes[k], codePage)) == Some(r.value) by {
            if r.Ok? {
              var k :| 0 <= k < |prefixes[1..]| && forName(Candidate(prefixes[1..][k], codePage)) == Some(r.value);
              assert prefixes[1..][k] == prefixes[k + 1];
            }
          }
          r
  }

  /** `findCharset`: the charset of an RTF code page. */
  function FindCharset(codePage: Option<int>, forName: string -> Option<Charset>): (r: Result<Charset, Exception>)
    ensures r.Err? ==> r.error == UnsupportedCharset || r.error == IllegalCharsetName
    ensures r.Ok? ==> exists k :: 0 <= k < |CHARSET_PREFIXES| && forName(Candidate(CHARSET_PREFIXES[k], codePage)) == Some(r.value)
  {
    Probe(CHARSET_PREFIXES, codePage, forName)
  }

  // ---------------------------------------------------------------------
  // Properties

  /**
   * The first candidate that resolves decides, provided every earlier one
   * was a legal name that did not resolve; candidates after it are never
   * consulted, so any two registries that agree up to it give the same
   * charset.
   */
  lemma {:induction false} FirstResolvingWins(prefixes: seq<string>, codePage: Option<int>, f: string -> Option<Charset>, g: string -> Option<Charset>, k: nat)
    requires k < |prefixes|
    requires forall j :: 0 <= j < k ==> f(Candidate(prefixes[j], codePage)).None? && LegalCharsetName(Candidate(prefixes[j], codePage))
    requires f(Candidate(prefixes[k], codePage)).Some?
    requires forall j :: 0 <= j <= k ==> g(Candidate(prefixes[j], codePage)) == f(Candidate(prefixes[j], codePage))
    ensures Probe(prefixes, codePage, f) == Ok(f(Candidate(prefixes[k], codePage)).value)
    ensures Probe(prefixes, codePage, g) == Probe(prefixes, codePage, f)
    decreases k
  {
    if k > 0 {
      var rest := prefixes[1..];
      assert forall j :: 0 <= j < k - 1 ==> rest[j] == prefixes[j + 1];
      assert rest[k - 1] == prefixes[k];
      FirstResolvingWins(rest, codePage, f, g, k - 1);
      ProbeSkips(prefixes, codePage, f);
      ProbeSkips(prefixes, codePage, g);
    }
  }

  /** A legal candidate that does not resolve hands over to the next prefix. */
  lemma ProbeSkips(prefixes: seq<string>, codePage: Option<int>, forName: string -> Option<Charset>)
    requires |prefixes| > 0
    requires forName(Candidate(prefixes[0], codePage)).None? && LegalCharsetName(Candidate(prefixes[0], codePage))
    ensures Probe(prefixes, codePage, forName) == Probe(prefixes[1..], codePage, forName)
  {
  }

  /** A code page that is absent or not negative gives only legal candidate names. */
  lemma CandidatesLegal(prefix: string, codePage: Option<int>)
    requires prefix in CHARSET_PREFIXES
    requires codePage.None? || codePage.value >= 0
    ensures LegalCharsetName(Candidate(prefix, codePage))
  {
    var t := CodePageText(codePage);
    var name := Candidate(prefix, codePage);
    assert forall i :: 0 <= i < |t| ==> ('0' <= t[i] <= '9') || ('a' <= t[i] <= 'z') by {
      if codePage.Some? {
        forall i | 0 <= i < |t| ensures '0' <= t[i] <= '9' {
          assert Digit(t[i], 10) >= 0;
        }
      }
    }
    forall i | 0 <= i < |name| ensures CharsetNameChar(name[i], i == 0) {
      if i >= |prefix| {
        assert name[i] == t[i - |prefix|];
      }
    }
  }

  /** When no candidate resolves, a code page that is absent or not negative ends in `UnsupportedCharsetException`. */
  lemma NoneResolvesUnsupported(codePage: Option<int>, forName: string -> Option<Charset>)
    requires codePage.None? || codePage.value >= 0
    requires forall k :: 0 <= k < |CHARSET_PREFIXES| ==> forName(Candidate(CHARSET_PREFIXES[k], codePage)).None?
    ensures FindCharset(codePage, forName) == Err(UnsupportedCharset)
  {
    var P := CHARSET_PREFIXES;
    forall k | 0 <= k < |P| ensures LegalCharsetName(Candidate(P[k], codePage)) {
      CandidatesLegal(P[k], codePage);
    }
    assert P[1..][1..][1..][1..][1..][1..] == [];
  }

  /**
   * A negative code page is first tried as its bare number, which starts
   * with `-`: unless some provider knows that name, the illegal name
   * escapes as `IllegalCharsetNameException`.
   */
  lemma NegativeCodePageIllegal(n: int, forName: string -> Option<Charset>)
    requires n < 0
    requires forName(IntToString(n)).None?
    ensures FindCharset(Some(n), forName) == Err(IllegalCharsetName)
  {
    assert Candidate(CHARSET_PREFIXES[0], Some(n)) == IntToString(n);
  }
}
