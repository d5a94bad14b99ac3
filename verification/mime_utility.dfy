/**
 * The header text utilities of the vendored `MimeUtility`: quoting a word
 * for a structured header field (the quoted-string of section 3.2.4 of
 * RFC 5322), finding the first of a set of characters, classifying text by
 * how much of it is US-ASCII, and mapping a Java charset name to its MIME
 * name. The system properties are fixed at their defaults, so non-ASCII
 * characters are never allowed unquoted.
 */
module MimeUtility {
  import opened Wrappers
  import opened JavaLang

  // ---------------------------------------------------------------------
  // indexOfAny

  /**
   * `indexOfAny(s, any, start)`: the first index from `start` on whose
   * character is one of `any`, or -1. A negative start makes `charAt`
   * throw `StringIndexOutOfBoundsException`, which the method catches and
   * turns into -1.
   */
  function IndexOfAnyFrom(s: string, any: string, start: int): (r: int)
    ensures r == -1 || (0 <= start <= r < |s| && s[r] in any)
    ensures r == -1 && start >= 0 ==> forall k :: start <= k < |s| ==> s[k] !in any
    ensures r != -1 ==> forall k :: start <= k < r ==> s[k] !in any
    decreases |s| - start
  {
    if start < 0 || start >= |s| then -1
    else if s[start] in any then start
    else IndexOfAnyFrom(s, any, start + 1)
  }

  /** `indexOfAny(s, any)`: the first index whose character is one of `any`, or -1. */
  function IndexOfAny(s: string, any: string): (r: int)
    ensures r == -1 <==> forall k :: 0 <= k < |s| ==> s[k] !in any
    ensures r != -1 ==> 0 <= r < |s| && s[r] in any && forall k :: 0 <= k < r ==> s[k] !in any
  {
    IndexOfAnyFrom(s, any, 0)
  }

  /** A negative start finds nothing, even where a character of `any` occurs. */
  lemma NegativeStartFindsNothing(s: string, any: string, start: int)
    requires start < 0
    ensures IndexOfAnyFrom(s, any, start) == -1
  {
  }

  // ---------------------------------------------------------------------
  // quote

  /** The characters that force a word to be escaped and quoted: `"`, `\`, CR and LF. */
  const ESCAPED: string := "\"\\\r\n"

  predicate NeedsEscape(c: char) {
    c == '"' || c == '\\' || c == '\r' || c == '\n'
  }

  /** A control character, DEL or anything beyond ASCII, or one of the caller's specials, makes a word quoted. */
  predicate NeedsQuotes(c: char, specials: string) {
    (c as int) < 0x20 || (c as int) >= 0x7F || c in specials
  }

  /**
   * The escaping loop from the first character that needs it: a backslash
   * goes before each `"`, `\`, CR and LF, except before an LF that
   * directly follows a CR, which the backslash before the CR already covers.
   */
  function Escape(s: string, lastc: char): (r: string)
    ensures |r| >= |s|
    decreases |s|
  {
    if |s| == 0 then ""
    else
      var c := s[0];
      var slash := if NeedsEscape(c) && !(c == '\n' && lastc == '\r') then "\\" else "";
      slash + [c] + Escape(s[1..], c)
  }

  /**
   * `quote(word, specials)`. `null` and the empty word become `""`. A word
   * with a character to escape is escaped from that character on and put
   * in quotes. A word with a character that needs quotes is put in quotes
   * as it is. Any other word is returned unchanged.
   */
  function Quote(word: Option<string>, specials: string): (r: string)
    ensures var w := word.GetOr("");
      (r == w <==> |w| > 0 && forall k :: 0 <= k < |w| ==> !NeedsEscape(w[k]) && !NeedsQuotes(w[k], specials))
    ensures r != word.GetOr("") ==> |r| >= 2 && r[0] == '"' && r[|r| - 1] == '"'
    ensures word.GetOr("") == "" ==> r == "\"\""
  {
    var w := word.GetOr("");
    if |w| == 0 then "\"\""
    else
      var i := IndexOfAny(w, ESCAPED);
      if i != -1 then
        assert NeedsEscape(w[i]);
        "\"" + w[..i] + Escape(w[i..], '\U{0}') + "\""
      else if exists k :: 0 <= k < |w| && NeedsQuotes(w[k], specials) then
        "\"" + w + "\""
      else w
  }

  /** Reading a quoted-string back: drop the surrounding quotes and take each backslash-escaped character literally. */
  function Unquote(q: string): (r: string) {
    if |q| >= 2 && q[0] == '"' && q[|q| - 1] == '"' then Unescape(q[1..|q| - 1]) else q
  }

  /** A backslash and the character after it stand for that character. */
  function Unescape(s: string): (r: string)
    decreases |s|
  {
    if |s| == 0 then ""
    else if s[0] == '\\' && |s| >= 2 then [s[1]] + Unescape(s[2..])
    else [s[0]] + Unescape(s[1..])
  }

  /** Text without backslashes reads back as itself, also in front of more text. */
  lemma {:induction false} UnescapePrefix(a: string, b: string)
    requires '\\' !in a
    ensures Unescape(a + b) == a + Unescape(b)
    decreases |a|
  {
    if |a| > 0 {
      assert a[0] in a;
      assert (a + b)[0] == a[0] && (a + b)[1..] == a[1..] + b;
      assert '\\' !in a[1..] by {
        assert forall c :: c in a[1..] ==> c in a;
      }
      UnescapePrefix(a[1..], b);
      assert a[0] != '\\';
      assert Unescape(a + b) == [a[0]] + Unescape(a[1..] + b);
      assert [a[0]] + (a[1..] + Unescape(b)) == ([a[0]] + a[1..]) + Unescape(b);
      assert [a[0]] + a[1..] == a;
    } else {
      assert a + b == b && a + Unescape(b) == Unescape(b);
    }
  }

  /** Reading back what the escaping loop wrote gives its input. */
  lemma {:induction false} UnescapeEscape(s: string, lastc: char)
    ensures Unescape(Escape(s, lastc)) == s
    decreases |s|
  {
    if |s| > 0 {
      var c := s[0];
      var rest := Escape(s[1..], c);
      UnescapeEscape(s[1..], c);
      if NeedsEscape(c) && !(c == '\n' && lastc == '\r') {
        assert Escape(s, lastc) == "\\" + [c] + rest;
        assert ("\\" + [c] + rest)[2..] == rest;
      } else {
        assert Escape(s, lastc) == [c] + rest;
        assert ([c] + rest)[1..] == rest;
      }
      assert [c] + s[1..] == s;
    }
  }

  /** Every word `quote` handles is read back as itself from what it returns. */
  lemma QuoteRoundTrip(word: Option<string>, specials: string)
    ensures Unquote(Quote(word, specials)) == word.GetOr("")
  {
    var w := word.GetOr("");
    if |w| > 0 {
      var i := IndexOfAny(w, ESCAPED);
      if i != -1 {
        assert Quote(word, specials) == "\"" + w[..i] + Escape(w[i..], '\U{0}') + "\"";
        EscapedRoundTrip(w, i);
      } else {
        PlainRoundTrip(word, specials);
      }
    }
  }

  /** A word quoted with its tail escaped from the first character that needs it is read back as itself. */
  lemma EscapedRoundTrip(w: string, i: int)
    requires i == IndexOfAny(w, ESCAPED) && i != -1
    ensures Unquote("\"" + w[..i] + Escape(w[i..], '\U{0}') + "\"") == w
  {
    var rest := w[i..];
    NoBackslashBefore(w, i);
    QuotedJoin(w[..i], Escape(rest, '\U{0}'));
    UnescapeEscape(rest, '\U{0}');
    SplitJoins(w, i);
  }

  /** A text is its prefix followed by its suffix. */
  lemma SplitJoins(w: string, i: int)
    requires 0 <= i <= |w|
    ensures w[..i] + w[i..] == w
  {
  }

  /** A quoted text whose head holds no backslash reads back as the head followed by the unescaped rest. */
  lemma QuotedJoin(head: string, tail: string)
    requires '\\' !in head
    ensures Unquote("\"" + head + tail + "\"") == head + Unescape(tail)
  {
    assert "\"" + head + tail + "\"" == "\"" + (head + tail) + "\"";
    UnquoteQuoted(head + tail);
    UnescapePrefix(head, tail);
  }

  /** No backslash comes before the first character that needs escaping. */
  lemma NoBackslashBefore(w: string, i: int)
    requires i == IndexOfAny(w, ESCAPED) && i != -1
    ensures '\\' !in w[..i]
  {
    forall k | 0 <= k < i ensures w[..i][k] != '\\' {
      assert w[k] !in ESCAPED;
    }
  }

  /** Quotes around a text are dropped and the text is unescaped. */
  lemma UnquoteQuoted(x: string)
    ensures Unquote("\"" + x + "\"") == Unescape(x)
  {
    var q := "\"" + x + "\"";
    assert q[1..|q| - 1] == x;
  }

  /** A non-empty word with nothing to escape is returned as it is or in plain quotes, and read back as itself. */
  lemma PlainRoundTrip(word: Option<string>, specials: string)
    requires |word.GetOr("")| > 0 && IndexOfAny(word.GetOr(""), ESCAPED) == -1
    ensures Unquote(Quote(word, specials)) == word.GetOr("")
  {
    var w := word.GetOr("");
    var r := Quote(word, specials);
    assert '\\' !in w by {
      forall k | 0 <= k < |w| ensures w[k] != '\\' {
        assert w[k] !in ESCAPED;
      }
    }
    if r != w {
      assert r[1..|r| - 1] == w;
    } else {
      assert w[0] != '"' by {
        assert w[0] !in ESCAPED;
      }
    }
    UnescapePrefix(w, "");
    assert w + "" == w;
  }

  // ---------------------------------------------------------------------
  // checkAscii

  const ALL_ASCII: int := 1
  const MOSTLY_ASCII: int := 2
  const MOSTLY_NONASCII: int := 3

  /** `nonascii(b)`: DEL and above, or a control character other than CR, LF and TAB. */
  predicate NonAscii(b: int) {
    b >= 0x7F || (b < 0x20 && b != 13 && b != 10 && b != 9)
  }

  /** How many units of a sequence are not US-ASCII text. */
  function NonAsciiCount(units: seq<int>): (n: nat)
    ensures n <= |units|
    ensures n == 0 <==> forall k :: 0 <= k < |units| ==> !NonAscii(units[k])
    decreases |units|
  {
    if |units| == 0 then 0
    else
      var front := units[..|units| - 1];
      assert forall k :: 0 <= k < |front| ==> front[k] == units[k];
      NonAsciiCount(front) + (if NonAscii(units[|units| - 1]) then 1 else 0)
  }

  /** The class of a sequence: no non-ASCII unit; more ASCII than non-ASCII units; or neither. */
  function AsciiClass(units: seq<int>): (r: int)
    ensures r == ALL_ASCII <==> forall k :: 0 <= k < |units| ==> !NonAscii(units[k])
    ensures r == MOSTLY_ASCII <==> 0 < NonAsciiCount(units) < |units| - NonAsciiCount(units)
    ensures r == MOSTLY_NONASCII <==> 0 < NonAsciiCount(units) && |units| - NonAsciiCount(units) <= NonAsciiCount(units)
  {
    var nonAscii := NonAsciiCount(units);
    if nonAscii == 0 then ALL_ASCII
    else if |units| - nonAscii > nonAscii then MOSTLY_ASCII
    else MOSTLY_NONASCII
  }

  /** The counting loop shared by both `checkAscii` overloads. */
  method CountAndClassify(units: seq<int>) returns (r: int)
    ensures r == AsciiClass(units)
  {
    var ascii := 0;
    var nonAscii := 0;
    var i := 0;
    while i < |units|
      invariant 0 <= i <= |units|
      invariant nonAscii == NonAsciiCount(units[..i])
      invariant ascii + nonAscii == i
    {
      assert units[..i + 1][..i] == units[..i];
      if NonAscii(units[i]) {
        nonAscii := nonAscii + 1;
      } else {
        ascii := ascii + 1;
      }
      i := i + 1;
    }
    assert units[..i] == units;
    if nonAscii == 0 {
      r := ALL_ASCII;
    } else if ascii > nonAscii {
      r := MOSTLY_ASCII;
    } else {
      r := MOSTLY_NONASCII;
    }
  }

  /** `checkAscii(String)`, over the string's UTF-16 code units. */
  method CheckAscii(s: string) returns (r: int)
    ensures IsBmp(s) ==> (r == ALL_ASCII <==> forall k :: 0 <= k < |s| ==> !NonAscii(s[k] as int))
    ensures r == AsciiClass(Utf16(s))
  {
    r := CountAndClassify(Utf16(s));
  }

  /** The unsigned values `b & 0xff` of a byte sequence. */
  function ByteUnits(b: seq<uint8>): (r: seq<int>)
    ensures |r| == |b| && forall k :: 0 <= k < |b| ==> r[k] == b[k] as int
    decreases |b|
  {
    if |b| == 0 then [] else [b[0] as int] + ByteUnits(b[1..])
  }

  /** `checkAscii(byte[])`, over each byte taken unsigned. */
  method CheckAsciiBytes(b: seq<uint8>) returns (r: int)
    ensures r == ALL_ASCII <==> forall k :: 0 <= k < |b| ==> !NonAscii(b[k] as int)
    ensures r == AsciiClass(ByteUnits(b))
  {
    r := CountAndClassify(ByteUnits(b));
  }

  /** The ISO-8859-1 reading of bytes: each byte is the character with its value. */
  function Latin1(b: seq<uint8>): (s: string)
    ensures |s| == |b| && forall k :: 0 <= k < |b| ==> s[k] as int == b[k] as int
  {
    seq(|b|, k requires 0 <= k < |b| => b[k] as int as char)
  }

  /** Classifying bytes and classifying their ISO-8859-1 reading give the same class. */
  lemma BytesAndLatin1Agree(b: seq<uint8>)
    ensures AsciiClass(ByteUnits(b)) == AsciiClass(Utf16(Latin1(b)))
  {
    var s := Latin1(b);
    assert IsBmp(s);
    assert Utf16(s) == ByteUnits(b);
  }

  // ---------------------------------------------------------------------
  // mimeCharset

  /**
   * `mimeCharset`: the MIME name the `java2mime` table gives the lower-cased
   * Java name; the name itself when the table is missing, the name is
   * `null`, or the table has no entry for it.
   */
  function MimeCharset(charset: Option<string>, java2mime: Option<map<string, string>>): (r: Option<string>)
    ensures charset.None? ==> r.None?
    ensures r.Some? && r != charset ==>
      java2mime.Some? && ToLower(charset.value) in java2mime.value && r.value == java2mime.value[ToLower(charset.value)]
    ensures charset.Some? && java2mime.Some? && ToLower(charset.value) in java2mime.value ==> r == Some(java2mime.value[ToLower(charset.value)])
  {
    match (charset, java2mime)
    case (None, _) => None
    case (Some(name), None) => Some(name)
    case (Some(name), Some(table)) =>
      var key := ToLower(name);
      if key in table then Some(table[key]) else Some(name)
  }

  /** Names that differ only in the case of ASCII letters map alike. */
  lemma MimeCharsetIgnoresCase(a: string, b: string, java2mime: Option<map<string, string>>)
    requires ToLower(a) == ToLower(b)
    requires java2mime.Some? && ToLower(a) in java2mime.value
    ensures MimeCharset(Some(a), java2mime) == MimeCharset(Some(b), java2mime)
  {
  }
}
