/**
 * Header folding in the vendored `MimeUtility`: `makesafe`, which makes
 * sure every line break inside a header value is followed by whitespace so
 * that the value cannot inject a header line of its own; `fold`, which
 * breaks a long value at whitespace so that lines stay within 76
 * characters where possible; and `unfold`, which removes such breaks again
 * (folding and unfolding as in section 2.2.3 of RFC 5322). The `foldText`
 * system property is fixed at its default, `true`.
 */
module HeaderFolding {
  import opened JavaLang
  import MimeUtility

  /** The line length `fold` aims for. */
  const LINE_LIMIT := 76

  /** The two whitespace characters a folded line may start with. */
  predicate IsWsp(c: char) {
    c == ' ' || c == '\t'
  }

  // ---------------------------------------------------------------------
  // Safe header text

  /** At `k`, a carriage return starts CR LF followed by whitespace, and a line feed ends such a pair. */
  predicate SafeAt(r: string, k: int)
    requires 0 <= k < |r|
  {
    (r[k] == '\r' ==> k + 2 < |r| && r[k + 1] == '\n' && IsWsp(r[k + 2]))
    && (r[k] == '\n' ==> 0 < k && r[k - 1] == '\r')
  }

  /** Every line break in `r` is a fold: CR LF followed by a space or a tab. */
  predicate SafeHeader(r: string) {
    forall k :: 0 <= k < |r| ==> SafeAt(r, k)
  }

  /** Text without line breaks is safe. */
  lemma SafeWithoutBreaks(s: string)
    requires NoLineBreak(s)
    ensures SafeHeader(s)
  {
    forall k | 0 <= k < |s|
      ensures SafeAt(s, k)
    {
      assert s[k] in s;
    }
  }

  /** A fold between a line without breaks and safe text that starts with whitespace keeps the text safe. */
  lemma SafeFold(a: string, b: string)
    requires NoLineBreak(a) && SafeHeader(b) && |b| > 0 && IsWsp(b[0])
    ensures SafeHeader(a + "\r\n" + b)
  {
    var x := a + "\r\n" + b;
    forall k | 0 <= k < |x|
      ensures SafeAt(x, k)
    {
      if k < |a| {
        assert x[k] == a[k] && a[k] in a;
      } else if k >= |a| + 2 {
        var j := k - |a| - 2;
        assert SafeAt(b, j);
        assert x[k] == b[j];
        assert j + 2 < |b| ==> x[k + 1] == b[j + 1] && x[k + 2] == b[j + 2];
        assert j > 0 ==> x[k - 1] == b[j - 1];
      }
    }
  }

  // ---------------------------------------------------------------------
  // Lines

  /** Every character of `s` is one `String.trim` removes. */
  predicate Blank(s: string) {
    forall c :: c in s ==> IsTrimmed(c)
  }

  /** `line.trim().length() == 0` exactly when every character of the line is trimmed. */
  lemma TrimEmptyIffBlank(s: string)
    ensures |Trim(s)| == 0 <==> Blank(s)
  {
    if !Blank(s) {
      var c :| c in s && !IsTrimmed(c);
      TrimKeepsChar(s, c);
    } else {
      var l := StripLeading(s);
      assert forall i :: 0 <= i < |s| ==> s[i] in s;
    }
  }

  /**
   * Just past the line break that starts at `start`: past CR LF when a
   * carriage return is followed by a line feed, otherwise past the one
   * character.
   */
  function BreakEnd(s: string, start: nat): (i: nat)
    requires start < |s|
    ensures start < i <= |s|
  {
    if s[start] == '\r' && start + 1 < |s| && s[start + 1] == '\n' then start + 2 else start + 1
  }

  /**
   * `BufferedReader.readLine` repeated until it returns null: a line ends at
   * LF, at CR, or at CR LF, and the last line needs no terminator.
   */
  function ReadLines(s: string): (r: seq<string>)
    ensures |r| == 0 <==> |s| == 0
    ensures forall k :: 0 <= k < |r| ==> NoLineBreak(r[k])
    decreases |s|
  {
    if |s| == 0 then []
    else
      var i := MimeUtility.IndexOfAny(s, "\r\n");
      if i == -1 then
        assert NoLineBreak(s) by {
          forall c | c in s ensures !IsLineBreak(c) {
            var k :| 0 <= k < |s| && s[k] == c;
            assert s[k] !in "\r\n";
          }
        }
        [s]
      else
        var next := BreakEnd(s, i);
        assert NoLineBreak(s[..i]) by {
          forall c | c in s[..i] ensures !IsLineBreak(c) {
            var k :| 0 <= k < i && s[..i][k] == c;
            assert s[k] !in "\r\n";
          }
        }
        [s[..i]] + ReadLines(s[next..])
  }

  /** Lines put back together with CR LF between them. */
  function Joined(lines: seq<string>): (r: string)
    ensures |lines| > 0 ==> lines[0] <= r
  {
    if |lines| == 0 then ""
    else if |lines| == 1 then lines[0]
    else lines[0] + "\r\n" + Joined(lines[1..])
  }

  /** Lines put back together with nothing between them. */
  function Concat(lines: seq<string>): string {
    if |lines| == 0 then "" else lines[0] + Concat(lines[1..])
  }

  /** Each line is free of line breaks. */
  predicate AllUnbroken(lines: seq<string>) {
    forall k :: 0 <= k < |lines| ==> NoLineBreak(lines[k])
  }

  /** Every line but the first starts with a space or a tab. */
  predicate ContinuedWithWsp(lines: seq<string>) {
    forall k :: 0 < k < |lines| ==> |lines[k]| > 0 && IsWsp(lines[k][0])
  }

  /** No line is blank. */
  predicate AllVisible(lines: seq<string>) {
    forall k :: 0 <= k < |lines| ==> !Blank(lines[k])
  }

  /** The line does not end in a backslash. */
  predicate EndsUnescaped(line: string) {
    |line| == 0 || line[|line| - 1] != '\\'
  }

  /** No line followed by another ends in a backslash. */
  predicate BreaksUnescaped(lines: seq<string>) {
    forall k :: 0 <= k < |lines| - 1 ==> EndsUnescaped(lines[k])
  }

  /** The first line break of `a + b`, when `a` has none and `b` starts with one, is where `b` starts. */
  lemma BreakAfter(a: string, b: string)
    requires NoLineBreak(a) && |b| > 0 && IsLineBreak(b[0])
    ensures MimeUtility.IndexOfAny(a + b, "\r\n") == |a|
    ensures (a + b)[..|a|] == a && (a + b)[|a|..] == b
  {
    var x := a + b;
    assert x[|a|] in "\r\n";
    forall k | 0 <= k < |a|
      ensures x[k] !in "\r\n"
    {
      assert x[k] == a[k] && a[k] in a;
    }
  }

  /** Reading lines back out of joined lines gives the same lines. */
  lemma {:induction false} ReadJoined(lines: seq<string>)
    requires AllUnbroken(lines)
    requires forall k :: 0 <= k < |lines| ==> |lines[k]| > 0
    ensures ReadLines(Joined(lines)) == lines
    decreases |lines|
  {
    if |lines| == 1 {
      ReadOneLine(lines[0]);
    } else if |lines| > 1 {
      assert AllUnbroken(lines[1..]) by {
        assert forall k :: 0 <= k < |lines| - 1 ==> lines[1..][k] == lines[k + 1];
      }
      ReadJoined(lines[1..]);
      ReadFirstLine(lines[0], Joined(lines[1..]));
      assert lines == [lines[0]] + lines[1..];
    }
  }

  /** A text without line breaks is read as one line. */
  lemma ReadOneLine(s: string)
    requires NoLineBreak(s) && |s| > 0
    ensures ReadLines(s) == [s]
  {
    assert forall k :: 0 <= k < |s| ==> s[k] !in "\r\n" by {
      forall k | 0 <= k < |s| ensures s[k] !in "\r\n" {
        assert s[k] in s;
      }
    }
  }

  /** A line without line breaks followed by CR LF is read first, and reading goes on after the CR LF. */
  lemma ReadFirstLine(a: string, j: string)
    requires NoLineBreak(a)
    ensures ReadLines(a + "\r\n" + j) == [a] + ReadLines(j)
  {
    assert "\r\n" + j == ("\r\n" + j)[..];
    BreakAfter(a, "\r\n" + j);
    assert a + "\r\n" + j == a + ("\r\n" + j);
    var s := a + ("\r\n" + j);
    assert s[|a| + 2..] == j;
  }

  // ---------------------------------------------------------------------
  // makesafe

  /** A kept line, with the space `makesafe` may put in front of it, is still visible and unbroken. */
  lemma KeptLine(line: string, started: bool)
    requires NoLineBreak(line) && !Blank(line)
    ensures var kept := if started && !IsWsp(line[0]) then " " + line else line;
      NoLineBreak(kept) && !Blank(kept) && (started ==> |kept| > 0 && IsWsp(kept[0]))
  {
    var kept := if started && !IsWsp(line[0]) then " " + line else line;
    var c :| c in line && !IsTrimmed(c);
    assert c in kept;
    assert forall d :: d in kept ==> d == ' ' || d in line;
  }

  /**
   * The lines `makesafe` appends: blank lines (those whose `trim()` is
   * empty, see `TrimEmptyIffBlank`) are dropped, and every kept
   * line after the first gets a leading space unless it already starts
   * with a space or a tab. `started` says whether a line was kept before;
   * a kept line is never empty, so this is the source's `sb.length() > 0`.
   */
  function KeptLines(lines: seq<string>, started: bool): (r: seq<string>)
    requires AllUnbroken(lines)
    ensures AllUnbroken(r)
    ensures AllVisible(r)
    ensures ContinuedWithWsp(r) && (started && |r| > 0 ==> |r[0]| > 0 && IsWsp(r[0][0]))
    ensures |r| <= |lines|
    decreases |lines|
  {
    if |lines| == 0 then []
    else
      var line := lines[0];
      if Blank(line) then KeptLines(lines[1..], started)
      else
        var kept := if started && !IsWsp(line[0]) then " " + line else line;
        KeptLine(line, started);
        [kept] + KeptLines(lines[1..], true)
  }

  /** Lines that are already non-blank and continued with whitespace are kept as they are. */
  lemma {:induction false} KeptUnchanged(lines: seq<string>, started: bool)
    requires AllUnbroken(lines)
    requires AllVisible(lines)
    requires ContinuedWithWsp(lines) && (started && |lines| > 0 ==> |lines[0]| > 0 && IsWsp(lines[0][0]))
    ensures KeptLines(lines, started) == lines
    decreases |lines|
  {
    if |lines| > 0 {
      KeptUnchanged(lines[1..], true);
    }
  }

  /** Joined lines whose later lines start with whitespace form safe header text. */
  lemma {:induction false} SafeJoined(lines: seq<string>)
    requires AllUnbroken(lines) && ContinuedWithWsp(lines)
    ensures SafeHeader(Joined(lines))
    decreases |lines|
  {
    if |lines| == 1 {
      SafeWithoutBreaks(lines[0]);
    } else if |lines| > 1 {
      SafeJoined(lines[1..]);
      SafeFold(lines[0], Joined(lines[1..]));
    }
  }

  /**
   * `makesafe(s)`: text without CR or LF comes back unchanged; otherwise
   * its lines are read back, blank ones dropped, and the rest joined with
   * CR LF, each later line starting with a space or a tab.
   */
  function Makesafe(s: string): (r: string)
    ensures SafeHeader(r)
    ensures NoLineBreak(s) ==> r == s
  {
    if NoLineBreak(s) then
      SafeWithoutBreaks(s);
      s
    else
      var kept := KeptLines(ReadLines(s), false);
      SafeJoined(kept);
      Joined(kept)
  }

  /** Joined lines that are non-blank and continued with whitespace are already safe: `makesafe` returns them as they are. */
  lemma MakesafeJoined(lines: seq<string>)
    requires AllUnbroken(lines) && ContinuedWithWsp(lines) && AllVisible(lines)
    ensures Makesafe(Joined(lines)) == Joined(lines)
  {
    var s := Joined(lines);
    if !NoLineBreak(s) {
      forall k | 0 <= k < |lines|
        ensures |lines[k]| > 0
      {
        if |lines[k]| == 0 {
          assert Blank(lines[k]);
        }
      }
      ReadJoined(lines);
      KeptUnchanged(lines, false);
    }
  }

  /** `makesafe` is idempotent. */
  lemma MakesafeIdempotent(s: string)
    ensures Makesafe(Makesafe(s)) == Makesafe(s)
  {
    if !NoLineBreak(s) {
      MakesafeJoined(KeptLines(ReadLines(s), false));
    }
  }

  // ---------------------------------------------------------------------
  // fold

  /** The characters `fold` strips from the end: space, tab, CR and LF. */
  predicate IsFoldSpace(c: char) {
    IsWsp(c) || IsLineBreak(c)
  }

  /** `fold`'s first step: the value without trailing spaces, tabs and line breaks. */
  function StripFoldSpace(s: string): (r: string)
    ensures |r| <= |s| && r == s[..|r|]
    ensures |r| > 0 ==> !IsFoldSpace(r[|r| - 1])
    ensures forall i :: |r| <= i < |s| ==> IsFoldSpace(s[i])
    decreases |s|
  {
    if |s| > 0 && IsFoldSpace(s[|s| - 1]) then StripFoldSpace(s[..|s| - 1]) else s
  }

  /**
   * Whether `fold` may break before index `i`: a space or a tab that does
   * not follow another one. `lastc` is the character before `s[0]`.
   */
  predicate EligibleAt(s: string, i: int, lastc: char)
    requires 0 <= i < |s|
  {
    IsWsp(s[i]) && !IsWsp(if i == 0 then lastc else s[i - 1])
  }

  /** The inner `for` loop of `fold`, from index `i` with the scan's `lastspace` and `lastc` so far. */
  function ScanSpace(s: string, used: int, i: nat, lastspace: int, lastc: char): int
    requires i <= |s|
    decreases |s| - i
  {
    if i == |s| || (lastspace != -1 && used + i > LINE_LIMIT) then lastspace
    else ScanSpace(s, used, i + 1, if IsWsp(s[i]) && !IsWsp(lastc) then i else lastspace, s[i])
  }

  /** What the scan has established after looking at the characters before `i`. */
  predicate ScanState(s: string, used: int, i: nat, lastspace: int, lastc: char, lastc0: char)
    requires i <= |s|
  {
    (if i == 0 then lastc == lastc0 else lastc == s[i - 1])
    && (lastspace == -1 ==> forall j :: 0 <= j < i ==> !EligibleAt(s, j, lastc0))
    && (lastspace != -1 ==>
          0 <= lastspace < i && EligibleAt(s, lastspace, lastc0)
          && (forall j :: lastspace < j < i ==> !EligibleAt(s, j, lastc0))
          && (used + lastspace > LINE_LIMIT ==> forall j :: 0 <= j < lastspace ==> !EligibleAt(s, j, lastc0)))
  }

  /** The scan ends on the last break point within the limit, or else on the first break point at all. */
  lemma {:induction false} ScanFindsFoldPoint(s: string, used: int, i: nat, lastspace: int, lastc: char, lastc0: char)
    requires i <= |s| && ScanState(s, used, i, lastspace, lastc, lastc0)
    ensures var r := ScanSpace(s, used, i, lastspace, lastc);
      && (r == -1 <==> forall j :: 0 <= j < |s| ==> !EligibleAt(s, j, lastc0))
      && (r != -1 ==> 0 <= r < |s| && EligibleAt(s, r, lastc0))
      && (r != -1 && used + r <= LINE_LIMIT ==>
            forall j :: r < j < |s| && used + j <= LINE_LIMIT ==> !EligibleAt(s, j, lastc0))
      && (r != -1 && used + r > LINE_LIMIT ==> forall j :: 0 <= j < r ==> !EligibleAt(s, j, lastc0))
    decreases |s| - i
  {
    if i == |s| || (lastspace != -1 && used + i > LINE_LIMIT) {
    } else {
      var next := if IsWsp(s[i]) && !IsWsp(lastc) then i else lastspace;
      assert IsWsp(s[i]) && !IsWsp(lastc) <==> EligibleAt(s, i, lastc0);
      ScanFindsFoldPoint(s, used, i + 1, next, s[i], lastc0);
    }
  }

  /**
   * Where a pass of `fold`'s loop breaks the line: the last break point
   * that keeps the line within 76 characters; if there is none, the first
   * break point after the over-long run; -1 if there is no break point.
   */
  function LastSpace(s: string, used: int, lastc: char): (r: int)
    ensures r == -1 <==> forall j :: 0 <= j < |s| ==> !EligibleAt(s, j, lastc)
    ensures r != -1 ==> 0 <= r < |s| && EligibleAt(s, r, lastc)
    ensures r != -1 && used + r <= LINE_LIMIT ==>
      forall j :: r < j < |s| && used + j <= LINE_LIMIT ==> !EligibleAt(s, j, lastc)
    ensures r != -1 && used + r > LINE_LIMIT ==> forall j :: 0 <= j < r ==> !EligibleAt(s, j, lastc)
  {
    ScanFindsFoldPoint(s, used, 0, -1, lastc, lastc);
    ScanSpace(s, used, 0, -1, lastc)
  }

  /** Cutting text around one character keeps every part free of line breaks. */
  lemma SplitAt(s: string, i: int)
    requires 0 <= i < |s|
    ensures s == s[..i] + [s[i]] + s[i + 1..]
    ensures NoLineBreak(s) ==> NoLineBreak(s[..i]) && NoLineBreak(s[i + 1..]) && !IsLineBreak(s[i])
  {
    assert s[i] in s;
    assert forall c :: c in s[..i] ==> c in s;
    assert forall c :: c in s[i + 1..] ==> c in s;
  }

  /**
   * The lines `fold`'s `while` loop produces, one per pass: while the rest
   * does not fit, the text before the break point ends a line and the next
   * line starts with the space or tab found there. `pending` is what the
   * current line already holds before `s`. Every pass consumes at least
   * one character, which is why the loop ends.
   */
  function FoldLines(used: int, s: string, lastc: char, pending: string): (r: seq<string>)
    ensures |r| > 0
    ensures Concat(r) == pending + s
    ensures ContinuedWithWsp(r)
    ensures NoLineBreak(pending) && NoLineBreak(s) ==> AllUnbroken(r)
    decreases |s|
  {
    if used + |s| <= LINE_LIMIT then [pending + s]
    else
      var ls := LastSpace(s, used, lastc);
      if ls == -1 then [pending + s]
      else
        SplitAt(s, ls);
        [pending + s[..ls]] + FoldLines(1, s[ls + 1..], s[ls], [s[ls]])
  }

  /**
   * `fold(used, s)`: the value without trailing whitespace and line
   * breaks, broken before spaces and tabs so that lines stay within 76
   * characters where possible, and made safe.
   */
  function Fold(used: int, s: string): (r: string)
    ensures SafeHeader(r)
    ensures NoLineBreak(s) && used + |StripFoldSpace(s)| <= LINE_LIMIT ==> r == StripFoldSpace(s)
  {
    var t := StripFoldSpace(s);
    assert NoLineBreak(s) ==> NoLineBreak(t) by {
      assert forall c :: c in t ==> c in s;
    }
    if used + |t| <= LINE_LIMIT then Makesafe(t)
    else Makesafe(Joined(FoldLines(used, t, '\U{0}', "")))
  }

  /** On text without line breaks, the loop only inserts CR LF before spaces and tabs that were already there. */
  lemma FoldOnlyInsertsBreaks(used: int, s: string, lastc: char)
    requires NoLineBreak(s)
    ensures var lines := FoldLines(used, s, lastc, "");
      && Concat(lines) == s
      && AllUnbroken(lines)
      && ContinuedWithWsp(lines)
      && SafeHeader(Joined(lines))
  {
    var lines := FoldLines(used, s, lastc, "");
    assert "" + s == s;
    SafeJoined(lines);
  }

  // ---------------------------------------------------------------------
  // unfold

  /**
   * `unfold(s)`: a line break (CR LF, CR or LF) after a backslash keeps
   * the break and loses the backslash; one followed by a space or a tab,
   * or at the end, is removed; any other is kept.
   */
  function Unfold(s: string): (r: string)
    ensures NoLineBreak(s) ==> r == s
    ensures |r| <= |s|
    decreases |s|
  {
    var start := MimeUtility.IndexOfAny(s, "\r\n");
    if start == -1 then s
    else
      assert s[start] in s;
      var i := BreakEnd(s, start);
      if start > 0 && s[start - 1] == '\\' then s[..start - 1] + s[start..i] + Unfold(s[i..])
      else if i >= |s| || IsWsp(s[i]) then s[..start] + Unfold(s[i..])
      else s[..i] + Unfold(s[i..])
  }

  /** A line break ends a line: CR LF, LF, or a CR not followed by LF. */
  predicate IsTerminator(brk: string, after: string) {
    brk == "\r\n" || brk == "\n" || (brk == "\r" && (|after| == 0 || after[0] != '\n'))
  }

  /** Where `unfold` finds the first line break of `a + brk + b`, and where that break ends. */
  lemma BreakSplit(a: string, brk: string, b: string)
    requires NoLineBreak(a) && IsTerminator(brk, b)
    ensures var x := a + brk + b;
      && MimeUtility.IndexOfAny(x, "\r\n") == |a|
      && BreakEnd(x, |a|) == |a| + |brk|
      && x[..|a|] == a && x[|a|..|a| + |brk|] == brk && x[|a| + |brk|..] == b
  {
    var x := a + (brk + b);
    assert a + brk + b == x;
    BreakAfter(a, brk + b);
    assert x[|a|..] == brk + b;
    assert x[|a|..|a| + |brk|] == brk && x[|a| + |brk|..] == b;
  }

  /** A line break after a backslash stays, and the backslash goes. */
  lemma UnfoldEscapedBreak(a: string, brk: string, b: string)
    requires NoLineBreak(a) && IsTerminator(brk, b)
    requires |a| > 0 && a[|a| - 1] == '\\'
    ensures Unfold(a + brk + b) == a[..|a| - 1] + brk + Unfold(b)
  {
    BreakSplit(a, brk, b);
    var x := a + brk + b;
    assert x[|a| - 1] == a[|a| - 1];
    assert x[..|a| - 1] == a[..|a| - 1];
  }

  /** A line break followed by a space or a tab, or at the end, is removed. */
  lemma UnfoldFoldedBreak(a: string, brk: string, b: string)
    requires NoLineBreak(a) && IsTerminator(brk, b)
    requires |a| == 0 || a[|a| - 1] != '\\'
    requires |b| == 0 || IsWsp(b[0])
    ensures Unfold(a + brk + b) == a + Unfold(b)
  {
    BreakSplit(a, brk, b);
    var x := a + brk + b;
    assert |a| > 0 ==> x[|a| - 1] == a[|a| - 1];
    assert |b| > 0 ==> x[|a| + |brk|] == b[0];
  }

  /** Any other line break is kept. */
  lemma UnfoldKeptBreak(a: string, brk: string, b: string)
    requires NoLineBreak(a) && IsTerminator(brk, b)
    requires |a| == 0 || a[|a| - 1] != '\\'
    requires |b| > 0 && !IsWsp(b[0])
    ensures Unfold(a + brk + b) == a + brk + Unfold(b)
  {
    BreakSplit(a, brk, b);
    var x := a + brk + b;
    assert |a| > 0 ==> x[|a| - 1] == a[|a| - 1];
    assert x[|a| + |brk|] == b[0];
    assert x[..|a| + |brk|] == a + brk;
  }

  /** Unfolding joined lines, each later one starting with whitespace and none ending in a backslash, concatenates them. */
  lemma {:induction false} UnfoldJoined(lines: seq<string>)
    requires AllUnbroken(lines) && ContinuedWithWsp(lines)
    requires BreaksUnescaped(lines)
    ensures Unfold(Joined(lines)) == Concat(lines)
    decreases |lines|
  {
    if |lines| > 1 {
      var rest := lines[1..];
      var j := Joined(rest);
      assert j[0] == lines[1][0];
      UnfoldFoldedBreak(lines[0], "\r\n", j);
      assert forall k :: 0 <= k < |rest| ==> rest[k] == lines[k + 1];
      assert AllUnbroken(rest) && ContinuedWithWsp(rest) && BreaksUnescaped(rest);
      UnfoldJoined(rest);
    }
  }

  // ---------------------------------------------------------------------
  // fold, then unfold

  /** No backslash stands directly before a space or a tab. */
  predicate NoEscapedSpace(s: string) {
    forall k :: 0 <= k < |s| - 1 ==> !(s[k] == '\\' && IsWsp(s[k + 1]))
  }

  /** The only characters `String.trim` would remove are spaces and tabs. */
  predicate NoControl(s: string) {
    forall k :: 0 <= k < |s| ==> IsWsp(s[k]) || !IsTrimmed(s[k])
  }

  /** What `fold` needs of its stripped text for the round trip: the text ends in a visible character. */
  predicate FoldableRest(s: string, lastc: char) {
    NoControl(s) && NoEscapedSpace(s) && |s| > 0 && !IsWsp(s[|s| - 1]) && !EligibleAt(s, 0, lastc)
  }

  /** One pass of the loop on foldable text: the line it ends is visible and does not end in a backslash, and the rest is foldable. */
  lemma FoldPass(used: int, s: string, lastc: char, pending: string)
    requires FoldableRest(s, lastc)
    requires used + |s| > LINE_LIMIT && LastSpace(s, used, lastc) != -1
    ensures var ls := LastSpace(s, used, lastc); var line := pending + s[..ls];
      && 0 < ls < |s| - 1
      && !Blank(line) && EndsUnescaped(line)
      && FoldableRest(s[ls + 1..], s[ls])
  {
    var ls := LastSpace(s, used, lastc);
    var line := pending + s[..ls];
    var rest := s[ls + 1..];
    assert !IsWsp(s[|s| - 1]);
    assert line[|line| - 1] == s[ls - 1];
    assert line[|line| - 1] in line;
    assert IsWsp(s[ls - 1]) || !IsTrimmed(s[ls - 1]);
    assert forall k :: 0 <= k < |rest| ==> rest[k] == s[ls + 1 + k];
  }

  /** The lines of a fold of foldable text are all visible. */
  lemma {:induction false} FoldLinesVisible(used: int, s: string, lastc: char, pending: string)
    requires FoldableRest(s, lastc)
    ensures AllVisible(FoldLines(used, s, lastc, pending))
    decreases |s|
  {
    var r := FoldLines(used, s, lastc, pending);
    if used + |s| > LINE_LIMIT && LastSpace(s, used, lastc) != -1 {
      var ls := LastSpace(s, used, lastc);
      FoldPass(used, s, lastc, pending);
      FoldLinesVisible(1, s[ls + 1..], s[ls], [s[ls]]);
      assert r == [pending + s[..ls]] + FoldLines(1, s[ls + 1..], s[ls], [s[ls]]);
    } else {
      var last := s[|s| - 1];
      assert r == [pending + s];
      assert last in pending + s && !IsTrimmed(last);
    }
  }

  /** No line of a fold of foldable text that is followed by another ends in a backslash. */
  lemma {:induction false} FoldLinesUnescaped(used: int, s: string, lastc: char, pending: string)
    requires FoldableRest(s, lastc)
    ensures BreaksUnescaped(FoldLines(used, s, lastc, pending))
    decreases |s|
  {
    var r := FoldLines(used, s, lastc, pending);
    if used + |s| > LINE_LIMIT && LastSpace(s, used, lastc) != -1 {
      var ls := LastSpace(s, used, lastc);
      FoldPass(used, s, lastc, pending);
      FoldLinesUnescaped(1, s[ls + 1..], s[ls], [s[ls]]);
      assert r == [pending + s[..ls]] + FoldLines(1, s[ls + 1..], s[ls], [s[ls]]);
    }
  }

  /** Stripping keeps what the round trip needs of the text. */
  lemma StripFoldable(s: string)
    requires NoControl(s) && NoEscapedSpace(s)
    requires |s| == 0 || !IsWsp(s[0])
    ensures var t := StripFoldSpace(s);
      && NoLineBreak(t)
      && (|t| > 0 ==> FoldableRest(t, '\U{0}'))
  {
    var t := StripFoldSpace(s);
    assert forall k :: 0 <= k < |t| ==> t[k] == s[k];
    assert NoLineBreak(t) by {
      forall c | c in t ensures !IsLineBreak(c) {
        var k :| 0 <= k < |t| && t[k] == c;
        assert IsWsp(s[k]) || !IsTrimmed(s[k]);
      }
    }
  }

  /**
   * Unfolding a folded value gives back the value without its trailing
   * whitespace, provided the value has no control characters, does not
   * start with whitespace, and has no backslash before a space or a tab.
   */
  lemma UnfoldFold(used: int, s: string)
    requires NoControl(s) && NoEscapedSpace(s)
    requires |s| == 0 || !IsWsp(s[0])
    ensures Unfold(Fold(used, s)) == StripFoldSpace(s)
  {
    var t := StripFoldSpace(s);
    StripFoldable(s);
    if used + |t| > LINE_LIMIT && |t| > 0 {
      var lines := FoldLines(used, t, '\U{0}', "");
      assert NoLineBreak("");
      assert AllUnbroken(lines);
      FoldLinesVisible(used, t, '\U{0}', "");
      FoldLinesUnescaped(used, t, '\U{0}', "");
      MakesafeJoined(lines);
      UnfoldJoined(lines);
      assert "" + t == t;
    }
  }
}
