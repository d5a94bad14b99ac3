/**
 * What the RTF scanner guarantees: how groups scope their settings, which
 * control words write what, that a run of `\'XX` escapes is decoded as one
 * byte sequence, that a plain group yields its text without line breaks
 * and nothing after it, that the scan ends unless a negative `\ucN`
 * occurs, and that one such `\ucN` can keep it going for ever.
 */
module RtfConverterProperties {
  import opened Wrappers
  import opened JavaLang
  import opened Collaborators
  import ByteUtil
  import CharsetHelper
  import opened RtfConverter

  // ---------------------------------------------------------------------
  // Single steps

  /** A step on a character that is neither a brace nor a backslash: line breaks are skipped, anything else is written. */
  lemma StepOnText(rtf: string, s: Scanner, env: Collaborators)
    requires 0 <= s.pos < |rtf| && |s.stack| > 0
    requires rtf[s.pos] != '{' && rtf[s.pos] != '}' && rtf[s.pos] != '\\'
    ensures var c := rtf[s.pos];
      Step(rtf, s, env) == Next(s.(pos := s.pos + 1, out := if c == '\r' || c == '\n' then s.out else Append(s.out, [c], s.stack[0])))
  {
  }

  /** A step on a control word or symbol applies it with the position past its text. */
  lemma StepOnControl(rtf: string, s: Scanner, env: Collaborators, m: Match, number: Option<int>)
    requires 0 <= s.pos < |rtf| && |s.stack| > 0 && rtf[s.pos] == '\\' && !HexEscapeAt(rtf, s.pos)
    requires ControlAt(rtf, s.pos) == Some(m) && ControlNumber(m.control) == Ok(number)
    ensures Step(rtf, s, env) == ApplyControl(s.(pos := s.pos + m.length), ControlName(m.control), number, env)
  {
  }

  /** The loop goes on from the state a step leads to. */
  lemma RunOnNext(rtf: string, s: Scanner, env: Collaborators, fuel: nat, s': Scanner)
    requires 0 <= s.pos < |rtf| && fuel > 0 && Step(rtf, s, env) == Next(s')
    ensures Run(rtf, s, env, fuel) == Run(rtf, s', env, fuel - 1)
  {
  }

  /** The loop ends with the output a stopping step returns. */
  lemma RunOnStop(rtf: string, s: Scanner, env: Collaborators, fuel: nat, out: string)
    requires 0 <= s.pos < |rtf| && fuel > 0 && Step(rtf, s, env) == Stop(out)
    ensures Run(rtf, s, env, fuel) == Some(Ok(out))
  {
  }

  /** The name and the number text of a matched control word stand in the text right after the backslash. */
  lemma ControlWordText(rtf: string, i: nat)
    requires i < |rtf| && rtf[i] == '\\' && ControlAt(rtf, i).Some? && ControlAt(rtf, i).value.control.Word?
    ensures var c := ControlAt(rtf, i).value.control;
      OccursAt(rtf, "\\" + c.word, i) && OccursAt(rtf, c.number, i + 1 + |c.word|)
  {
    var c := ControlAt(rtf, i).value.control;
    var n := |c.word + c.number|;
    assert rtf[i + 1..i + 1 + n] == c.word + c.number;
    assert rtf[i + 1..i + 1 + |c.word|] == (c.word + c.number)[..|c.word|] == c.word;
    assert rtf[i + 1 + |c.word|..i + 1 + n] == (c.word + c.number)[|c.word|..] == c.number;
    assert rtf[i..i + 1 + |c.word|] == [rtf[i]] + rtf[i + 1..i + 1 + |c.word|];
  }

  // ---------------------------------------------------------------------
  // Groups

  /**
   * `{` pushes a copy of the current group and `}` pops it; every other
   * step changes at most the current group. Settings made inside a group
   * therefore vanish at its closing brace.
   */
  lemma StepScopesGroups(rtf: string, s: Scanner, env: Collaborators)
    requires 0 <= s.pos < |rtf| && |s.stack| > 0
    ensures var r := Step(rtf, s, env);
      r.Next? ==>
        (if rtf[s.pos] == '{' then r.scanner.stack == [s.stack[0]] + s.stack
         else if rtf[s.pos] == '}' then r.scanner.stack == s.stack[1..]
         else |r.scanner.stack| == |s.stack| && r.scanner.stack[1..] == s.stack[1..])
  {
  }

  /** The charset belongs to the whole document: only `\ansicpg` changes it, and closing a group keeps it. */
  lemma CharsetIsGlobal(rtf: string, s: Scanner, env: Collaborators)
    requires 0 <= s.pos < |rtf| && |s.stack| > 0
    ensures Step(rtf, s, env).Next? && Step(rtf, s, env).scanner.charset != s.charset ==> OccursAt(rtf, "\\ansicpg", s.pos)
  {
    CharsetChangeAtControl(rtf, s, env);
    if Step(rtf, s, env).Next? && Step(rtf, s, env).scanner.charset != s.charset {
      var m := ChangedByAnsicpg(rtf, s, env);
      ControlWordText(rtf, s.pos);
      assert "\\" + m.control.word == "\\ansicpg";
    }
  }

  /** Away from a control word or symbol, a step keeps the charset. */
  lemma CharsetChangeAtControl(rtf: string, s: Scanner, env: Collaborators)
    requires 0 <= s.pos < |rtf| && |s.stack| > 0
    ensures Step(rtf, s, env).Next? && Step(rtf, s, env).scanner.charset != s.charset ==>
      rtf[s.pos] == '\\' && !HexEscapeAt(rtf, s.pos)
  {
  }

  /** A control word or symbol that changes the charset is `\ansicpg`. */
  lemma ChangedByAnsicpg(rtf: string, s: Scanner, env: Collaborators) returns (m: Match)
    requires 0 <= s.pos < |rtf| && |s.stack| > 0 && rtf[s.pos] == '\\' && !HexEscapeAt(rtf, s.pos)
    requires Step(rtf, s, env).Next? && Step(rtf, s, env).scanner.charset != s.charset
    ensures ControlAt(rtf, s.pos) == Some(m) && m.control.Word? && m.control.word == "ansicpg"
  {
    m := ControlAt(rtf, s.pos).value;
    var number := ControlNumber(m.control).value;
    StepOnControl(rtf, s, env, m, number);
  }

  /** A `}` that leaves more than one group on the stack goes on; the one that leaves exactly one ends the scan with the output so far. */
  lemma ClosingBrace(rtf: string, s: Scanner, env: Collaborators)
    requires 0 <= s.pos < |rtf| && rtf[s.pos] == '}' && |s.stack| > 0
    ensures |s.stack| == 2 ==> Step(rtf, s, env) == Stop(s.out)
    ensures |s.stack| != 2 ==> Step(rtf, s, env) == Next(s.(pos := s.pos + 1, stack := s.stack[1..]))
  {
  }

  /** The loop ran out of budget, threw, or returned exactly `out`. */
  predicate Quiet(r: Option<Result<string, Exception>>, out: string) {
    r.None? || r.value.Err? || r.value == Ok(out)
  }

  /** Equal results with equal outputs are equally quiet. */
  lemma QuietChain(r: Option<Result<string, Exception>>, r': Option<Result<string, Exception>>, out': string, out: string)
    requires r == r' && out' == out && Quiet(r', out')
    ensures Quiet(r, out)
  {
  }

  /**
   * With the current group ignoring its text, a document without closing
   * braces adds nothing more to the output, whatever control words follow.
   */
  lemma {:induction false} IgnoredTextEmitsNothing(rtf: string, s: Scanner, env: Collaborators, fuel: nat)
    requires |s.stack| > 0 && s.stack[0].ignore
    requires '}' !in rtf
    ensures Quiet(Run(rtf, s, env, fuel), s.out)
    decreases fuel
  {
    if 0 <= s.pos < |rtf| && fuel > 0 {
      var next := IgnoredStep(rtf, s, env, fuel);
      if next.Some? {
        IgnoredTextEmitsNothing(rtf, next.value, env, fuel - 1);
        QuietChain(Run(rtf, s, env, fuel), Run(rtf, next.value, env, fuel - 1), next.value.out, s.out);
      }
    } else if s.pos < 0 && fuel > 0 {
      RunAtNegative(rtf, s, env, fuel);
    } else {
      RunOutOfSteps(rtf, s, env, fuel);
    }
  }

  /** The loop returns the output so far at the end of the text, and runs out when the budget is spent before it. */
  lemma RunOutOfSteps(rtf: string, s: Scanner, env: Collaborators, fuel: nat)
    requires s.pos >= |rtf| || fuel == 0
    ensures Run(rtf, s, env, fuel) == if s.pos >= |rtf| then Some(Ok(s.out)) else None
  {
  }

  /** A negative position makes reading the character throw, before anything else happens. */
  lemma RunAtNegative(rtf: string, s: Scanner, env: Collaborators, fuel: nat)
    requires s.pos < 0 && fuel > 0
    ensures Run(rtf, s, env, fuel) == Some(Err(StringIndexOutOfBounds))
  {
  }

  /** One step of an ignoring group away from `}`: the loop throws, or goes on from a state that still ignores and has written nothing. */
  lemma IgnoredStep(rtf: string, s: Scanner, env: Collaborators, fuel: nat) returns (next: Option<Scanner>)
    requires 0 <= s.pos < |rtf| && fuel > 0 && rtf[s.pos] != '}'
    requires |s.stack| > 0 && s.stack[0].ignore
    ensures next.None? ==> Run(rtf, s, env, fuel).Some? && Run(rtf, s, env, fuel).value.Err?
    ensures next.Some? ==>
      && Run(rtf, s, env, fuel) == Run(rtf, next.value, env, fuel - 1)
      && next.value.out == s.out && |next.value.stack| > 0 && next.value.stack[0].ignore
  {
    var r := Step(rtf, s, env);
    if r.Next? {
      IgnoreSurvivesStep(rtf, s, env);
      RunOnNext(rtf, s, env, fuel, r.scanner);
      next := Some(r.scanner);
    } else {
      next := None;
    }
  }

  /** Away from a `}`, a step keeps an ignoring current group ignoring. */
  lemma IgnoreSurvivesStep(rtf: string, s: Scanner, env: Collaborators)
    requires 0 <= s.pos < |rtf| && rtf[s.pos] != '}' && |s.stack| > 0 && s.stack[0].ignore
    requires Step(rtf, s, env).Next?
    ensures |Step(rtf, s, env).scanner.stack| > 0 && Step(rtf, s, env).scanner.stack[0].ignore
  {
    if rtf[s.pos] == '\\' && !HexEscapeAt(rtf, s.pos) {
      var m := ControlAt(rtf, s.pos).value;
      var number := ControlNumber(m.control).value;
      StepOnControl(rtf, s, env, m, number);
      ControlKeepsIgnore(s.(pos := s.pos + m.length), ControlName(m.control), number, env);
    }
  }

  lemma ControlKeepsIgnore(s: Scanner, name: string, number: Option<int>, env: Collaborators)
    requires |s.stack| > 0 && s.stack[0].ignore
    requires ApplyControl(s, name, number, env).Next?
    ensures ApplyControl(s, name, number, env).scanner.stack[0].ignore
  {
  }

  // ---------------------------------------------------------------------
  // Plain text

  /** Text without braces or backslashes. */
  predicate PlainText(t: string) {
    forall i :: 0 <= i < |t| ==> t[i] != '{' && t[i] != '}' && t[i] != '\\'
  }

  const LINE_BREAKS: set<char> := {'\r', '\n'}

  /**
   * A document that is one group of plain text yields that text without
   * its CR and LF characters, and nothing of what follows the group.
   */
  lemma PlainGroup(t: string, rest: string, env: Collaborators)
    requires PlainText(t)
    ensures Rtf2Html("{" + t + "}" + rest, env, |t| + 2) == Some(Ok(RemoveChars(t, LINE_BREAKS)))
  {
    GroupLayout(t, rest);
    PlainFromStart("{" + t + "}" + rest, t, env);
  }

  /** Where the braces and the text of a one-group document stand. */
  lemma GroupLayout(t: string, rest: string)
    ensures var rtf := "{" + t + "}" + rest;
      |rtf| > |t| + 1 && rtf[0] == '{' && rtf[1 + |t|] == '}' && forall j :: 0 <= j < |t| ==> rtf[1 + j] == t[j]
  {
    var open := "{" + t;
    var rtf := open + "}" + rest;
    forall j | 0 <= j < |t| ensures rtf[1 + j] == t[j] {
      assert rtf[1 + j] == open[1 + j];
    }
  }

  lemma PlainFromStart(rtf: string, t: string, env: Collaborators)
    requires PlainText(t)
    requires |rtf| > |t| + 1 && rtf[0] == '{' && rtf[1 + |t|] == '}' && forall j :: 0 <= j < |t| ==> rtf[1 + j] == t[j]
    ensures Run(rtf, INITIAL, env, |t| + 2) == Some(Ok(RemoveChars(t, LINE_BREAKS)))
  {
    var s1 := INITIAL.(pos := 1, stack := [DEFAULT_GROUP, DEFAULT_GROUP]);
    OpeningBrace(rtf, INITIAL, env);
    RunOnNext(rtf, INITIAL, env, |t| + 2, s1);
    PlainRun(rtf, t, 0, s1, env, |t| + 1);
    assert t[0..] == t;
    assert "" + RemoveChars(t, LINE_BREAKS) == RemoveChars(t, LINE_BREAKS);
  }

  /** `{` pushes a copy of the current group. */
  lemma OpeningBrace(rtf: string, s: Scanner, env: Collaborators)
    requires 0 <= s.pos < |rtf| && rtf[s.pos] == '{' && |s.stack| > 0
    ensures Step(rtf, s, env) == Next(s.(pos := s.pos + 1, stack := [s.stack[0]] + s.stack))
  {
  }

  /** Removing characters works from the front. */
  lemma RemoveCharsCons(u: string, cs: set<char>)
    requires |u| > 0
    ensures RemoveChars(u, cs) == (if u[0] in cs then "" else [u[0]]) + RemoveChars(u[1..], cs)
  {
  }

  lemma {:induction false} PlainRun(rtf: string, t: string, k: nat, s: Scanner, env: Collaborators, fuel: nat)
    requires PlainText(t) && k <= |t|
    requires |rtf| > |t| + 1 && rtf[1 + |t|] == '}' && forall j :: 0 <= j < |t| ==> rtf[1 + j] == t[j]
    requires s.pos == 1 + k && |s.stack| == 2 && !Suppressed(s.stack[0])
    requires fuel >= |t| - k + 1
    ensures Run(rtf, s, env, fuel) == Some(Ok(s.out + RemoveChars(t[k..], LINE_BREAKS)))
    decreases |t| - k
  {
    if k == |t| {
      PlainEnd(rtf, t, s, env, fuel);
    } else {
      var s' := s.(pos := s.pos + 1, out := s.out + (if t[k] in LINE_BREAKS then "" else [t[k]]));
      PlainRun(rtf, t, k + 1, s', env, fuel - 1);
      PlainAdvance(rtf, t, k, s, env, fuel);
    }
  }

  /** One plain character is emitted unless it is a line break, and the scan goes on after it. */
  lemma PlainAdvance(rtf: string, t: string, k: nat, s: Scanner, env: Collaborators, fuel: nat)
    requires PlainText(t) && k < |t| && fuel > 0
    requires |rtf| > |t| + 1 && forall j :: 0 <= j < |t| ==> rtf[1 + j] == t[j]
    requires s.pos == 1 + k && |s.stack| == 2 && !Suppressed(s.stack[0])
    ensures var s' := s.(pos := s.pos + 1, out := s.out + (if t[k] in LINE_BREAKS then "" else [t[k]]));
      Run(rtf, s', env, fuel - 1) == Some(Ok(s'.out + RemoveChars(t[k + 1..], LINE_BREAKS))) ==>
      Run(rtf, s, env, fuel) == Some(Ok(s.out + RemoveChars(t[k..], LINE_BREAKS)))
  {
    PlainStep(rtf, t, k, s, env, fuel);
    RemoveOneMore(s.out, t, k);
  }

  lemma RemoveOneMore(out: string, t: string, k: nat)
    requires k < |t|
    ensures out + (if t[k] in LINE_BREAKS then "" else [t[k]]) + RemoveChars(t[k + 1..], LINE_BREAKS) == out + RemoveChars(t[k..], LINE_BREAKS)
  {
    RemoveCharsCons(t[k..], LINE_BREAKS);
    assert t[k..][0] == t[k] && t[k..][1..] == t[k + 1..];
  }

  lemma PlainEnd(rtf: string, t: string, s: Scanner, env: Collaborators, fuel: nat)
    requires |rtf| > |t| + 1 && rtf[1 + |t|] == '}'
    requires s.pos == 1 + |t| && |s.stack| == 2 && fuel > 0
    ensures Run(rtf, s, env, fuel) == Some(Ok(s.out + RemoveChars(t[|t|..], LINE_BREAKS)))
  {
    assert Step(rtf, s, env) == Stop(s.out);
    RunOnStop(rtf, s, env, fuel, s.out);
    assert t[|t|..] == [];
    assert RemoveChars(t[|t|..], LINE_BREAKS) == "";
    assert s.out + RemoveChars(t[|t|..], LINE_BREAKS) == s.out;
  }

  lemma PlainStep(rtf: string, t: string, k: nat, s: Scanner, env: Collaborators, fuel: nat)
    requires PlainText(t) && k < |t| && fuel > 0
    requires |rtf| > |t| + 1 && forall j :: 0 <= j < |t| ==> rtf[1 + j] == t[j]
    requires s.pos == 1 + k && |s.stack| > 0 && !Suppressed(s.stack[0])
    ensures Run(rtf, s, env, fuel)
      == Run(rtf, s.(pos := s.pos + 1, out := s.out + (if t[k] in LINE_BREAKS then "" else [t[k]])), env, fuel - 1)
  {
    assert rtf[s.pos] == t[k];
    StepOnText(rtf, s, env);
    RunOnNext(rtf, s, env, fuel, s.(pos := s.pos + 1, out := s.out + (if t[k] in LINE_BREAKS then "" else [t[k]])));
  }

  // ---------------------------------------------------------------------
  // Escaped bytes

  /** The bytes of the run of `\'XX` escapes at `i`, one per escape. */
  function EscapeBytes(rtf: string, i: nat): (bs: seq<uint8>)
    requires i <= |rtf|
    decreases |rtf| - i
  {
    if HexEscapeAt(rtf, i) then [ByteUtil.HexPair(rtf[i + 2], rtf[i + 3])] + EscapeBytes(rtf, i + 4) else []
  }

  lemma {:induction false} EscapeRunBytes(rtf: string, i: nat)
    requires i <= |rtf|
    ensures |EscapeRun(rtf, i)| == 2 * |EscapeBytes(rtf, i)|
    ensures ByteUtil.HexStringToByteArray(EscapeRun(rtf, i)) == Ok(EscapeBytes(rtf, i))
    decreases |rtf| - i
  {
    if HexEscapeAt(rtf, i) {
      EscapeRunBytes(rtf, i + 4);
      var hex := EscapeRun(rtf, i);
      assert hex[2..] == EscapeRun(rtf, i + 4);
    }
  }

  /**
   * A maximal run of `\'XX` escapes is decoded in the current charset as
   * one byte sequence, one byte per escape, and four characters are
   * consumed per escape.
   */
  lemma HexRunDecodedAsOne(rtf: string, s: Scanner, env: Collaborators)
    requires 0 <= s.pos && |s.stack| > 0 && HexEscapeAt(rtf, s.pos)
    ensures var bs := EscapeBytes(rtf, s.pos);
      |bs| >= 1 && !HexEscapeAt(rtf, s.pos + 4 * |bs|)
      && Step(rtf, s, env) == Next(s.(pos := s.pos + 4 * |bs|, out := Append(s.out, env.decode(s.charset, bs), s.stack[0])))
  {
    EscapeRunBytes(rtf, s.pos);
  }

  // ---------------------------------------------------------------------
  // Control words

  /** Letters only, at least one: the name of a control word. */
  predicate IsWord(w: string) {
    |w| > 0 && forall i :: 0 <= i < |w| ==> IsLetter(w[i])
  }

  /** An optional `-` and then decimal digits, at least one when the `-` is there. */
  predicate NumberShaped(t: string) {
    (forall i :: 0 < i < |t| ==> IsDecimal(t[i]))
    && (|t| > 0 ==> IsDecimal(t[0]) || t[0] == '-')
    && (|t| > 0 && t[0] == '-' ==> |t| > 1)
  }

  /** The text of an optional number: `Integer.toString`, or nothing. */
  function NumberText(number: Option<int>): string {
    match number
    case None => ""
    case Some(n) => IntToString(n)
  }

  /** A control word as a writer spells it: backslash, name, number text and the delimiting space. */
  function Written(w: string, t: string): (r: string)
    ensures |r| == |w| + |t| + 2
  {
    "\\" + w + t + " "
  }

  /** The text of a number is shaped as the pattern expects. */
  lemma NumberTextShape(number: Option<int>)
    ensures NumberShaped(NumberText(number))
  {
    if number.Some? {
      var n := number.value;
      var t := IntToString(n);
      if n < 0 {
        var d := NatToDigits(-n, 10, false);
        assert t == "-" + d;
        forall i | 0 < i < |t| ensures IsDecimal(t[i]) {
          assert t[i] == d[i - 1];
          assert Digit(d[i - 1], 10) >= 0;
        }
      } else {
        forall i | 0 <= i < |t| ensures IsDecimal(t[i]) {
          assert Digit(t[i], 10) >= 0;
        }
      }
    }
  }

  /** The number text of a 32-bit number reads back as that number; no text reads as no number. */
  lemma NumberRoundTrip(w: string, number: Option<int>)
    requires number.Some? ==> IsInt32(number.value)
    ensures ControlNumber(Word(w, NumberText(number))) == Ok(number)
  {
    if number.Some? {
      NumberTextShape(number);
      ParseIntToString(number.value);
      ValueOfNumberText(w, NumberText(number));
    }
  }

  /** A digit string, with or without a leading `-`, read from the right: its value, negated after the `-`. */
  lemma {:induction false} SignedValueOfDigits(t: string)
    requires |t| > 0 && AllDigits(t, 10)
    ensures SignedValue(t) == Some(DigitsValue(t, 10))
    ensures SignedValue("-" + t) == Some(-(DigitsValue(t, 10) as int))
    decreases |t|
  {
    var front := t[..|t| - 1];
    var u := "-" + t;
    assert u[|u| - 1] == t[|t| - 1];
    assert u[..|u| - 1] == "-" + front;
    if |front| > 0 {
      assert AllDigits(front, 10) by {
        assert forall k :: 0 <= k < |front| ==> front[k] == t[k];
      }
      SignedValueOfDigits(front);
    }
  }

  /** A text `-?[0-9]*` as the control pattern captures it. */
  predicate PatternNumber(t: string) {
    (forall k :: 0 < k < |t| ==> IsDecimal(t[k])) && (|t| > 0 ==> IsDecimal(t[0]) || t[0] == '-')
  }

  /** On every text the pattern captures, the number of a control word is what `Integer.valueOf` makes of it. */
  lemma ValueOfNumberText(w: string, t: string)
    requires PatternNumber(t) && |t| > 0
    ensures ControlNumber(Word(w, t)) == match ParseInt(t, 10) case None => Err(NumberFormat) case Some(n) => Ok(Some(n))
  {
    if t[0] == '-' {
      var digits := t[1..];
      assert t == "-" + digits;
      if |digits| > 0 {
        assert AllDigits(digits, 10) by {
          assert forall k :: 0 <= k < |digits| ==> digits[k] == t[k + 1];
        }
        SignedValueOfDigits(digits);
      }
    } else {
      SignedValueOfDigits(t);
    }
  }

  /** The number text a control word scan captures has the shape `-?[0-9]*`. */
  lemma {:induction false} WordAtNumber(rtf: string, i: nat, j: nat)
    requires i + 1 < j <= |rtf|
    ensures PatternNumber(WordAt(rtf, i, j).control.number)
    decreases |rtf| - j
  {
    if j < |rtf| && IsLetter(rtf[j]) {
      WordAtNumber(rtf, i, j + 1);
    } else {
      var t := WordAt(rtf, i, j).control.number;
      var d0 := if j < |rtf| && rtf[j] == '-' then j + 1 else j;
      assert t == rtf[j..DigitsEnd(rtf, d0)];
      assert forall k :: 0 <= k < |t| ==> t[k] == rtf[j + k];
    }
  }

  /** Every number a matched control word carries is what `Integer.valueOf` makes of its text. */
  lemma MatchedNumberIsValueOf(rtf: string, i: nat)
    requires i < |rtf| && rtf[i] == '\\' && ControlAt(rtf, i).Some?
    ensures var c := ControlAt(rtf, i).value.control;
      c.Word? && c.number != "" ==>
        ControlNumber(c) == match ParseInt(c.number, 10) case None => Err(NumberFormat) case Some(n) => Ok(Some(n))
  {
    var c := ControlAt(rtf, i).value.control;
    if c.Word? && c.number != "" {
      WordAtNumber(rtf, i, i + 2);
      ValueOfNumberText(c.word, c.number);
    }
  }

  /** The scan of a control word skips the rest of a run of letters that a non-letter or the end follows. */
  lemma {:induction false} LettersScanned(rtf: string, i: nat, j: nat, b: nat)
    requires i + 1 < j <= b <= |rtf| && (forall k :: j <= k < b ==> IsLetter(rtf[k]))
    ensures WordAt(rtf, i, j) == WordAt(rtf, i, b)
    decreases b - j
  {
    if j < b {
      LettersScanned(rtf, i, j + 1, b);
    }
  }

  /** Where a run of digits that a non-digit or the end follows stops. */
  lemma DigitsEndAt(rtf: string, a: nat, b: nat)
    requires a <= b <= |rtf| && (forall k :: a <= k < b ==> IsDecimal(rtf[k])) && (b < |rtf| ==> !IsDecimal(rtf[b]))
    ensures DigitsEnd(rtf, a) == b
  {
  }

  /** The parts of a written control word as they stand in the text. */
  lemma WrittenParts(rtf: string, i: nat, w: string, t: string)
    requires OccursAt(rtf, Written(w, t), i)
    ensures var we := i + 1 + |w|; var de := we + |t|;
      de < |rtf| && rtf[i] == '\\' && rtf[de] == ' ' && rtf[i + 1..we] == w && rtf[we..de] == t
  {
    var W := Written(w, t);
    var we := i + 1 + |w|;
    var de := we + |t|;
    var found := rtf[i..i + |W|];
    assert found == W;
    assert W == ("\\" + w) + t + " ";
    assert forall k :: 0 <= k < |w| ==> W[1 + k] == w[k];
    assert forall k :: 0 <= k < |t| ==> W[1 + |w| + k] == t[k];
    assert W[1..1 + |w|] == w by {
      assert forall k :: 0 <= k < |w| ==> W[1..1 + |w|][k] == w[k];
    }
    assert W[1 + |w|..1 + |w| + |t|] == t by {
      assert forall k :: 0 <= k < |t| ==> W[1 + |w|..1 + |w| + |t|][k] == t[k];
    }
    assert rtf[i + 1..we] == found[1..1 + |w|];
    assert rtf[we..de] == found[1 + |w|..1 + |w| + |t|];
    assert rtf[i] == found[0];
    assert rtf[de] == found[|W| - 1];
  }

  /** The letters of a name as they stand in the text. */
  lemma WordLetters(rtf: string, a: nat, w: string)
    requires IsWord(w) && a + |w| <= |rtf| && rtf[a..a + |w|] == w
    ensures rtf[a] == w[0] && forall k :: a <= k < a + |w| ==> IsLetter(rtf[k])
  {
    forall k | a <= k < a + |w| ensures IsLetter(rtf[k]) {
      assert rtf[k] == rtf[a..a + |w|][k - a];
    }
    assert rtf[a] == rtf[a..a + |w|][0];
  }

  /** Where the pattern's digit run stops in a number text followed by a space. */
  lemma NumberDigits(rtf: string, a: nat, t: string)
    requires NumberShaped(t) && a + |t| < |rtf| && rtf[a..a + |t|] == t && rtf[a + |t|] == ' '
    ensures rtf[a] == '-' <==> |t| > 0 && t[0] == '-'
    ensures !IsLetter(rtf[a])
    ensures DigitsEnd(rtf, if rtf[a] == '-' then a + 1 else a) == a + |t|
  {
    var de := a + |t|;
    assert |t| > 0 ==> rtf[a] == rtf[a..de][0];
    var d0 := if rtf[a] == '-' then a + 1 else a;
    forall k | d0 <= k < de ensures IsDecimal(rtf[k]) {
      assert rtf[k] == rtf[a..de][k - a];
    }
    DigitsEndAt(rtf, d0, de);
  }

  /** A name, a number text and a space after a backslash match as exactly that control word. */
  lemma ControlAtWord(rtf: string, i: nat, w: string, t: string)
    requires IsWord(w) && NumberShaped(t)
    requires i + 1 + |w| + |t| < |rtf| && rtf[i + 1..i + 1 + |w|] == w && rtf[i + 1 + |w|..i + 1 + |w| + |t|] == t
    requires rtf[i] == '\\' && rtf[i + 1 + |w| + |t|] == ' '
    ensures ControlAt(rtf, i) == Some(Match(Word(w, t), |w| + |t| + 2))
  {
    var we := i + 1 + |w|;
    WordLetters(rtf, i + 1, w);
    NumberDigits(rtf, we, t);
    ControlAtScans(rtf, i, we, we + |t|);
  }

  /** A backslash, a run of letters, the pattern's number text and a space match as a control word. */
  lemma ControlAtScans(rtf: string, i: nat, we: nat, de: nat)
    requires i + 1 < we <= de < |rtf| && rtf[i] == '\\' && IsLetter(rtf[i + 1]) && !IsLetter(rtf[we])
    requires forall k :: i + 1 <= k < we ==> IsLetter(rtf[k])
    requires DigitsEnd(rtf, if rtf[we] == '-' then we + 1 else we) == de && rtf[de] == ' '
    ensures ControlAt(rtf, i) == Some(Match(Word(rtf[i + 1..we], rtf[we..de]), de + 1 - i))
  {
    LettersScanned(rtf, i, i + 2, we);
    WordAtStops(rtf, i, we, de);
  }

  /** Where the letters stop, the scan takes the number text up to the digits' end and the space after it. */
  lemma WordAtStops(rtf: string, i: nat, j: nat, d: nat)
    requires i + 1 < j < |rtf| && !IsLetter(rtf[j])
    requires DigitsEnd(rtf, if rtf[j] == '-' then j + 1 else j) == d && d < |rtf| && rtf[d] == ' '
    ensures WordAt(rtf, i, j) == Match(Word(rtf[i + 1..j], rtf[j..d]), d + 1 - i)
  {
  }

  /** A written control word is matched back as the same name and number, covering exactly its text. */
  lemma ControlWordRoundTrip(rtf: string, i: nat, w: string, number: Option<int>)
    requires IsWord(w) && (number.Some? ==> IsInt32(number.value))
    requires OccursAt(rtf, Written(w, NumberText(number)), i)
    ensures ControlAt(rtf, i) == Some(Match(Word(w, NumberText(number)), |Written(w, NumberText(number))|))
    ensures ControlNumber(Word(w, NumberText(number))) == Ok(number)
  {
    var t := NumberText(number);
    NumberTextShape(number);
    WrittenMatches(rtf, i, w, t);
    NumberRoundTrip(w, number);
  }

  /**
   * Stepping onto a control word, written with a number text that
   * `Integer.valueOf` reads as `number`, applies that word with that
   * number, the position just past it.
   */
  lemma WrittenWordStep(rtf: string, s: Scanner, w: string, t: string, number: Option<int>, env: Collaborators)
    requires IsWord(w) && NumberShaped(t) && ControlNumber(Word(w, t)) == Ok(number)
    requires OccursAt(rtf, Written(w, t), s.pos) && |s.stack| > 0
    ensures Step(rtf, s, env) == ApplyControl(s.(pos := s.pos + |w| + |t| + 2), w, number, env)
  {
    WrittenMatches(rtf, s.pos, w, t);
    StepOnControl(rtf, s, env, Match(Word(w, t), |w| + |t| + 2), number);
  }

  /** A written control word is no hex escape and matches as itself. */
  lemma WrittenMatches(rtf: string, i: nat, w: string, t: string)
    requires IsWord(w) && NumberShaped(t) && OccursAt(rtf, Written(w, t), i)
    ensures i < |rtf| && rtf[i] == '\\' && !HexEscapeAt(rtf, i)
    ensures ControlAt(rtf, i) == Some(Match(Word(w, t), |w| + |t| + 2))
  {
    WrittenParts(rtf, i, w, t);
    assert rtf[i + 1] == rtf[i + 1..i + 1 + |w|][0] == w[0];
    ControlAtWord(rtf, i, w, t);
  }

  /** `\par` writes a line feed and `\tab` a tab character, unless output is suppressed. */
  lemma ParagraphAndTab(rtf: string, s: Scanner, env: Collaborators)
    requires |s.stack| > 0
    ensures OccursAt(rtf, "\\par ", s.pos) ==> Step(rtf, s, env) == Next(s.(pos := s.pos + 5, out := Append(s.out, "\n", s.stack[0])))
    ensures OccursAt(rtf, "\\tab ", s.pos) ==> Step(rtf, s, env) == Next(s.(pos := s.pos + 5, out := Append(s.out, "\t", s.stack[0])))
  {
    assert Written("par", "") == "\\par ";
    assert Written("tab", "") == "\\tab ";
    if OccursAt(rtf, "\\par ", s.pos) {
      WrittenWordStep(rtf, s, "par", "", None, env);
    }
    if OccursAt(rtf, "\\tab ", s.pos) {
      WrittenWordStep(rtf, s, "tab", "", None, env);
    }
  }

  /**
   * `\uN` writes the character `N` taken modulo 2^16 and then skips as many
   * raw characters as the current group's `\uc` count says.
   */
  lemma UnicodeCharacter(rtf: string, s: Scanner, t: string, n: int, env: Collaborators)
    requires NumberShaped(t) && ControlNumber(Word("u", t)) == Ok(Some(n))
    requires OccursAt(rtf, Written("u", t), s.pos) && |s.stack| > 0
    ensures Step(rtf, s, env)
      == Next(s.(pos := s.pos + |t| + 3 + s.stack[0].unicodeCharLength, out := Append(s.out, [JavaChar(n)], s.stack[0])))
  {
    WrittenWordStep(rtf, s, "u", t, Some(n), env);
  }

  /** `\ucN` sets the current group's skip count to `N`, and `\uc` without a number sets it to 1. */
  lemma SkipCount(rtf: string, s: Scanner, t: string, number: Option<int>, env: Collaborators)
    requires NumberShaped(t) && ControlNumber(Word("uc", t)) == Ok(number)
    requires OccursAt(rtf, Written("uc", t), s.pos) && |s.stack| > 0
    ensures var g := s.stack[0].(unicodeCharLength := if number.Some? then number.value else 1);
      Step(rtf, s, env) == Next(s.(pos := s.pos + |t| + 4, stack := [g] + s.stack[1..]))
  {
    WrittenWordStep(rtf, s, "uc", t, number, env);
  }

  /** `\htmlrtf` turns suppression on for the current group, and `\htmlrtf` with any number turns it off. */
  lemma HtmlRtfToggles(rtf: string, s: Scanner, t: string, number: Option<int>, env: Collaborators)
    requires NumberShaped(t) && ControlNumber(Word("htmlrtf", t)) == Ok(number)
    requires OccursAt(rtf, Written("htmlrtf", t), s.pos) && |s.stack| > 0
    ensures var g := s.stack[0].(htmlRtf := number.None?);
      Step(rtf, s, env) == Next(s.(pos := s.pos + |t| + 9, stack := [g] + s.stack[1..]))
  {
    WrittenWordStep(rtf, s, "htmlrtf", t, number, env);
  }

  /** `\fonttbl` and `\colortbl` make the current group ignore its text. */
  lemma TablesIgnored(rtf: string, s: Scanner, w: string, env: Collaborators)
    requires (w == "fonttbl" || w == "colortbl") && OccursAt(rtf, Written(w, ""), s.pos) && |s.stack| > 0
    ensures Step(rtf, s, env)
      == Next(s.(pos := s.pos + |w| + 2, stack := [s.stack[0].(ignore := true)] + s.stack[1..]))
  {
    WrittenWordStep(rtf, s, w, "", None, env);
  }

  /** `\ansicpgN` switches the charset to the one `findCharset` finds for `N`, or throws what it throws. */
  lemma AnsiCodePage(rtf: string, s: Scanner, t: string, number: Option<int>, env: Collaborators)
    requires NumberShaped(t) && ControlNumber(Word("ansicpg", t)) == Ok(number)
    requires OccursAt(rtf, Written("ansicpg", t), s.pos) && |s.stack| > 0
    ensures var r := Step(rtf, s, env);
      match CharsetHelper.FindCharset(number, env.forName)
      case Err(e) => r == Fail(e)
      case Ok(cs) => r == Next(s.(pos := s.pos + |t| + 9, charset := cs))
  {
    WrittenWordStep(rtf, s, "ansicpg", t, number, env);
  }

  /** Any other control word only moves past its text. */
  lemma OtherWordsSilent(rtf: string, s: Scanner, w: string, t: string, number: Option<int>, env: Collaborators)
    requires IsWord(w) && NumberShaped(t) && ControlNumber(Word(w, t)) == Ok(number)
    requires OccursAt(rtf, Written(w, t), s.pos) && |s.stack| > 0
    requires w !in {"par", "tab", "htmlrtf", "ansicpg", "fonttbl", "colortbl", "uc", "u"}
    ensures Step(rtf, s, env) == Next(s.(pos := s.pos + |w| + |t| + 2))
  {
    WrittenWordStep(rtf, s, w, t, number, env);
  }

  /**
   * `\{`, `\}` and `\\` write the brace or backslash itself; any other
   * control symbol except `\'` only moves past its two characters.
   */
  lemma ControlSymbols(rtf: string, s: Scanner, env: Collaborators)
    requires 0 <= s.pos && s.pos + 1 < |rtf| && rtf[s.pos] == '\\' && |s.stack| > 0
    requires !IsLetter(rtf[s.pos + 1]) && rtf[s.pos + 1] != '\''
    ensures var c := rtf[s.pos + 1];
      if c == '{' || c == '}' || c == '\\' then Step(rtf, s, env) == Next(s.(pos := s.pos + 2, out := Append(s.out, [c], s.stack[0])))
      else Step(rtf, s, env) == Next(s.(pos := s.pos + 2))
  {
    var c := rtf[s.pos + 1];
    StepOnControl(rtf, s, env, Match(Symbol(c), 2), None);
  }

  /** A backslash at the very end matches neither pattern and throws `IllegalStateException`. */
  lemma TrailingBackslash(rtf: string, s: Scanner, env: Collaborators)
    requires 0 <= s.pos && s.pos + 1 == |rtf| && rtf[s.pos] == '\\' && |s.stack| > 0
    ensures Step(rtf, s, env) == Fail(IllegalState)
  {
  }

  /** A number the pattern admits but `Integer.valueOf` rejects, a lone `-`, throws `NumberFormatException`. */
  lemma LoneMinusThrows(rtf: string, s: Scanner, w: string, env: Collaborators)
    requires IsWord(w) && OccursAt(rtf, "\\" + w + "-", s.pos) && |s.stack| > 0
    requires s.pos + |w| + 2 == |rtf| || !IsDecimal(rtf[s.pos + |w| + 2])
    ensures Step(rtf, s, env) == Fail(NumberFormat)
  {
    var m := LoneMinusMatch(rtf, s.pos, w);
    assert ControlNumber(m.control) == Err(NumberFormat);
  }

  /** The match of a control word whose number text is a lone `-`. */
  lemma LoneMinusMatch(rtf: string, i: nat, w: string) returns (m: Match)
    requires IsWord(w) && OccursAt(rtf, "\\" + w + "-", i)
    requires i + |w| + 2 == |rtf| || !IsDecimal(rtf[i + |w| + 2])
    ensures i < |rtf| && rtf[i] == '\\' && !HexEscapeAt(rtf, i)
    ensures ControlAt(rtf, i) == Some(m) && m.control == Word(w, "-")
  {
    var we := i + 1 + |w|;
    var found := rtf[i..we + 1];
    assert found == "\\" + w + "-";
    assert forall k :: 0 <= k < |w| ==> found[1 + k] == w[k];
    assert found[1..1 + |w|] == w by {
      assert forall k :: 0 <= k < |w| ==> found[1..1 + |w|][k] == w[k];
    }
    assert rtf[i + 1..we] == found[1..1 + |w|];
    assert rtf[i] == found[0] == '\\';
    assert rtf[we] == found[|w| + 1] == '-';
    forall k | i + 1 <= k < we ensures IsLetter(rtf[k]) {
      assert rtf[k] == rtf[i + 1..we][k - i - 1];
    }
    assert rtf[i + 1] == rtf[i + 1..we][0];
    LettersScanned(rtf, i, i + 2, we);
    DigitsEndAt(rtf, we + 1, we + 1);
    assert rtf[we..we + 1] == "-";
    m := Match(Word(w, "-"), if we + 1 < |rtf| && rtf[we + 1] == ' ' then |w| + 3 else |w| + 2);
  }

  // ---------------------------------------------------------------------
  // Termination

  /** Every group's skip count is at least zero. */
  predicate SkipsNonNegative(stack: seq<Group>) {
    forall k :: 0 <= k < |stack| ==> stack[k].unicodeCharLength >= 0
  }

  lemma ControlAdvances(s: Scanner, name: string, number: Option<int>, env: Collaborators)
    requires |s.stack| > 0 && SkipsNonNegative(s.stack)
    requires name == "uc" && number.Some? ==> number.value >= 0
    requires ApplyControl(s, name, number, env).Next?
    ensures ApplyControl(s, name, number, env).scanner.pos >= s.pos
    ensures SkipsNonNegative(ApplyControl(s, name, number, env).scanner.stack)
  {
    var r := ApplyControl(s, name, number, env).scanner;
    forall k | 0 <= k < |r.stack| ensures r.stack[k].unicodeCharLength >= 0 {
      if k > 0 {
        assert r.stack[k] == r.stack[1..][k - 1] == s.stack[1..][k - 1];
      }
    }
  }

  /** Without `\uc-` in the text, every step moves forward and keeps every skip count at least zero. */
  lemma StepAdvances(rtf: string, s: Scanner, env: Collaborators)
    requires 0 <= s.pos < |rtf| && SkipsNonNegative(s.stack) && !Contains(rtf, "\\uc-")
    requires Step(rtf, s, env).Next?
    ensures s.pos < Step(rtf, s, env).scanner.pos
    ensures SkipsNonNegative(Step(rtf, s, env).scanner.stack)
  {
    if rtf[s.pos] == '\\' && !HexEscapeAt(rtf, s.pos) {
      ControlStepAdvances(rtf, s, env);
    } else {
      OtherStepAdvances(rtf, s, env);
    }
  }

  /** A step on anything but a control word or symbol moves forward and copies or drops whole groups. */
  lemma OtherStepAdvances(rtf: string, s: Scanner, env: Collaborators)
    requires 0 <= s.pos < |rtf| && SkipsNonNegative(s.stack) && !(rtf[s.pos] == '\\' && !HexEscapeAt(rtf, s.pos))
    requires Step(rtf, s, env).Next?
    ensures s.pos < Step(rtf, s, env).scanner.pos
    ensures SkipsNonNegative(Step(rtf, s, env).scanner.stack)
  {
    var c := rtf[s.pos];
    if c == '{' {
      var st := Step(rtf, s, env).scanner.stack;
      assert forall k :: 1 <= k < |st| ==> st[k] == s.stack[k - 1];
    } else if c == '}' {
      var st := Step(rtf, s, env).scanner.stack;
      assert forall k :: 0 <= k < |st| ==> st[k] == s.stack[k + 1];
    }
  }

  /** Without `\uc-` in the text, a control word or symbol moves forward and keeps every skip count at least zero. */
  lemma ControlStepAdvances(rtf: string, s: Scanner, env: Collaborators)
    requires 0 <= s.pos < |rtf| && SkipsNonNegative(s.stack) && !Contains(rtf, "\\uc-")
    requires rtf[s.pos] == '\\' && !HexEscapeAt(rtf, s.pos) && Step(rtf, s, env).Next?
    ensures s.pos < Step(rtf, s, env).scanner.pos
    ensures SkipsNonNegative(Step(rtf, s, env).scanner.stack)
  {
    var m := ControlAt(rtf, s.pos).value;
    var number := ControlNumber(m.control).value;
    var name := ControlName(m.control);
    StepOnControl(rtf, s, env, m, number);
    if name == "uc" && number.Some? && number.value < 0 {
      NegativeSkipWritten(rtf, s.pos, m, number.value);
      OccursAtContains(rtf, "\\uc-", s.pos);
      assert false;
    }
    ControlAdvances(s.(pos := s.pos + m.length), name, number, env);
  }

  /** A `\uc` whose number reads as negative is written `\uc-`. */
  lemma NegativeSkipWritten(rtf: string, i: nat, m: Match, n: int)
    requires i < |rtf| && rtf[i] == '\\' && ControlAt(rtf, i) == Some(m)
    requires ControlName(m.control) == "uc" && ControlNumber(m.control) == Ok(Some(n)) && n < 0
    ensures OccursAt(rtf, "\\uc-", i)
  {
    var num := m.control.number;
    assert SignedValue(num) == Some(n);
    ControlWordText(rtf, i);
    assert rtf[i..i + 3] == "\\uc";
    assert rtf[i + 3] == num[0];
    assert rtf[i..i + 4] == rtf[i..i + 3] + [rtf[i + 3]];
  }

  /** Without `\uc-` in the text, a budget of one step per remaining character is enough. */
  lemma {:induction false} RunTerminates(rtf: string, s: Scanner, env: Collaborators, fuel: nat)
    requires 0 <= s.pos && SkipsNonNegative(s.stack) && !Contains(rtf, "\\uc-")
    requires fuel >= |rtf| - s.pos
    ensures Run(rtf, s, env, fuel).Some?
    decreases fuel
  {
    if s.pos < |rtf| {
      var next := AdvancingStep(rtf, s, env, fuel);
      if next.Some? {
        RunTerminates(rtf, next.value, env, fuel - 1);
      }
    }
  }

  /** One step of the loop either ends it or moves forward to where the loop goes on. */
  lemma AdvancingStep(rtf: string, s: Scanner, env: Collaborators, fuel: nat) returns (next: Option<Scanner>)
    requires 0 <= s.pos < |rtf| && SkipsNonNegative(s.stack) && !Contains(rtf, "\\uc-") && fuel > 0
    ensures next.None? ==> Run(rtf, s, env, fuel).Some?
    ensures next.Some? ==> s.pos < next.value.pos && SkipsNonNegative(next.value.stack)
    ensures next.Some? ==> Run(rtf, s, env, fuel) == Run(rtf, next.value, env, fuel - 1)
  {
    var r := Step(rtf, s, env);
    if r.Next? {
      StepAdvances(rtf, s, env);
      RunOnNext(rtf, s, env, fuel, r.scanner);
      next := Some(r.scanner);
    } else {
      next := None;
    }
  }

  /** Without `\uc-` in the text, `rtf2html` ends within as many steps as the text has characters. */
  lemma Rtf2HtmlTerminates(rtf: string, env: Collaborators)
    requires !Contains(rtf, "\\uc-")
    ensures Rtf2Html(rtf, env, |rtf|).Some?
  {
    RunTerminates(rtf, INITIAL, env, |rtf|);
  }

  /**
   * A negative `\ucN` can keep the scan going for ever. In `\uc-6 \u65 `
   * the `\u65 ` writes `A` and then moves six characters back, onto the
   * space that ends `\uc-6 `; that space is written and the scan reaches
   * `\u65 ` again. No budget is enough.
   */
  const LOOPING: string := "\\uc-6 \\u65 "

  const LOOPING_GROUP: Group := DEFAULT_GROUP.(unicodeCharLength := -6)

  lemma NegativeSkipNeverEnds(rtf: string, env: Collaborators, fuel: nat)
    requires rtf == LOOPING
    ensures Rtf2Html(rtf, env, fuel + 1) == None
  {
    LoopingStart(env);
    RunOnNext(rtf, INITIAL, env, fuel + 1, LoopingAt(6, ""));
    LoopingFromU(env, fuel, "");
  }

  /** The scanner of the example at `pos` with output `out`, the skip count set to -6. */
  function LoopingAt(pos: int, out: string): Scanner {
    Scanner(pos, [LOOPING_GROUP], CharsetHelper.WINDOWS_CHARSET, out)
  }

  /** The two control words of the example and the numbers they carry. */
  lemma LoopingText()
    ensures OccursAt(LOOPING, Written("uc", "-6"), 0) && OccursAt(LOOPING, Written("u", "65"), 6) && LOOPING[5] == ' '
    ensures NumberShaped("-6") && ControlNumber(Word("uc", "-6")) == Ok(Some(-6))
    ensures NumberShaped("65") && ControlNumber(Word("u", "65")) == Ok(Some(65))
  {
    LoopingWords();
    MinusSix();
    SixtyFive();
  }

  lemma LoopingWords()
    ensures OccursAt(LOOPING, Written("uc", "-6"), 0) && OccursAt(LOOPING, Written("u", "65"), 6) && LOOPING[5] == ' '
  {
    assert LOOPING[0..6] == Written("uc", "-6");
    assert LOOPING[6..11] == Written("u", "65");
  }

  lemma MinusSix()
    ensures NumberShaped("-6") && ControlNumber(Word("uc", "-6")) == Ok(Some(-6))
  {
    assert "-6"[..1] == "-";
  }

  lemma SixtyFive()
    ensures NumberShaped("65") && ControlNumber(Word("u", "65")) == Ok(Some(65))
  {
    assert "65"[..1] == "6" && "6"[..0] == "";
  }

  /** `\uc-6 ` sets the skip count to -6. */
  lemma LoopingStart(env: Collaborators)
    ensures Step(LOOPING, INITIAL, env) == Next(LoopingAt(6, ""))
  {
    LoopingText();
    SkipCount(LOOPING, INITIAL, "-6", Some(-6), env);
  }

  /** From the `\u65 ` the scan writes `A` and goes back to the space before it. */
  lemma LoopingRound(env: Collaborators, s: Scanner)
    requires s.pos == 6 && s.stack == [LOOPING_GROUP]
    ensures Step(LOOPING, s, env) == Next(s.(pos := 5, out := s.out + "A"))
  {
    LoopingText();
    UnicodeCharacter(LOOPING, s, "65", 65, env);
    CapitalA();
  }

  lemma CapitalA()
    ensures JavaChar(65) == 'A'
  {
    assert 65 % 0x1_0000 == 65;
    assert !IsSurrogate(65);
    assert JavaChar(65) as int == 'A' as int;
  }

  /** The space before `\u65 ` is written like any text. */
  lemma LoopingSpace(env: Collaborators, s: Scanner)
    requires s.pos == 5 && s.stack == [LOOPING_GROUP]
    ensures Step(LOOPING, s, env) == Next(s.(pos := 6, out := s.out + " "))
  {
    LoopingText();
    StepOnText(LOOPING, s, env);
  }

  lemma {:induction false} LoopingForEver(env: Collaborators, fuel: nat, out: string)
    ensures Run(LOOPING, LoopingAt(5, out), env, fuel) == None
    decreases fuel
  {
    if fuel > 0 {
      LoopingSpace(env, LoopingAt(5, out));
      RunOnNext(LOOPING, LoopingAt(5, out), env, fuel, LoopingAt(6, out + " "));
      LoopingFromU(env, fuel - 1, out + " ");
    }
  }

  lemma {:induction false} LoopingFromU(env: Collaborators, fuel: nat, out: string)
    ensures Run(LOOPING, LoopingAt(6, out), env, fuel) == None
    decreases fuel
  {
    if fuel > 0 {
      LoopingRound(env, LoopingAt(6, out));
      RunOnNext(LOOPING, LoopingAt(6, out), env, fuel, LoopingAt(5, out + "A"));
      LoopingForEver(env, fuel - 1, out + "A");
    }
  }
}
