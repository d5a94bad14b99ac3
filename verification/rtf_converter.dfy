/**
 * `SimpleRTF2HTMLConverter.rtf2html`: a single left-to-right scan over RTF
 * text with an explicit stack of group settings. `{` pushes a copy of the
 * current group, `}` pops it, and the scan stops after the `}` that closes
 * the outermost group. Control words steer the current group; plain text,
 * `\'XX` escapes and `\uN` characters are appended unless the current
 * group suppresses output.
 *
 * A `\ucN` with a negative `N` makes `\u` move the position backwards, so
 * the scan need not end; the driver therefore takes a step budget and
 * reports `None` when the budget runs out.
 */
module RtfConverter {
  import opened Wrappers
  import opened JavaLang
  import opened Collaborators
  import ByteUtil
  import CharsetHelper

  /** The settings of one group; a new group starts as a copy of the enclosing one. */
  datatype Group = Group(ignore: bool, unicodeCharLength: int, htmlRtf: bool)

  /** The group the scan starts with. */
  const DEFAULT_GROUP: Group := Group(false, 1, false)

  /** Whether `append` drops what is written while `g` is the current group. */
  predicate Suppressed(g: Group) {
    g.ignore || g.htmlRtf
  }

  /**
   * The scanner between two iterations: the position in the text, the
   * group stack with the current group first, the charset `\ansicpg`
   * selected for the whole document, and the output so far.
   */
  datatype Scanner = Scanner(pos: int, stack: seq<Group>, charset: Charset, out: string)

  const INITIAL: Scanner := Scanner(0, [DEFAULT_GROUP], CharsetHelper.WINDOWS_CHARSET, "")

  /** What one iteration of the loop does: go on, leave the loop with the output, or throw. */
  datatype Outcome = Next(scanner: Scanner) | Stop(out: string) | Fail(error: Exception)

  /** `append`: the symbol is added unless the current group suppresses output. */
  function Append(out: string, symbol: string, g: Group): string {
    if Suppressed(g) then out else out + symbol
  }

  // ---------------------------------------------------------------------
  // The two patterns

  predicate IsLetter(c: char) {
    ('a' <= c <= 'z') || ('A' <= c <= 'Z')
  }

  predicate IsDecimal(c: char) {
    '0' <= c <= '9'
  }

  /** The pattern `\\'([0-9a-fA-F]{2})` matches at `i`. */
  predicate HexEscapeAt(rtf: string, i: int) {
    0 <= i && i + 4 <= |rtf| && rtf[i] == '\\' && rtf[i + 1] == '\''
    && Digit(rtf[i + 2], 16) >= 0 && Digit(rtf[i + 3], 16) >= 0
  }

  /** The hex digits of the run of `\'XX` escapes starting at `i`, two per escape. */
  function EscapeRun(rtf: string, i: nat): (hex: string)
    requires i <= |rtf|
    ensures |hex| % 2 == 0 && i + 2 * |hex| <= |rtf|
    ensures HexEscapeAt(rtf, i) ==> |hex| >= 2
    ensures !HexEscapeAt(rtf, i + 2 * |hex|)
    decreases |rtf| - i
  {
    if HexEscapeAt(rtf, i) then [rtf[i + 2], rtf[i + 3]] + EscapeRun(rtf, i + 4) else ""
  }

  /** The first index at or after `i` that does not hold a decimal digit. */
  function DigitsEnd(rtf: string, i: nat): (j: nat)
    requires i <= |rtf|
    ensures i <= j <= |rtf| && (j < |rtf| ==> !IsDecimal(rtf[j]))
    ensures forall k :: i <= k < j ==> IsDecimal(rtf[k])
    decreases |rtf| - i
  {
    if i < |rtf| && IsDecimal(rtf[i]) then DigitsEnd(rtf, i + 1) else i
  }

  /** A control symbol, or a control word with the text of its optional number. */
  datatype Control = Symbol(symbol: char) | Word(word: string, number: string)

  /** A match of the control pattern and the number of characters it covers. */
  datatype Match = Match(control: Control, length: nat)

  /**
   * The control word whose backslash is at `i`, its letters scanned up to
   * `j`: the longest run of letters, an optional `-`, the longest run of
   * digits and an optional space.
   */
  function WordAt(rtf: string, i: nat, j: nat): (m: Match)
    requires i + 1 < j <= |rtf|
    ensures m.control.Word? && 2 <= m.length && i + m.length <= |rtf|
    ensures OccursAt(rtf, m.control.word + m.control.number, i + 1)
    decreases |rtf| - j
  {
    if j < |rtf| && IsLetter(rtf[j]) then WordAt(rtf, i, j + 1)
    else
      var d0 := if j < |rtf| && rtf[j] == '-' then j + 1 else j;
      var d := DigitsEnd(rtf, d0);
      var e := if d < |rtf| && rtf[d] == ' ' then d + 1 else d;
      assert rtf[i + 1..j] + rtf[j..d] == rtf[i + 1..d];
      Match(Word(rtf[i + 1..j], rtf[j..d]), e - i)
  }

  /**
   * `\\(([^a-zA-Z])|(([a-zA-Z]+)(-?[\d]*) ?))` looking at a backslash at
   * `i`: one non-letter, or a control word. Only a backslash at the very
   * end fails to match.
   */
  function ControlAt(rtf: string, i: nat): (r: Option<Match>)
    requires i < |rtf| && rtf[i] == '\\'
    ensures r.None? <==> i + 1 == |rtf|
    ensures r.Some? ==> 2 <= r.value.length && i + r.value.length <= |rtf|
    ensures r.Some? && r.value.control.Symbol? ==> r.value.length == 2 && r.value.control.symbol == rtf[i + 1] && !IsLetter(rtf[i + 1])
    ensures r.Some? && r.value.control.Word? ==>
      (IsLetter(rtf[i + 1]) && OccursAt(rtf, r.value.control.word + r.value.control.number, i + 1))
  {
    if i + 1 == |rtf| then None
    else if !IsLetter(rtf[i + 1]) then Some(Match(Symbol(rtf[i + 1]), 2))
    else Some(WordAt(rtf, i, i + 2))
  }

  /** The control word's name: the symbol itself for a control symbol. */
  function ControlName(c: Control): string {
    match c
    case Symbol(x) => [x]
    case Word(w, _) => w
  }

  /**
   * The value of a number text `-?[0-9]+` read from the right, digit by
   * digit; `None` for any other text. The caller checks the 32-bit range.
   */
  function SignedValue(t: string): (r: Option<int>)
    ensures r.Some? ==> |t| > 0 && (r.value < 0 ==> t[0] == '-')
    decreases |t|
  {
    if |t| == 0 || !IsDecimal(t[|t| - 1]) then None
    else
      var d := t[|t| - 1] as int - '0' as int;
      var front := t[..|t| - 1];
      if front == "" then Some(d)
      else if front == "-" then Some(-d)
      else
        match SignedValue(front)
        case None => None
        case Some(v) => Some(if t[0] == '-' then 10 * v - d else 10 * v + d)
  }

  /**
   * `Integer.valueOf` of the number text when there is one; `None` stands
   * for `null`. The pattern only captures texts `-?[0-9]*`, which
   * `SignedValue` reads as `Integer.valueOf` does.
   */
  function ControlNumber(c: Control): (r: Result<Option<int>, Exception>)
    ensures r.Err? ==> r.error == NumberFormat
    ensures c.Symbol? ==> r == Ok(None)
    ensures r.Ok? && r.value.Some? ==> IsInt32(r.value.value)
  {
    match c
    case Symbol(_) => Ok(None)
    case Word(_, number) =>
      if number == "" then Ok(None)
      else
        match SignedValue(number)
        case None => Err(NumberFormat)
        case Some(n) => if IsInt32(n) then Ok(Some(n)) else Err(NumberFormat)
  }

  // ---------------------------------------------------------------------
  // One iteration

  /** The current group replaced; the groups below it stay as they are. */
  function SetTop(s: Scanner, g: Group): (r: Scanner)
    requires |s.stack| > 0
  {
    s.(stack := [g] + s.stack[1..])
  }

  /** The effect of a control word or symbol, the position already past it. */
  function ApplyControl(s: Scanner, name: string, number: Option<int>, env: Collaborators): (r: Outcome)
    requires |s.stack| > 0
    ensures r.Stop? == false
    ensures r.Fail? ==> name == "ansicpg"
    ensures r.Next? ==> s.out <= r.scanner.out
    ensures r.Next? && Suppressed(s.stack[0]) ==> r.scanner.out == s.out
    ensures r.Next? ==> |r.scanner.stack| == |s.stack| && r.scanner.stack[1..] == s.stack[1..]
    ensures r.Next? && r.scanner.charset != s.charset ==> name == "ansicpg"
  {
    var g := s.stack[0];
    if name == "par" then Next(s.(out := Append(s.out, "\n", g)))
    else if name == "tab" then Next(s.(out := Append(s.out, "\t", g)))
    else if name == "htmlrtf" then Next(SetTop(s, g.(htmlRtf := number.None?)))
    else if name == "ansicpg" then
      match CharsetHelper.FindCharset(number, env.forName)
      case Err(e) => Fail(e)
      case Ok(cs) => Next(s.(charset := cs))
    else if name == "fonttbl" || name == "colortbl" then Next(SetTop(s, g.(ignore := true)))
    else if name == "uc" then Next(SetTop(s, g.(unicodeCharLength := if number.None? then 1 else number.value)))
    else if name == "u" then
      if number.Some? then Next(s.(pos := s.pos + g.unicodeCharLength, out := Append(s.out, [JavaChar(number.value)], g)))
      else Next(s)
    else if name == "{" || name == "}" || name == "\\" then Next(s.(out := Append(s.out, name, g)))
    else Next(s)
  }

  /** A backslash at the position: a run of `\'XX` escapes, or one control word or symbol. */
  function Escape(rtf: string, s: Scanner, env: Collaborators): (r: Outcome)
    requires 0 <= s.pos < |rtf| && rtf[s.pos] == '\\' && |s.stack| > 0
    ensures r.Stop? == false
    ensures r.Fail? ==> r.error in {IllegalState, NumberFormat, UnsupportedCharset, IllegalCharsetName}
    ensures r.Next? ==> s.out <= r.scanner.out
    ensures r.Next? && Suppressed(s.stack[0]) ==> r.scanner.out == s.out
    ensures r.Next? ==> |r.scanner.stack| == |s.stack| && r.scanner.stack[1..] == s.stack[1..]
  {
    if HexEscapeAt(rtf, s.pos) then
      var hex := EscapeRun(rtf, s.pos);
      var text := ByteUtil.HexToString(hex, s.charset, env).value;
      Next(s.(pos := s.pos + 2 * |hex|, out := Append(s.out, text, s.stack[0])))
    else
      match ControlAt(rtf, s.pos)
      case None => Fail(IllegalState)
      case Some(m) =>
        match ControlNumber(m.control)
        case Err(e) => Fail(e)
        case Ok(number) => ApplyControl(s.(pos := s.pos + m.length), ControlName(m.control), number, env)
  }

  /**
   * One iteration of the `while (charIndex < length)` loop. Reading the
   * character comes first (a negative position throws), then the current
   * group (an emptied stack throws).
   */
  function Step(rtf: string, s: Scanner, env: Collaborators): (r: Outcome)
    requires s.pos < |rtf|
    ensures r.Stop? <==> 0 <= s.pos && |s.stack| == 2 && rtf[s.pos] == '}'
    ensures r.Stop? ==> r.out == s.out
    ensures r.Fail? ==> r.error in {StringIndexOutOfBounds, NoSuchElement, IllegalState, NumberFormat, UnsupportedCharset, IllegalCharsetName}
    ensures r.Next? ==> s.out <= r.scanner.out
    ensures r.Next? && |s.stack| > 0 && Suppressed(s.stack[0]) ==> r.scanner.out == s.out
  {
    if s.pos < 0 then Fail(StringIndexOutOfBounds)
    else if |s.stack| == 0 then Fail(NoSuchElement)
    else
      var c := rtf[s.pos];
      var g := s.stack[0];
      if c == '\r' || c == '\n' then Next(s.(pos := s.pos + 1))
      else if c == '{' then Next(s.(pos := s.pos + 1, stack := [g] + s.stack))
      else if c == '}' then
        if |s.stack| == 2 then Stop(s.out)
        else Next(s.(pos := s.pos + 1, stack := s.stack[1..]))
      else if c == '\\' then Escape(rtf, s, env)
      else Next(s.(pos := s.pos + 1, out := Append(s.out, [c], g)))
  }

  // ---------------------------------------------------------------------
  // The loop

  /**
   * The loop from `s` with at most `fuel` iterations: `None` when the
   * budget runs out, otherwise the returned text or the exception thrown.
   * The output returned always extends the output so far.
   */
  function Run(rtf: string, s: Scanner, env: Collaborators, fuel: nat): (r: Option<Result<string, Exception>>)
    ensures r.Some? && r.value.Ok? ==> s.out <= r.value.value
    decreases fuel
  {
    if s.pos >= |rtf| then Some(Ok(s.out))
    else if fuel == 0 then None
    else
      match Step(rtf, s, env)
      case Fail(e) => Some(Err(e))
      case Stop(out) => Some(Ok(out))
      case Next(s') => Run(rtf, s', env, fuel - 1)
  }

  /** `rtf2html` with a budget of `fuel` iterations. */
  function Rtf2Html(rtf: string, env: Collaborators, fuel: nat): (r: Option<Result<string, Exception>>)
    ensures |rtf| == 0 ==> r == Some(Ok(""))
  {
    Run(rtf, INITIAL, env, fuel)
  }
}
