/**
 * The parts of the Java platform the parser leans on, stated exactly:
 * the unchecked exceptions it lets escape, `String` searching, trimming,
 * case mapping and single-character `split`, `Integer.parseInt`,
 * `Integer.toString`, `String.format("%0Nx")` and `String.hashCode`.
 */
module JavaLang {
  import opened Wrappers

  /** The unchecked exceptions the modelled code can raise without catching them. */
  datatype Exception =
    | ClassCast
    | NullPointer
    | ArrayIndexOutOfBounds
    | StringIndexOutOfBounds
    | BufferOverflow
    | NumberFormat
    | IllegalState
    | NoSuchElement
    | IllegalCharsetName
    | UnsupportedCharset

  const INT_MIN: int := -0x8000_0000
  const INT_MAX: int := 0x7FFF_FFFF
  const TWO_32: int := 0x1_0000_0000

  /** An unsigned byte value; Java's signed `byte` is recovered with `SignedByte`. */
  newtype uint8 = b: int | 0 <= b < 256

  predicate IsInt32(n: int) {
    INT_MIN <= n <= INT_MAX
  }

  /** Reduces an unbounded integer to Java's wrapping 32-bit `int`. */
  function ToInt32(n: int): (r: int)
    ensures IsInt32(r)
    ensures (r - n) % TWO_32 == 0
    ensures IsInt32(n) ==> r == n
  {
    var m := n % TWO_32;
    if m > INT_MAX then m - TWO_32 else m
  }

  /** A UTF-16 code unit that is half of a surrogate pair. */
  predicate IsSurrogate(u: int) {
    0xD800 <= u < 0xE000
  }

  const REPLACEMENT_CHARACTER: char := '\U{FFFD}'

  /**
   * `(char) n`: the low 16 bits of an `int` as a character. A Dafny
   * character is a Unicode scalar value, so a lone surrogate unit becomes
   * U+FFFD.
   */
  function JavaChar(n: int): (c: char)
    ensures !IsSurrogate(n % 0x1_0000) ==> c as int == n % 0x1_0000
    ensures IsSurrogate(n % 0x1_0000) ==> c == REPLACEMENT_CHARACTER
  {
    var u := n % 0x1_0000;
    if IsSurrogate(u) then REPLACEMENT_CHARACTER else u as char
  }

  /** Every character fits one UTF-16 code unit. */
  predicate IsBmp(s: string) {
    forall i :: 0 <= i < |s| ==> s[i] as int < 0x1_0000
  }

  /**
   * The UTF-16 code units Java keeps a string in: a character beyond the
   * Basic Multilingual Plane takes a surrogate pair.
   */
  function Utf16(s: string): (r: seq<int>)
    ensures IsBmp(s) ==> |r| == |s| && forall k :: 0 <= k < |s| ==> r[k] == s[k] as int
    decreases |s|
  {
    if |s| == 0 then []
    else
      var c := s[0] as int;
      var units := if c < 0x1_0000 then [c] else [0xD800 + (c - 0x1_0000) / 0x400, 0xDC00 + (c - 0x1_0000) % 0x400];
      var rest := Utf16(s[1..]);
      assert IsBmp(s) ==> IsBmp(s[1..]) by {
        assert forall k :: 0 <= k < |s[1..]| ==> s[1..][k] == s[k + 1];
      }
      units + rest
  }

  /** `String.length()`: the number of UTF-16 code units, which exceeds the character count by one per character beyond the Basic Multilingual Plane. */
  function Utf16Length(s: string): (n: nat)
    ensures n == |Utf16(s)|
    ensures |s| <= n <= 2 * |s|
    ensures IsBmp(s) ==> n == |s|
    decreases |s|
  {
    if |s| == 0 then 0
    else
      assert IsBmp(s) ==> IsBmp(s[1..]) by {
        assert forall k :: 0 <= k < |s[1..]| ==> s[1..][k] == s[k + 1];
      }
      (if s[0] as int < 0x1_0000 then 1 else 2) + Utf16Length(s[1..])
  }

  /** Encoding in UTF-16 commutes with joining strings. */
  lemma {:induction false} Utf16Append(a: string, b: string)
    ensures Utf16(a + b) == Utf16(a) + Utf16(b)
    decreases |a|
  {
    if |a| == 0 {
      assert a + b == b;
    } else {
      assert (a + b)[0] == a[0];
      assert (a + b)[1..] == a[1..] + b;
      Utf16Append(a[1..], b);
    }
  }

  // ---------------------------------------------------------------------
  // Searching

  predicate StartsWith(s: string, prefix: string) {
    |prefix| <= |s| && s[..|prefix|] == prefix
  }

  predicate EndsWith(s: string, suffix: string) {
    |suffix| <= |s| && s[|s| - |suffix|..] == suffix
  }

  /** `sub` occurs in `s` starting at index `i`. */
  predicate OccursAt(s: string, sub: string, i: int) {
    0 <= i && i + |sub| <= |s| && s[i..i + |sub|] == sub
  }

  /** `s.indexOf(sub, from)`: the first occurrence at or after `from`, or -1. */
  function IndexOfFrom(s: string, sub: string, from: nat): (r: int)
    ensures r == -1 || (from <= r && OccursAt(s, sub, r))
    ensures r == -1 ==> forall j :: from <= j ==> !OccursAt(s, sub, j)
    ensures r != -1 ==> forall j :: from <= j < r ==> !OccursAt(s, sub, j)
    decreases |s| - from
  {
    if |s| < from + |sub| then -1
    else if s[from..from + |sub|] == sub then from
    else IndexOfFrom(s, sub, from + 1)
  }

  function IndexOf(s: string, sub: string): (r: int)
    ensures r == -1 <==> forall j :: !OccursAt(s, sub, j)
    ensures r != -1 ==> OccursAt(s, sub, r) && forall j :: 0 <= j < r ==> !OccursAt(s, sub, j)
  {
    IndexOfFrom(s, sub, 0)
  }

  /** `s.lastIndexOf(sub, from)`: the last occurrence starting at or before `from`, or -1. */
  function LastIndexOfFrom(s: string, sub: string, from: int): (r: int)
    ensures r == -1 || (0 <= r <= from && OccursAt(s, sub, r))
    ensures forall j :: r < j <= from ==> !OccursAt(s, sub, j)
    decreases from + 1
  {
    if from < 0 then -1
    else if OccursAt(s, sub, from) then from
    else LastIndexOfFrom(s, sub, from - 1)
  }

  /** `s.lastIndexOf(sub)` (also `StringBuilder.lastIndexOf`): the last occurrence, or -1. */
  function LastIndexOf(s: string, sub: string): (r: int)
    ensures r == -1 <==> forall j :: !OccursAt(s, sub, j)
    ensures r != -1 ==> OccursAt(s, sub, r) && forall j :: r < j ==> !OccursAt(s, sub, j)
  {
    LastIndexOfFrom(s, sub, |s| - |sub|)
  }

  /** `s.contains(sub)`. */
  predicate Contains(s: string, sub: string) {
    IndexOf(s, sub) != -1
  }

  lemma ContainsIff(s: string, sub: string)
    ensures Contains(s, sub) <==> exists j :: OccursAt(s, sub, j)
  {
  }

  /** A witness occurrence is enough for `contains`. */
  lemma OccursAtContains(s: string, sub: string, i: int)
    requires OccursAt(s, sub, i)
    ensures Contains(s, sub)
  {
  }

  /** An occurrence survives extending the string on either side. */
  lemma ContainsInfix(a: string, s: string, b: string, sub: string)
    requires Contains(s, sub)
    ensures Contains(a + s + b, sub)
  {
    var j := IndexOf(s, sub);
    assert (a + s + b)[|a| + j..|a| + j + |sub|] == s[j..j + |sub|];
    OccursAtContains(a + s + b, sub, |a| + j);
  }

  /** An occurrence survives appending to the string. */
  lemma ContainsExtend(s: string, t: string, sub: string)
    requires Contains(s, sub)
    ensures Contains(s + t, sub)
  {
    var j := IndexOf(s, sub);
    assert (s + t)[j..j + |sub|] == s[j..j + |sub|];
    OccursAtContains(s + t, sub, j);
  }

  /** A text contains whatever it is built around. */
  lemma ContainsPart(a: string, sub: string, b: string)
    ensures Contains(a + sub + b, sub)
  {
    assert (a + sub + b)[|a|..|a| + |sub|] == sub;
    OccursAtContains(a + sub + b, sub, |a|);
  }

  /** A character occurs in `s`. */
  predicate HasChar(s: string, c: char) {
    exists i :: 0 <= i < |s| && s[i] == c
  }

  /** A carriage return or a line feed. */
  predicate IsLineBreak(c: char) {
    c == '\r' || c == '\n'
  }

  /** Neither a carriage return nor a line feed occurs in `s`. */
  predicate NoLineBreak(s: string) {
    '\r' !in s && '\n' !in s
  }

  /** A character occurs in a concatenation exactly when it occurs in one of the parts. */
  lemma HasCharConcat(a: string, b: string, c: char)
    ensures HasChar(a + b, c) <==> HasChar(a, c) || HasChar(b, c)
  {
    if HasChar(a + b, c) {
      var i :| 0 <= i < |a + b| && (a + b)[i] == c;
      if i >= |a| {
        assert b[i - |a|] == c;
      }
    }
    if HasChar(a, c) {
      var i :| 0 <= i < |a| && a[i] == c;
      assert (a + b)[i] == c;
    }
    if HasChar(b, c) {
      var i :| 0 <= i < |b| && b[i] == c;
      assert (a + b)[|a| + i] == c;
    }
  }

  /** A text holds every character of anything it contains. */
  lemma ContainsHasChar(s: string, sub: string, k: int)
    requires Contains(s, sub) && 0 <= k < |sub|
    ensures sub[k] in s
  {
    var j := IndexOf(s, sub);
    assert s[j + k] == s[j..j + |sub|][k];
  }

  // ---------------------------------------------------------------------
  // Trimming and case mapping

  /** `String.trim` removes every character up to and including U+0020. */
  predicate IsTrimmed(c: char) {
    c <= ' '
  }

  function StripLeading(s: string): (r: string)
    ensures |r| <= |s| && r == s[|s| - |r|..]
    ensures |r| > 0 ==> !IsTrimmed(r[0])
    ensures forall i :: 0 <= i < |s| - |r| ==> IsTrimmed(s[i])
    decreases |s|
  {
    if |s| > 0 && IsTrimmed(s[0]) then StripLeading(s[1..]) else s
  }

  function StripTrailing(s: string): (r: string)
    ensures |r| <= |s| && r == s[..|r|]
    ensures |r| > 0 ==> !IsTrimmed(r[|r| - 1])
    ensures forall i :: |r| <= i < |s| ==> IsTrimmed(s[i])
    decreases |s|
  {
    if |s| > 0 && IsTrimmed(s[|s| - 1]) then StripTrailing(s[..|s| - 1]) else s
  }

  /** `s.trim()`: the longest infix that neither starts nor ends with a trimmed character. */
  function Trim(s: string): (r: string)
    ensures |r| <= |s|
    ensures Contains(s, r)
    ensures |r| > 0 ==> !IsTrimmed(r[0]) && !IsTrimmed(r[|r| - 1])
    ensures |s| > 0 && !IsTrimmed(s[0]) && !IsTrimmed(s[|s| - 1]) ==> r == s
  {
    StrippedInfix(s);
    StripTrailing(StripLeading(s))
  }

  /** What is left after stripping both ends occurs in the text. */
  lemma StrippedInfix(s: string)
    ensures Contains(s, StripTrailing(StripLeading(s)))
  {
    var l := StripLeading(s);
    var r := StripTrailing(l);
    assert r == s[|s| - |l|..][..|r|];
    assert r == s[|s| - |l|..|s| - |l| + |r|];
    OccursAtContains(s, r, |s| - |l|);
  }

  /** Trimming keeps every character that is not itself trimmed. */
  lemma TrimKeepsChar(s: string, c: char)
    requires c in s && !IsTrimmed(c)
    ensures c in Trim(s)
  {
    var i :| 0 <= i < |s| && s[i] == c;
    var l := StripLeading(s);
    assert l[i - (|s| - |l|)] == c;
    var r := StripTrailing(l);
    assert r[i - (|s| - |l|)] == c;
  }

  /** Trimming adds no character. */
  lemma TrimSubset(s: string, c: char)
    ensures c in Trim(s) ==> c in s
  {
    if c in Trim(s) {
      var l := StripLeading(s);
      var r := StripTrailing(l);
      var i :| 0 <= i < |r| && r[i] == c;
      assert l[i] == c;
      assert s[|s| - |l| + i] == c;
    }
  }

  /** A one-character string occurs exactly where its character does. */
  lemma ContainsChar(s: string, c: char)
    ensures Contains(s, [c]) <==> c in s
  {
    if c in s {
      var i :| 0 <= i < |s| && s[i] == c;
      assert s[i..i + 1] == [c];
      OccursAtContains(s, [c], i);
    }
    if Contains(s, [c]) {
      ContainsHasChar(s, [c], 0);
    }
  }

  /** `s.replaceAll("[...]", "")` for a set of literal characters: every occurrence removed. */
  function RemoveChars(s: string, cs: set<char>): (r: string)
    ensures forall c :: c in r <==> c in s && c !in cs
    decreases |s|
  {
    if |s| == 0 then ""
    else
      var rest := RemoveChars(s[1..], cs);
      assert forall c :: c in s <==> c == s[0] || c in s[1..];
      if s[0] in cs then rest else [s[0]] + rest
  }

  /** Trimming is idempotent. */
  lemma TrimIdempotent(s: string)
    ensures Trim(Trim(s)) == Trim(s)
  {
  }

  function ToLowerChar(c: char): char {
    if 'A' <= c <= 'Z' then (c as int + 32) as char else c
  }

  function ToUpperChar(c: char): char {
    if 'a' <= c <= 'z' then (c as int - 32) as char else c
  }

  /** `s.toLowerCase()` on the ASCII letters. */
  function ToLower(s: string): (r: string)
    ensures |r| == |s|
    ensures forall i :: 0 <= i < |s| ==> !('A' <= r[i] <= 'Z')
    ensures forall i :: 0 <= i < |s| ==> ToUpperChar(r[i]) == ToUpperChar(s[i])
  {
    seq(|s|, i requires 0 <= i < |s| => ToLowerChar(s[i]))
  }

  /** `s.toUpperCase()` on the ASCII letters. */
  function ToUpper(s: string): (r: string)
    ensures |r| == |s|
    ensures forall i :: 0 <= i < |s| ==> !('a' <= r[i] <= 'z')
    ensures forall i :: 0 <= i < |s| ==> ToLowerChar(r[i]) == ToLowerChar(s[i])
  {
    seq(|s|, i requires 0 <= i < |s| => ToUpperChar(s[i]))
  }

  /** `a.equalsIgnoreCase(b)` on the ASCII letters. */
  predicate EqualsIgnoreCase(a: string, b: string) {
    ToLower(a) == ToLower(b)
  }

  // ---------------------------------------------------------------------
  // String.split with a one-character, non-special pattern

  /** Every piece between separators, including empty ones; never empty. */
  function Pieces(s: string, sep: char): (r: seq<string>)
    ensures |r| >= 1
    ensures forall k :: 0 <= k < |r| ==> !HasChar(r[k], sep)
    decreases |s|
  {
    if |s| == 0 then [""]
    else
      var rest := Pieces(s[1..], sep);
      if s[0] == sep then [""] + rest
      else [[s[0]] + rest[0]] + rest[1..]
  }

  /** `String.join(sep, pieces)`. */
  function Join(ps: seq<string>, sep: char): string
    requires |ps| >= 1
    decreases |ps|
  {
    if |ps| == 1 then ps[0] else ps[0] + [sep] + Join(ps[1..], sep)
  }

  /** Splitting and joining again gives back the string. */
  lemma {:induction false} JoinPieces(s: string, sep: char)
    ensures Join(Pieces(s, sep), sep) == s
    decreases |s|
  {
    if |s| > 0 {
      JoinPieces(s[1..], sep);
      var rest := Pieces(s[1..], sep);
      if s[0] != sep {
        var r := Pieces(s, sep);
        if |rest| == 1 {
          assert r == [[s[0]] + rest[0]];
        } else {
          assert r[1..] == rest[1..];
          assert Join(r, sep) == [s[0]] + rest[0] + [sep] + Join(rest[1..], sep);
        }
      } else {
        assert Pieces(s, sep)[1..] == rest;
      }
    }
  }

  function DropTrailingEmpty(ps: seq<string>): (r: seq<string>)
    ensures |r| <= |ps| && r == ps[..|r|]
    ensures |r| > 0 ==> r[|r| - 1] != ""
    ensures forall k :: |r| <= k < |ps| ==> ps[k] == ""
    decreases |ps|
  {
    if |ps| > 0 && ps[|ps| - 1] == "" then DropTrailingEmpty(ps[..|ps| - 1]) else ps
  }

  /**
   * `s.split(sep)` for a separator that is not a regular-expression
   * metacharacter: the pieces between separators with trailing empty pieces
   * removed, except that splitting the empty string gives one empty piece.
   */
  function Split(s: string, sep: char): (r: seq<string>)
    ensures forall k :: 0 <= k < |r| ==> !HasChar(r[k], sep)
    ensures |s| == 0 ==> r == [""]
    ensures |s| > 0 && |r| > 0 ==> r[|r| - 1] != ""
    ensures !HasChar(s, sep) ==> r == [s]
  {
    if |s| == 0 then [""]
    else
      var ps := Pieces(s, sep);
      assert !HasChar(s, sep) ==> ps == [s] by {
        if !HasChar(s, sep) { NoSeparatorOnePiece(s, sep); }
      }
      DropTrailingEmpty(ps)
  }

  lemma {:induction false} NoSeparatorOnePiece(s: string, sep: char)
    requires !HasChar(s, sep)
    ensures Pieces(s, sep) == [s]
    decreases |s|
  {
    if |s| > 0 {
      assert !HasChar(s[1..], sep) by {
        forall i | 0 <= i < |s[1..]| ensures s[1..][i] != sep {
          assert s[1..][i] == s[i + 1];
        }
      }
      NoSeparatorOnePiece(s[1..], sep);
      assert s[0] != sep;
      assert [s[0]] + s[1..] == s;
    }
  }

  /** What `split` drops is only separators: joining its pieces gives a prefix of `s`. */
  lemma SplitJoinPrefix(s: string, sep: char)
    requires |s| > 0 && |Split(s, sep)| > 0
    ensures StartsWith(s, Join(Split(s, sep), sep))
    ensures forall i :: |Join(Split(s, sep), sep)| <= i < |s| ==> s[i] == sep
  {
    var ps := Pieces(s, sep);
    var r := Split(s, sep);
    JoinPieces(s, sep);
    JoinTrailingEmpty(ps, |r|, sep);
  }

  /** Joining a prefix of the pieces whose tail is all empty leaves only separators behind. */
  lemma {:induction false} JoinTrailingEmpty(ps: seq<string>, n: nat, sep: char)
    requires 1 <= n <= |ps|
    requires forall k :: n <= k < |ps| ==> ps[k] == ""
    ensures StartsWith(Join(ps, sep), Join(ps[..n], sep))
    ensures forall i :: |Join(ps[..n], sep)| <= i < |Join(ps, sep)| ==> Join(ps, sep)[i] == sep
    decreases |ps|
  {
    if n < |ps| {
      var m := |ps| - 1;
      JoinTrailingEmpty(ps[..m], n, sep);
      assert ps[..m][..n] == ps[..n];
      assert ps[..m] + [""] == ps;
      JoinSnoc(ps[..m], sep);
      var p := Join(ps[..n], sep);
      var j := Join(ps[..m], sep);
      assert Join(ps, sep) == j + [sep];
      assert (j + [sep])[..|p|] == j[..|p|];
    } else {
      assert ps[..n] == ps;
    }
  }

  lemma {:induction false} JoinSnoc(ps: seq<string>, sep: char)
    requires |ps| >= 1
    ensures Join(ps + [""], sep) == Join(ps, sep) + [sep]
    decreases |ps|
  {
    if |ps| > 1 {
      JoinSnoc(ps[1..], sep);
      assert (ps + [""])[1..] == ps[1..] + [""];
    }
  }

  /** Pieces that hold no separator split back out of their join. */
  lemma {:induction false} PiecesJoin(ps: seq<string>, sep: char)
    requires |ps| >= 1
    requires forall k :: 0 <= k < |ps| ==> !HasChar(ps[k], sep)
    ensures Pieces(Join(ps, sep), sep) == ps
    decreases |ps|
  {
    if |ps| == 1 {
      NoSeparatorOnePiece(ps[0], sep);
    } else {
      PiecesJoin(ps[1..], sep);
      PiecesAfterPiece(ps[0], Join(ps[1..], sep), sep);
    }
  }

  /** A leading piece without separators is split off whole. */
  lemma {:induction false} PiecesAfterPiece(a: string, t: string, sep: char)
    requires !HasChar(a, sep)
    ensures Pieces(a + [sep] + t, sep) == [a] + Pieces(t, sep)
    decreases |a|
  {
    if |a| > 0 {
      assert !HasChar(a[1..], sep) by {
        forall i | 0 <= i < |a[1..]| ensures a[1..][i] != sep {
          assert a[1..][i] == a[i + 1];
        }
      }
      PiecesAfterPiece(a[1..], t, sep);
      assert (a + [sep] + t)[1..] == a[1..] + [sep] + t;
      assert a[0] != sep;
      assert [a[0]] + a[1..] == a;
    } else {
      assert (a + [sep] + t)[1..] == t;
    }
  }

  /** `split` gives back pieces that hold no separator and do not end with an empty one. */
  lemma SplitJoin(ps: seq<string>, sep: char)
    requires |ps| >= 1 && ps[|ps| - 1] != ""
    requires forall k :: 0 <= k < |ps| ==> !HasChar(ps[k], sep)
    ensures Split(Join(ps, sep), sep) == ps
  {
    PiecesJoin(ps, sep);
    JoinPieces(Join(ps, sep), sep);
    JoinNonEmpty(ps, sep);
  }

  lemma {:induction false} JoinNonEmpty(ps: seq<string>, sep: char)
    requires |ps| >= 1 && ps[|ps| - 1] != ""
    ensures |Join(ps, sep)| > 0
    decreases |ps|
  {
    if |ps| > 1 {
      JoinNonEmpty(ps[1..], sep);
    }
  }

  // ---------------------------------------------------------------------
  // Integer.parseInt and Integer.toString

  /** `Character.digit(c, radix)` restricted to ASCII digits and letters; -1 when `c` is no digit. */
  function Digit(c: char, radix: nat): (r: int)
    requires 2 <= radix <= 36
    ensures -1 <= r < radix
  {
    var v :=
      if '0' <= c <= '9' then c as int - '0' as int
      else if 'a' <= c <= 'z' then c as int - 'a' as int + 10
      else if 'A' <= c <= 'Z' then c as int - 'A' as int + 10
      else -1;
    if v < radix then v else -1
  }

  predicate AllDigits(s: string, radix: nat)
    requires 2 <= radix <= 36
  {
    forall i :: 0 <= i < |s| ==> Digit(s[i], radix) >= 0
  }

  /** The value of a digit string, most significant digit first. */
  function DigitsValue(s: string, radix: nat): (r: nat)
    requires 2 <= radix <= 36 && AllDigits(s, radix)
    decreases |s|
  {
    if |s| == 0 then 0
    else
      assert AllDigits(s[..|s| - 1], radix) by {
        assert forall i :: 0 <= i < |s| - 1 ==> s[..|s| - 1][i] == s[i];
      }
      var front: nat := DigitsValue(s[..|s| - 1], radix);
      front * radix + Digit(s[|s| - 1], radix)
  }

  /**
   * `Integer.parseInt(s, radix)`: an optional sign, at least one digit,
   * and a value within the 32-bit range; `None` where Java throws
   * `NumberFormatException` (also for `null`, which callers pass as "").
   */
  function ParseInt(s: string, radix: nat): (r: Option<int>)
    requires 2 <= radix <= 36
    ensures r.Some? ==> IsInt32(r.value)
    ensures |s| == 0 ==> r.None?
    ensures r.Some? ==> exists k :: 0 <= k <= 1 && k < |s| && AllDigits(s[k..], radix)
  {
    if |s| == 0 then None
    else
      var negative := s[0] == '-';
      var k := if s[0] == '-' || s[0] == '+' then 1 else 0;
      var digits := s[k..];
      if |digits| == 0 || !AllDigits(digits, radix) then None
      else
        var v := DigitsValue(digits, radix);
        var n: int := if negative then -(v as int) else v;
        if IsInt32(n) then Some(n) else None
  }

  function DigitChar(d: nat, upper: bool): (c: char)
    requires d < 16
  {
    if d < 10 then ('0' as int + d) as char
    else if upper then ('A' as int + d - 10) as char
    else ('a' as int + d - 10) as char
  }

  /** The digits of `n` in base `radix` without leading zeros ("0" for zero). */
  function NatToDigits(n: nat, radix: nat, upper: bool): (r: string)
    requires radix == 10 || radix == 16
    ensures |r| >= 1
    ensures AllDigits(r, radix) && DigitsValue(r, radix) == n
    ensures |r| > 1 ==> r[0] != '0'
    decreases n
  {
    var c := DigitChar(n % radix, upper);
    DigitOfDigitChar(n % radix, upper);
    if n < radix then [c]
    else
      var front := NatToDigits(n / radix, radix, upper);
      DigitsSnoc(front, c, radix);
      front + [c]
  }

  /** Appending one digit multiplies the value by the radix and adds the digit. */
  lemma DigitsSnoc(front: string, c: char, radix: nat)
    requires 2 <= radix <= 36 && AllDigits(front, radix) && Digit(c, radix) >= 0
    ensures AllDigits(front + [c], radix)
    ensures DigitsValue(front + [c], radix) == DigitsValue(front, radix) * radix + Digit(c, radix)
  {
    assert (front + [c])[..|front|] == front;
  }

  lemma DigitOfDigitChar(d: nat, upper: bool)
    requires d < 16
    ensures Digit(DigitChar(d, upper), 16) == d
    ensures d < 10 ==> Digit(DigitChar(d, upper), 10) == d
  {
  }

  function Pow(radix: nat, n: nat): (r: nat)
    ensures radix >= 1 ==> r >= 1
  {
    if n == 0 then 1 else Pow(radix, n - 1) * radix
  }

  /** The value of a concatenation of digit strings. */
  lemma {:induction false} DigitsValueAppend(a: string, b: string, radix: nat)
    requires 2 <= radix <= 36 && AllDigits(a, radix) && AllDigits(b, radix)
    ensures AllDigits(a + b, radix)
    ensures DigitsValue(a + b, radix) == DigitsValue(a, radix) * Pow(radix, |b|) + DigitsValue(b, radix)
    decreases |b|
  {
    if |b| == 0 {
      assert a + b == a;
    } else {
      var b' := b[..|b| - 1];
      var c := b[|b| - 1];
      DigitsValueAppend(a, b', radix);
      assert (a + b)[..|a + b| - 1] == a + b';
      var x := DigitsValue(a, radix);
      var y := DigitsValue(b', radix);
      var p := Pow(radix, |b'|);
      assert DigitsValue(a + b, radix) == DigitsValue(a + b', radix) * radix + Digit(c, radix);
      assert DigitsValue(b, radix) == y * radix + Digit(c, radix) by {
        assert b[..|b| - 1] == b';
      }
      Regroup(x, p, y, radix, Digit(c, radix));
    }
  }

  lemma Regroup(x: int, p: int, y: int, r: int, d: int)
    ensures (x * p + y) * r + d == x * (p * r) + (y * r + d)
  {
  }

  /** `Integer.toString(n)`. */
  function IntToString(n: int): (r: string)
    ensures |r| >= 1
    ensures n >= 0 ==> AllDigits(r, 10)
    ensures n < 0 ==> r[0] == '-'
  {
    if n < 0 then "-" + NatToDigits(-n, 10, false) else NatToDigits(n, 10, false)
  }

  /** `Integer.parseInt(Integer.toString(n))` gives back `n`. */
  lemma ParseIntToString(n: int)
    requires IsInt32(n)
    ensures ParseInt(IntToString(n), 10) == Some(n)
  {
    var s := IntToString(n);
    if n < 0 {
      assert s[1..] == NatToDigits(-n, 10, false);
    } else {
      var d := NatToDigits(n, 10, false);
      assert d[0] != '-' && d[0] != '+' by {
        assert Digit(d[0], 10) >= 0;
      }
      assert s[0..] == s;
    }
  }

  /**
   * `String.format("%0" + width + "x", n)` for an `int` (upper-case for `X`):
   * a negative value prints as its 32-bit two's complement.
   */
  function FormatHex(n: int, width: nat, upper: bool): (r: string)
    requires IsInt32(n)
    ensures |r| >= width && |r| >= 1
    ensures AllDigits(r, 16)
    ensures DigitsValue(r, 16) == (if n < 0 then n + TWO_32 else n)
  {
    var u: nat := if n < 0 then n + TWO_32 else n;
    var d := NatToDigits(u, 16, upper);
    var pad := if |d| < width then width - |d| else 0;
    var r := seq(pad, _ => '0') + d;
    LeadingZeros(pad, d, 16);
    r
  }

  /**
   * `Integer.parseInt(String.format("%0Nx", n), 16)` gives `n` back for a
   * non-negative `n`; a negative one prints beyond the `int` range and
   * does not parse.
   */
  lemma ParseFormatHex(n: int, width: nat)
    requires IsInt32(n)
    ensures n >= 0 ==> ParseInt(FormatHex(n, width, false), 16) == Some(n)
    ensures n < 0 ==> ParseInt(FormatHex(n, width, false), 16).None?
  {
    var s := FormatHex(n, width, false);
    assert Digit(s[0], 16) >= 0;
    assert s[0] != '-' && s[0] != '+';
    assert s[0..] == s;
  }

  lemma {:induction false} LeadingZeros(pad: nat, d: string, radix: nat)
    requires 2 <= radix <= 36 && AllDigits(d, radix)
    ensures AllDigits(seq(pad, _ => '0') + d, radix)
    ensures DigitsValue(seq(pad, _ => '0') + d, radix) == DigitsValue(d, radix)
    decreases |d|
  {
    var z := seq(pad, _ => '0');
    if |d| == 0 {
      ZerosValue(pad, radix);
      assert z + d == z;
    } else {
      var d' := d[..|d| - 1];
      LeadingZeros(pad, d', radix);
      assert (z + d)[..|z + d| - 1] == z + d';
    }
  }

  lemma {:induction false} ZerosValue(pad: nat, radix: nat)
    requires 2 <= radix <= 36
    ensures AllDigits(seq(pad, _ => '0'), radix)
    ensures DigitsValue(seq(pad, _ => '0'), radix) == 0
    decreases pad
  {
    if pad > 0 {
      ZerosValue(pad - 1, radix);
      assert seq(pad, _ => '0')[..pad - 1] == seq(pad - 1, _ => '0');
    }
  }

  // ---------------------------------------------------------------------
  // hashCode

  /** `String.hashCode()`: the polynomial hash with multiplier 31 over the UTF-16 code units, wrapped to 32 bits. */
  function StringHash(s: string): (r: int)
    ensures IsInt32(r)
  {
    UnitsHash(Utf16(s))
  }

  /** Appending a character of the Basic Multilingual Plane takes one step of the polynomial hash. */
  lemma StringHashStep(s: string, c: char)
    requires c as int < 0x1_0000
    ensures StringHash(s + [c]) == ToInt32(31 * StringHash(s) + c as int)
  {
    Utf16Append(s, [c]);
    assert Utf16([c]) == [c as int];
    var u := Utf16(s + [c]);
    assert u[..|u| - 1] == Utf16(s);
  }

  /** The polynomial hash with multiplier 31 of a sequence of code units, wrapped to 32 bits after each step. */
  function UnitsHash(units: seq<int>): (r: int)
    ensures IsInt32(r)
    decreases |units|
  {
    if |units| == 0 then 0
    else ToInt32(31 * UnitsHash(units[..|units| - 1]) + units[|units| - 1])
  }

  /** `String.valueOf` of a string reference, as string concatenation uses it: the text "null" for null. */
  function ValueOf(o: Option<string>): string {
    match o
    case None => "null"
    case Some(v) => v
  }

  function NullableHash(s: Option<string>): int {
    match s
    case None => 0
    case Some(v) => StringHash(v)
  }

  /** `Objects.hash(a, b, ...)` for string (or null) components. */
  function ObjectsHash(parts: seq<Option<string>>): (r: int)
    ensures IsInt32(r)
    decreases |parts|
  {
    if |parts| == 0 then 1
    else ToInt32(31 * ObjectsHash(parts[..|parts| - 1]) + NullableHash(parts[|parts| - 1]))
  }
}
