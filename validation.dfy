/**
 * Input validators and sanitisers: a per-base digit check, a character
 * filter for math expressions, a balanced-parenthesis scanner, a length
 * limit, checks on financial and decimal inputs, HTML escaping and a check
 * on the graphing range.
 *
 * Strings are sequences of code points. The JavaScript regular expressions
 * are written out as predicates and recursive scans over them; numbers that
 * may be NaN or infinite are a `JsNumber`.
 */
module Validation {
  import opened Wrappers
  import opened Types
  import ProgrammerEngine

  /** A JavaScript number, with the non-finite values kept apart from the reals. */
  datatype JsNumber = Finite(value: real) | NaN | Infinite(negative: bool)

  /** The `{ valid, error? }` record the checks return. */
  datatype Verdict = Verdict(valid: bool, error: Option<string>)

  // ---------------------------------------------------------------------
  // Character classes and sequence helpers
  // ---------------------------------------------------------------------

  /** `\s` in a regular expression, which is also the set `trim` strips: white space and line terminators. */
  predicate IsJsWhitespace(c: char) {
    var n := c as int;
    (9 <= n <= 13) || n == 32 || n == 0xA0 || n == 0x1680 || (0x2000 <= n <= 0x200A)
    || n == 0x2028 || n == 0x2029 || n == 0x202F || n == 0x205F || n == 0x3000 || n == 0xFEFF
  }

  /** The characters `.` does not match. */
  predicate IsLineTerminator(c: char) {
    c == '\n' || c == '\r' || c as int == 0x2028 || c as int == 0x2029
  }

  predicate IsAsciiLetter(c: char) {
    ('a' <= c <= 'z') || ('A' <= c <= 'Z')
  }

  /** The class `[0-9+\-*\/().^\s,a-zA-Z]` of characters a math expression may hold. */
  predicate IsMathChar(c: char) {
    ('0' <= c <= '9') || c == '+' || c == '-' || c == '*' || c == '/' || c == '(' || c == ')'
    || c == '.' || c == '^' || IsJsWhitespace(c) || c == ',' || IsAsciiLetter(c)
  }

  predicate AllMathChars(s: string) {
    forall c :: c in s ==> IsMathChar(c)
  }

  /** Lower-casing as the `i` flag of a non-unicode regular expression folds: ASCII letters only. */
  function LowerAscii(c: char): (l: char)
    ensures 'A' <= c <= 'Z' ==> 'a' <= l <= 'z'
    ensures !('A' <= c <= 'Z') ==> l == c
  {
    if 'A' <= c <= 'Z' then (c as int + 32) as char else c
  }

  function LowerAsciiString(s: string): (l: string)
    ensures |l| == |s| && forall i :: 0 <= i < |s| ==> l[i] == LowerAscii(s[i])
  {
    seq(|s|, i requires 0 <= i < |s| => LowerAscii(s[i]))
  }

  /** `replace(/[^class]/g, '')`: the characters the predicate accepts, in order. */
  function Keep(s: string, keep: char -> bool): (r: string)
    ensures |r| <= |s|
    ensures forall i :: 0 <= i < |r| ==> keep(r[i])
    decreases |s|
  {
    if s == [] then [] else (if keep(s[0]) then [s[0]] else []) + Keep(s[1..], keep)
  }

  /** The filter drops exactly the characters the predicate rejects. */
  lemma {:induction false} KeepMembers(s: string, keep: char -> bool, c: char)
    ensures c in Keep(s, keep) <==> c in s && keep(c)
    decreases |s|
  {
    if s != [] {
      KeepMembers(s[1..], keep, c);
      assert s == [s[0]] + s[1..];
    }
  }

  /** A string the predicate accepts throughout passes the filter unchanged. */
  lemma {:induction false} KeepAll(s: string, keep: char -> bool)
    requires forall i :: 0 <= i < |s| ==> keep(s[i])
    ensures Keep(s, keep) == s
    decreases |s|
  {
    if s != [] {
      KeepAll(s[1..], keep);
    }
  }

  /** The number of occurrences of x, counted from the end. */
  function Count(s: string, x: char): (n: nat)
    ensures n <= |s|
    decreases |s|
  {
    if s == [] then 0 else Count(s[..|s| - 1], x) + (if s[|s| - 1] == x then 1 else 0)
  }

  lemma {:induction false} CountPositive(s: string, x: char)
    ensures Count(s, x) > 0 <==> x in s
    decreases |s|
  {
    if s != [] {
      var init := s[..|s| - 1];
      CountPositive(init, x);
      assert s == init + [s[|s| - 1]];
    }
  }

  /** No two positions hold x. */
  predicate AtMostOnce(s: string, x: char) {
    forall i, j :: 0 <= i < j < |s| && s[i] == x ==> s[j] != x
  }

  /** Counting at most one occurrence is the same as no two positions holding x. */
  lemma {:induction false} CountAtMostOne(s: string, x: char)
    ensures Count(s, x) <= 1 <==> AtMostOnce(s, x)
    decreases |s|
  {
    if s != [] {
      var init := s[..|s| - 1];
      var last := s[|s| - 1];
      CountAtMostOne(init, x);
      CountPositive(init, x);
      if last == x {
        if Count(s, x) <= 1 {
          assert x !in init;
          assert forall i :: 0 <= i < |init| ==> s[i] == init[i];
        } else {
          var i :| 0 <= i < |init| && init[i] == x;
          assert s[i] == x && s[|s| - 1] == x;
        }
      } else {
        forall i, j | 0 <= i < j < |init|
          ensures s[i] == init[i] && s[j] == init[j]
        {
        }
      }
    }
  }

  /** The first index of x, or -1 (`indexOf`). */
  function IndexOf(s: string, x: char): (k: int)
    ensures -1 <= k < |s|
    ensures k == -1 <==> x !in s
    ensures k >= 0 ==> s[k] == x && forall j :: 0 <= j < k ==> s[j] != x
    decreases |s|
  {
    if s == [] then -1
    else if s[0] == x then 0
    else var k := IndexOf(s[1..], x); if k == -1 then -1 else k + 1
  }

  // ---------------------------------------------------------------------
  // isValidDigitForBase
  // ---------------------------------------------------------------------

  /** `/^[01]$/`, `/^[0-7]$/`, `/^[0-9]$/` or `/^[0-9A-Fa-f]$/`: exactly one character of the alphabet. */
  function IsValidDigitForBase(digit: string, base: NumberBase): (ok: bool)
    ensures ok ==> |digit| == 1
  {
    |digit| == 1 &&
    var c := digit[0];
    match base
    case Binary => c == '0' || c == '1'
    case Octal => '0' <= c <= '7'
    case Decimal => '0' <= c <= '9'
    case Hexadecimal => ('0' <= c <= '9') || ('A' <= c <= 'F') || ('a' <= c <= 'f')
  }

  /** The accepted digits are the characters parseInt reads as a digit below the radix, in either case. */
  lemma DigitForBaseIsParseIntDigit(digit: string, base: NumberBase)
    ensures IsValidDigitForBase(digit, base) <==>
              |digit| == 1 && ProgrammerEngine.DigitValue(digit[0]) < ProgrammerEngine.Radix(base)
  {
    if |digit| == 1 {
      var c := digit[0];
      var d := ProgrammerEngine.DigitValue(c);
      if 'a' <= c <= 'z' {
        assert d == c as int - 'a' as int + 10;
      } else if 'A' <= c <= 'Z' {
        assert d == c as int - 'A' as int + 10;
      }
    }
  }

  // ---------------------------------------------------------------------
  // sanitizeMathExpression
  // ---------------------------------------------------------------------

  function TrimStart(s: string): (r: string)
    ensures |r| <= |s| && r == s[|s| - |r|..]
    ensures forall k :: 0 <= k < |s| - |r| ==> IsJsWhitespace(s[k])
    ensures r == [] || !IsJsWhitespace(r[0])
    decreases |s|
  {
    if |s| > 0 && IsJsWhitespace(s[0]) then TrimStart(s[1..]) else s
  }

  function TrimEnd(s: string): (r: string)
    ensures |r| <= |s| && r == s[..|r|]
    ensures forall k :: |r| <= k < |s| ==> IsJsWhitespace(s[k])
    ensures r == [] || !IsJsWhitespace(r[|r| - 1])
    decreases |s|
  {
    if |s| > 0 && IsJsWhitespace(s[|s| - 1]) then TrimEnd(s[..|s| - 1]) else s
  }

  /** r is s[a..a + |r|], and everything of s before and after that part is white space. */
  predicate StripsTo(s: string, a: int, r: string) {
    && 0 <= a && a + |r| <= |s| && r == s[a..a + |r|]
    && (forall k :: 0 <= k < a ==> IsJsWhitespace(s[k]))
    && (forall k :: a + |r| <= k < |s| ==> IsJsWhitespace(s[k]))
  }

  /** s is r with white space only added at its ends. */
  ghost predicate IsMiddleOf(s: string, r: string) {
    exists a :: StripsTo(s, a, r)
  }

  /** Cutting white space off the front of s and then off the back of the rest leaves a middle part of s. */
  lemma StripsToOfParts(s: string, t: string, r: string)
    requires |t| <= |s| && t == s[|s| - |t|..]
    requires forall k :: 0 <= k < |s| - |t| ==> IsJsWhitespace(s[k])
    requires |r| <= |t| && r == t[..|r|]
    requires forall k :: |r| <= k < |t| ==> IsJsWhitespace(t[k])
    requires t == [] || !IsJsWhitespace(t[0])
    requires r == [] || !IsJsWhitespace(r[|r| - 1])
    ensures r == [] || (!IsJsWhitespace(r[0]) && !IsJsWhitespace(r[|r| - 1]))
    ensures IsMiddleOf(s, r)
  {
    var a := |s| - |t|;
    forall k | a + |r| <= k < |s|
      ensures IsJsWhitespace(s[k])
    {
      assert s[k] == t[k - a];
    }
    assert StripsTo(s, a, r);
    if r != [] {
      assert r[0] == t[0];
    }
  }

  /** What cutting white space off both ends of s leaves. */
  lemma TrimStartThenEnd(s: string)
    ensures var r := TrimEnd(TrimStart(s));
      && (r == [] || (!IsJsWhitespace(r[0]) && !IsJsWhitespace(r[|r| - 1])))
      && IsMiddleOf(s, r)
  {
    StripsToOfParts(s, TrimStart(s), TrimEnd(TrimStart(s)));
  }

  /** `trim`: the longest middle part that neither starts nor ends with white space. */
  function Trim(s: string): (r: string)
    ensures r == [] || (!IsJsWhitespace(r[0]) && !IsJsWhitespace(r[|r| - 1]))
    ensures IsMiddleOf(s, r)
  {
    TrimStartThenEnd(s);
    TrimEnd(TrimStart(s))
  }

  /** Trimming keeps only characters of the string it trims. */
  lemma TrimKeepsChars(s: string)
    ensures forall c :: c in Trim(s) ==> c in s
  {
    MiddleKeepsChars(s, Trim(s));
  }

  lemma MiddleKeepsChars(s: string, r: string)
    requires IsMiddleOf(s, r)
    ensures forall c :: c in r ==> c in s
  {
    var a :| StripsTo(s, a, r);
    forall c | c in r
      ensures c in s
    {
      var i :| 0 <= i < |r| && r[i] == c;
      assert r[i] == s[a..a + |r|][i];
    }
  }

  /** A string with no white space at either end is its own trim. */
  lemma TrimmedIsFixed(s: string)
    requires s == [] || (!IsJsWhitespace(s[0]) && !IsJsWhitespace(s[|s| - 1]))
    ensures Trim(s) == s
  {
  }

  /** The ASCII-case-insensitive occurrence of the lower-case word w at position i. */
  predicate FoldedAt(s: string, i: nat, w: string) {
    i + |w| <= |s| && forall k :: 0 <= k < |w| ==> LowerAscii(s[i + k]) == w[k]
  }

  /** `.*?<\/script>` from j: the end of the first closing tag reached without crossing a line terminator. */
  function CloseTagEnd(s: string, j: nat): (e: Option<nat>)
    requires j <= |s|
    ensures e.Some? ==> j < e.value <= |s|
    decreases |s| - j
  {
    if FoldedAt(s, j, "</script>") then Some(j + 9)
    else if j == |s| || IsLineTerminator(s[j]) then None
    else CloseTagEnd(s, j + 1)
  }

  /** `.*?>.*?<\/script>` from j: try each `>` in turn, lazily, until a closing tag follows. */
  function OpenTagEnd(s: string, j: nat): (e: Option<nat>)
    requires j <= |s|
    ensures e.Some? ==> j < e.value <= |s|
    decreases |s| - j
  {
    if j == |s| then None
    else if s[j] == '>' && CloseTagEnd(s, j + 1).Some? then CloseTagEnd(s, j + 1)
    else if IsLineTerminator(s[j]) then None
    else OpenTagEnd(s, j + 1)
  }

  /** The end of a match of `/<script.*?>.*?<\/script>/i` starting at i, if there is one. */
  function ScriptBlockAt(s: string, i: nat): (e: Option<nat>)
    requires i <= |s|
    ensures e.Some? ==> i < e.value <= |s|
    ensures e.Some? ==> s[i] == '<'
  {
    if FoldedAt(s, i, "<script") then
      assert LowerAscii(s[i + 0]) == "<script"[0];
      OpenTagEnd(s, i + 7)
    else None
  }

  /** `replace(/<script.*?>.*?<\/script>/gi, '')` applied to s[i..]: matches are removed left to right. */
  function StripScriptsFrom(s: string, i: nat): (r: string)
    requires i <= |s|
    decreases |s| - i
  {
    if i == |s| then []
    else match ScriptBlockAt(s, i)
      case Some(e) => StripScriptsFrom(s, e)
      case None => [s[i]] + StripScriptsFrom(s, i + 1)
  }

  function StripScripts(s: string): string {
    StripScriptsFrom(s, 0)
  }

  /** Every match starts with `<`, so a string without one is left as it is. */
  lemma {:induction false} NoAngleNoScriptFrom(s: string, i: nat)
    requires i <= |s|
    requires '<' !in s
    ensures StripScriptsFrom(s, i) == s[i..]
    decreases |s| - i
  {
    if i < |s| {
      assert ScriptBlockAt(s, i).None? by {
        assert s[i] != '<';
      }
      NoAngleNoScriptFrom(s, i + 1);
      assert s[i..] == [s[i]] + s[i + 1..];
    }
  }

  lemma NoAngleNoScript(s: string)
    requires '<' !in s
    ensures StripScripts(s) == s
  {
    NoAngleNoScriptFrom(s, 0);
  }

  /** A string holding one script block between two digits. */
  const ScriptSample: string := "1<script>x</script>2"

  lemma SampleCloseTag()
    ensures CloseTagEnd(ScriptSample, 9) == Some(19)
  {
    var s := ScriptSample;
    assert LowerAscii(s[9 + 0]) != "</script>"[0];
    assert FoldedAt(s, 10, "</script>");
  }

  lemma SampleOpenTag()
    ensures OpenTagEnd(ScriptSample, 8) == Some(19)
  {
    SampleCloseTag();
    assert ScriptSample[8] == '>';
  }

  lemma SampleBlock()
    ensures ScriptBlockAt(ScriptSample, 1) == Some(19)
  {
    SampleOpenTag();
    assert FoldedAt(ScriptSample, 1, "<script");
  }

  lemma SampleEnds()
    ensures ScriptBlockAt(ScriptSample, 0) == None
    ensures StripScriptsFrom(ScriptSample, 19) == "2"
  {
    var s := ScriptSample;
    assert LowerAscii(s[0 + 0]) != "<script"[0];
    assert !FoldedAt(s, 19, "<script");
  }

  /** The pattern does match a script block: it removes the tags and what lies between them. */
  lemma StripScriptsExample()
    ensures StripScripts(ScriptSample) == "12"
  {
    SampleBlock();
    SampleEnds();
  }

  /** Drop every character outside the math class, then strip script blocks (never present by then), then trim. */
  function SanitizeMathExpression(expression: string): (r: string)
    ensures AllMathChars(r)
    ensures r == [] || (!IsJsWhitespace(r[0]) && !IsJsWhitespace(r[|r| - 1]))
    ensures r == Trim(Keep(expression, IsMathChar))
  {
    var sanitized := Keep(expression, IsMathChar);
    var noScript := StripScripts(sanitized);
    assert noScript == sanitized by {
      KeepMembers(expression, IsMathChar, '<');
      NoAngleNoScript(sanitized);
    }
    TrimKeepsChars(noScript);
    Trim(noScript)
  }

  /** The script removal never changes the filtered string: the filter has already dropped every `<`. */
  lemma ScriptRemovalIsDead(expression: string)
    ensures StripScripts(Keep(expression, IsMathChar)) == Keep(expression, IsMathChar)
  {
    KeepMembers(expression, IsMathChar, '<');
    NoAngleNoScript(Keep(expression, IsMathChar));
  }

  /** An expression of allowed characters with no white space at either end passes sanitization unchanged. */
  lemma SanitizeKeepsClean(s: string)
    requires AllMathChars(s)
    requires s == [] || (!IsJsWhitespace(s[0]) && !IsJsWhitespace(s[|s| - 1]))
    ensures SanitizeMathExpression(s) == s
  {
    assert Keep(s, IsMathChar) == s by {
      KeepAll(s, IsMathChar);
    }
    assert Trim(s) == s by {
      TrimmedIsFixed(s);
    }
  }

  /** Sanitizing a sanitized expression changes nothing. */
  lemma SanitizeIdempotent(expression: string)
    ensures SanitizeMathExpression(SanitizeMathExpression(expression)) == SanitizeMathExpression(expression)
  {
    SanitizeKeepsClean(SanitizeMathExpression(expression));
  }

  // ---------------------------------------------------------------------
  // isValidMathExpression
  // ---------------------------------------------------------------------

  /** The running count of the scanner: opening minus closing parentheses. */
  function Depth(s: string): int {
    Count(s, '(') - Count(s, ')')
  }

  /** No prefix closes more parentheses than it opens, and the whole string closes as many as it opens. */
  predicate Balanced(s: string) {
    (forall n :: 0 <= n <= |s| ==> Count(s[..n], ')') <= Count(s[..n], '('))
    && Count(s, '(') == Count(s, ')')
  }

  /** What the scanner and the pattern `^[class]+$` accept together. */
  predicate IsAcceptedExpression(s: string) {
    |s| > 0 && Balanced(s) && AllMathChars(s)
  }

  /** Count the parentheses left to right, failing as soon as the count drops below 0; then check the final count and the characters. */
  method IsValidMathExpression(expression: string) returns (ok: bool)
    ensures ok <==> IsAcceptedExpression(expression)
  {
    if |expression| == 0 {
      return false;
    }
    var parenCount := 0;
    for i := 0 to |expression|
      invariant parenCount == Depth(expression[..i])
      invariant forall n :: 0 <= n <= i ==> Count(expression[..n], ')') <= Count(expression[..n], '(')
    {
      var c := expression[i];
      if c == '(' {
        parenCount := parenCount + 1;
      }
      if c == ')' {
        parenCount := parenCount - 1;
      }
      assert expression[..i + 1][..i] == expression[..i];
      if parenCount < 0 {
        assert Count(expression[..i + 1], ')') > Count(expression[..i + 1], '(');
        return false;
      }
    }
    assert expression[..|expression|] == expression;
    if parenCount != 0 {
      return false;
    }
    ok := AllMathChars(expression);
  }

  /** Anything sanitization leaves that is non-empty and balanced passes validation. */
  lemma SanitizedBalancedIsAccepted(expression: string)
    requires SanitizeMathExpression(expression) != []
    requires Balanced(SanitizeMathExpression(expression))
    ensures IsAcceptedExpression(SanitizeMathExpression(expression))
  {
  }

  // ---------------------------------------------------------------------
  // limitInputLength
  // ---------------------------------------------------------------------

  /** `slice(0, maxLength)`: a negative end counts back from the end of the string. */
  function LimitInputLength(value: string, maxLength: int := 50): (r: string)
    ensures |r| <= |value| && r == value[..|r|]
    ensures maxLength >= 0 ==> |r| == if |value| < maxLength then |value| else maxLength
    ensures maxLength < 0 ==> |r| == if |value| + maxLength > 0 then |value| + maxLength else 0
  {
    var end := if maxLength < 0 then (if |value| + maxLength > 0 then |value| + maxLength else 0)
               else (if maxLength < |value| then maxLength else |value|);
    value[..end]
  }

  /** Limiting twice to the same non-negative length is limiting once. */
  lemma LimitIdempotent(value: string, maxLength: nat)
    ensures LimitInputLength(LimitInputLength(value, maxLength), maxLength) == LimitInputLength(value, maxLength)
  {
  }

  // ---------------------------------------------------------------------
  // validateFinancialInput
  // ---------------------------------------------------------------------

  /**
   * NaN and the infinities are rejected first; then a negative value unless the
   * field is "years" or "rate" (in any case); then a rate above 100.
   * Lower-casing only ASCII letters is exact here: no other character lower-cases
   * to a letter of "years" or "rate".
   */
  function ValidateFinancialInput(value: JsNumber, fieldName: string): (v: Verdict)
    ensures v.valid <==>
              value.Finite?
              && (value.value >= 0.0 || LowerAsciiString(fieldName) in {"years", "rate"})
              && !(LowerAsciiString(fieldName) == "rate" && value.value > 100.0)
    ensures v.valid <==> v.error.None?
    ensures !value.Finite? ==> v.error == Some(fieldName + " must be a valid number")
    ensures value.Finite? && value.value < 0.0 && LowerAsciiString(fieldName) !in {"years", "rate"} ==>
              v.error == Some(fieldName + " cannot be negative")
    ensures value.Finite? && LowerAsciiString(fieldName) == "rate" && value.value > 100.0 ==>
              v.error == Some("Interest rate seems unusually high (>100%)")
  {
    var name := LowerAsciiString(fieldName);
    if !value.Finite? then Verdict(false, Some(fieldName + " must be a valid number"))
    else if value.value < 0.0 && name !in ["years", "rate"] then Verdict(false, Some(fieldName + " cannot be negative"))
    else if name == "rate" && value.value > 100.0 then Verdict(false, Some("Interest rate seems unusually high (>100%)"))
    else Verdict(true, None)
  }

  /** Negative years and rates are allowed; a negative amount is named in the error; a rate above 100% is refused whatever its case. */
  lemma FinancialInputExamples()
    ensures ValidateFinancialInput(Finite(-2.0), "Years").valid
    ensures ValidateFinancialInput(Finite(-1.0), "principal").error == Some("principal cannot be negative")
    ensures !ValidateFinancialInput(Finite(150.0), "RATE").valid
  {
    assert LowerAsciiString("Years") == "years";
    var name := LowerAsciiString("principal");
    assert |name| == 9;
    assert name !in ["years", "rate"];
    assert "principal" + " cannot be negative" == "principal cannot be negative";
    assert LowerAsciiString("RATE") == "rate";
  }

  // ---------------------------------------------------------------------
  // validateDecimalInput
  // ---------------------------------------------------------------------

  /** `[\d.-]`: `\d` is the ASCII digits only. */
  predicate IsDecimalChar(c: char) {
    ('0' <= c <= '9') || c == '.' || c == '-'
  }

  /** The `{ valid, formatted? }` record of validateDecimalInput. */
  datatype DecimalVerdict = DecimalVerdict(valid: bool, formatted: Option<string>)

  /** A cleaned decimal string is acceptable: one point at most, and a minus sign only in front. */
  predicate IsWellFormedDecimal(s: string) {
    AtMostOnce(s, '.') && AtMostOnce(s, '-') && forall i :: 0 <= i < |s| && s[i] == '-' ==> i == 0
  }

  /** Clean to digits, `.` and `-`; refuse two points, two minus signs or a minus sign after the start. */
  function ValidateDecimalInput(value: string): (d: DecimalVerdict)
    ensures d.valid <==> d.formatted.Some?
    ensures d.valid <==> IsWellFormedDecimal(Keep(value, IsDecimalChar))
    ensures d.valid ==> d.formatted.value == Keep(value, IsDecimalChar)
  {
    var cleaned := Keep(value, IsDecimalChar);
    CountAtMostOne(cleaned, '.');
    CountAtMostOne(cleaned, '-');
    if Count(cleaned, '.') > 1 then DecimalVerdict(false, None)
    else if Count(cleaned, '-') > 1 then DecimalVerdict(false, None)
    else if '-' in cleaned && IndexOf(cleaned, '-') != 0 then DecimalVerdict(false, None)
    else DecimalVerdict(true, Some(cleaned))
  }

  /** The formatted string holds only digits, `.` and `-`, and keeps every one of those the input had. */
  lemma DecimalFormattedChars(value: string, c: char)
    requires ValidateDecimalInput(value).valid
    ensures c in ValidateDecimalInput(value).formatted.value <==> c in value && IsDecimalChar(c)
  {
    KeepMembers(value, IsDecimalChar, c);
  }

  // ---------------------------------------------------------------------
  // sanitizeUserInput
  // ---------------------------------------------------------------------

  /** `replace(/x/g, rep)`. */
  function ReplaceAll(s: string, x: char, rep: string): (r: string)
    ensures x !in rep ==> x !in r
    decreases |s|
  {
    if s == [] then [] else (if s[0] == x then rep else [s[0]]) + ReplaceAll(s[1..], x, rep)
  }

  /** A character in neither the input nor the replacement is not in the output. */
  lemma {:induction false} ReplaceKeepsAbsent(s: string, x: char, rep: string, y: char)
    requires y !in s && y !in rep
    ensures y !in ReplaceAll(s, x, rep)
    decreases |s|
  {
    if s != [] {
      ReplaceKeepsAbsent(s[1..], x, rep, y);
    }
  }

  lemma {:induction false} ReplaceAllSplits(a: string, b: string, x: char, rep: string)
    ensures ReplaceAll(a + b, x, rep) == ReplaceAll(a, x, rep) + ReplaceAll(b, x, rep)
    decreases |a|
  {
    if a == [] {
      assert a + b == b;
    } else {
      assert (a + b)[1..] == a[1..] + b;
      ReplaceAllSplits(a[1..], b, x, rep);
    }
  }

  lemma {:induction false} ReplaceAbsent(s: string, x: char, rep: string)
    requires x !in s
    ensures ReplaceAll(s, x, rep) == s
    decreases |s|
  {
    if s != [] {
      ReplaceAbsent(s[1..], x, rep);
    }
  }

  const EntityLt: string := "&lt;"
  const EntityGt: string := "&gt;"
  const EntityQuot: string := "&quot;"
  const EntityApos: string := "&#x27;"
  const EntitySlash: string := "&#x2F;"

  /** The five passes in their order: `<`, `>`, `"`, `'`, `/`. */
  function SanitizeUserInput(input: string): (r: string)
    ensures '<' !in r && '>' !in r && '"' !in r && '\'' !in r && '/' !in r
  {
    var a := ReplaceAll(input, '<', EntityLt);
    var b := ReplaceAll(a, '>', EntityGt);
    var c := ReplaceAll(b, '"', EntityQuot);
    var d := ReplaceAll(c, '\'', EntityApos);
    var r := ReplaceAll(d, '/', EntitySlash);
    assert '<' !in r by {
      ReplaceKeepsAbsent(a, '>', EntityGt, '<');
      ReplaceKeepsAbsent(b, '"', EntityQuot, '<');
      ReplaceKeepsAbsent(c, '\'', EntityApos, '<');
      ReplaceKeepsAbsent(d, '/', EntitySlash, '<');
    }
    assert '>' !in r by {
      ReplaceKeepsAbsent(b, '"', EntityQuot, '>');
      ReplaceKeepsAbsent(c, '\'', EntityApos, '>');
      ReplaceKeepsAbsent(d, '/', EntitySlash, '>');
    }
    assert '"' !in r by {
      ReplaceKeepsAbsent(c, '\'', EntityApos, '"');
      ReplaceKeepsAbsent(d, '/', EntitySlash, '"');
    }
    assert '\'' !in r by {
      ReplaceKeepsAbsent(d, '/', EntitySlash, '\'');
    }
    r
  }

  /** The escape of one character, the reference the five passes are compared with. */
  function EscapeChar(c: char): (e: string)
    ensures '<' !in e && '>' !in e && '"' !in e && '\'' !in e && '/' !in e
  {
    if c == '<' then EntityLt
    else if c == '>' then EntityGt
    else if c == '"' then EntityQuot
    else if c == '\'' then EntityApos
    else if c == '/' then EntitySlash
    else [c]
  }

  function Escape(s: string): string
    decreases |s|
  {
    if s == [] then [] else EscapeChar(s[0]) + Escape(s[1..])
  }

  lemma SanitizeUserInputSplits(a: string, b: string)
    ensures SanitizeUserInput(a + b) == SanitizeUserInput(a) + SanitizeUserInput(b)
  {
    ReplaceAllSplits(a, b, '<', EntityLt);
    var a1, b1 := ReplaceAll(a, '<', EntityLt), ReplaceAll(b, '<', EntityLt);
    ReplaceAllSplits(a1, b1, '>', EntityGt);
    var a2, b2 := ReplaceAll(a1, '>', EntityGt), ReplaceAll(b1, '>', EntityGt);
    ReplaceAllSplits(a2, b2, '"', EntityQuot);
    var a3, b3 := ReplaceAll(a2, '"', EntityQuot), ReplaceAll(b2, '"', EntityQuot);
    ReplaceAllSplits(a3, b3, '\'', EntityApos);
    var a4, b4 := ReplaceAll(a3, '\'', EntityApos), ReplaceAll(b3, '\'', EntityApos);
    ReplaceAllSplits(a4, b4, '/', EntitySlash);
  }

  /** One pass over a string that is either the replaced character alone or free of it. */
  lemma ReplaceStep(t: string, x: char, rep: string)
    requires t == [x] || x !in t
    ensures ReplaceAll(t, x, rep) == if t == [x] then rep else t
  {
    if t == [x] {
      assert t[1..] == [];
    } else {
      ReplaceAbsent(t, x, rep);
    }
  }

  /** The five passes, given their intermediate results. */
  lemma FivePasses(input: string, a: string, b: string, c: string, d: string, r: string)
    requires ReplaceAll(input, '<', EntityLt) == a
    requires ReplaceAll(a, '>', EntityGt) == b
    requires ReplaceAll(b, '"', EntityQuot) == c
    requires ReplaceAll(c, '\'', EntityApos) == d
    requires ReplaceAll(d, '/', EntitySlash) == r
    ensures SanitizeUserInput(input) == r
  {
  }

  lemma EscapesLt()
    ensures SanitizeUserInput(['<']) == EntityLt
  {
    var t, e := ['<'], EntityLt;
    assert '>' !in e && '"' !in e && '\'' !in e && '/' !in e;
    ReplaceStep(t, '<', e);
    ReplaceAbsent(e, '>', EntityGt);
    ReplaceAbsent(e, '"', EntityQuot);
    ReplaceAbsent(e, '\'', EntityApos);
    ReplaceAbsent(e, '/', EntitySlash);
    FivePasses(t, e, e, e, e, e);
  }

  lemma EscapesGt()
    ensures SanitizeUserInput(['>']) == EntityGt
  {
    var t, e := ['>'], EntityGt;
    assert '"' !in e && '\'' !in e && '/' !in e;
    ReplaceAbsent(t, '<', EntityLt);
    ReplaceStep(t, '>', e);
    ReplaceAbsent(e, '"', EntityQuot);
    ReplaceAbsent(e, '\'', EntityApos);
    ReplaceAbsent(e, '/', EntitySlash);
    FivePasses(t, t, e, e, e, e);
  }

  lemma EscapesQuot()
    ensures SanitizeUserInput(['"']) == EntityQuot
  {
    var t, e := ['"'], EntityQuot;
    assert '\'' !in e && '/' !in e;
    ReplaceAbsent(t, '<', EntityLt);
    ReplaceAbsent(t, '>', EntityGt);
    ReplaceStep(t, '"', e);
    ReplaceAbsent(e, '\'', EntityApos);
    ReplaceAbsent(e, '/', EntitySlash);
    FivePasses(t, t, t, e, e, e);
  }

  lemma EscapesApos()
    ensures SanitizeUserInput(['\'']) == EntityApos
  {
    var t, e := ['\''], EntityApos;
    assert '/' !in e;
    ReplaceAbsent(t, '<', EntityLt);
    ReplaceAbsent(t, '>', EntityGt);
    ReplaceAbsent(t, '"', EntityQuot);
    ReplaceStep(t, '\'', e);
    ReplaceAbsent(e, '/', EntitySlash);
    FivePasses(t, t, t, t, e, e);
  }

  lemma EscapesSlash()
    ensures SanitizeUserInput(['/']) == EntitySlash
  {
    var t, e := ['/'], EntitySlash;
    ReplaceAbsent(t, '<', EntityLt);
    ReplaceAbsent(t, '>', EntityGt);
    ReplaceAbsent(t, '"', EntityQuot);
    ReplaceAbsent(t, '\'', EntityApos);
    ReplaceStep(t, '/', e);
    FivePasses(t, t, t, t, t, e);
  }

  lemma EscapesOther(c: char)
    requires c !in {'<', '>', '"', '\'', '/'}
    ensures SanitizeUserInput([c]) == [c]
  {
    var t := [c];
    ReplaceAbsent(t, '<', EntityLt);
    ReplaceAbsent(t, '>', EntityGt);
    ReplaceAbsent(t, '"', EntityQuot);
    ReplaceAbsent(t, '\'', EntityApos);
    ReplaceAbsent(t, '/', EntitySlash);
    FivePasses(t, t, t, t, t, t);
  }

  lemma SanitizeUserInputChar(c: char)
    ensures SanitizeUserInput([c]) == EscapeChar(c)
  {
    if c == '<' {
      EscapesLt();
    } else if c == '>' {
      EscapesGt();
    } else if c == '"' {
      EscapesQuot();
    } else if c == '\'' {
      EscapesApos();
    } else if c == '/' {
      EscapesSlash();
    } else {
      EscapesOther(c);
    }
  }

  /** The five passes escape each character on its own: no pass rewrites what an earlier one wrote. */
  lemma {:induction false} SanitizeUserInputIsEscape(s: string)
    ensures SanitizeUserInput(s) == Escape(s)
    decreases |s|
  {
    if s == [] {
    } else {
      assert s == [s[0]] + s[1..];
      SanitizeUserInputSplits([s[0]], s[1..]);
      SanitizeUserInputChar(s[0]);
      SanitizeUserInputIsEscape(s[1..]);
    }
  }

  /** `&` is not escaped, so two inputs can give the same output: the escaping cannot be undone. */
  lemma SanitizeUserInputNotInjective()
    ensures SanitizeUserInput("<") == SanitizeUserInput(EntityLt)
  {
    SanitizeUserInputChar('<');
    assert '<' !in EntityLt && '>' !in EntityLt && '"' !in EntityLt && '\'' !in EntityLt && '/' !in EntityLt;
    ReplaceAbsent(EntityLt, '<', EntityLt);
    ReplaceAbsent(EntityLt, '>', EntityGt);
    ReplaceAbsent(EntityLt, '"', EntityQuot);
    ReplaceAbsent(EntityLt, '\'', EntityApos);
    ReplaceAbsent(EntityLt, '/', EntitySlash);
  }

  // ---------------------------------------------------------------------
  // validateGraphRange
  // ---------------------------------------------------------------------

  /** Checked in this order: finite bounds, min below max, a span of at least 0.001, a span of at most 1,000,000. */
  function ValidateGraphRange(min: JsNumber, max: JsNumber): (v: Verdict)
    ensures v.valid <==>
              min.Finite? && max.Finite? && min.value < max.value
              && 0.001 <= max.value - min.value <= 1000000.0
    ensures v.valid <==> v.error.None?
    ensures !(min.Finite? && max.Finite?) ==> v.error == Some("Range values must be finite numbers")
    ensures min.Finite? && max.Finite? && min.value >= max.value ==>
              v.error == Some("Minimum must be less than maximum")
    ensures min.Finite? && max.Finite? && min.value < max.value && max.value - min.value < 0.001 ==>
              v.error == Some("Range is too small")
    ensures min.Finite? && max.Finite? && max.value - min.value > 1000000.0 ==>
              v.error == Some("Range is too large")
  {
    if !min.Finite? || !max.Finite? then Verdict(false, Some("Range values must be finite numbers"))
    else if min.value >= max.value then Verdict(false, Some("Minimum must be less than maximum"))
    else if max.value - min.value < 0.001 then Verdict(false, Some("Range is too small"))
    else if Abs(max.value - min.value) > 1000000.0 then Verdict(false, Some("Range is too large"))
    else Verdict(true, None)
  }

  function Abs(x: real): (a: real)
    ensures a >= 0.0 && (a == x || a == -x)
  {
    if x < 0.0 then -x else x
  }
}
