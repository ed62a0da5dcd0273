/**
 * Character classes and the standard string operations the core relies on:
 * `char::is_whitespace`, `char::is_alphanumeric`, `str::trim`, `str::lines`,
 * `str::split_whitespace`, and a stand-in for "this token parses as an `f64`".
 */
module Text {
  import opened Base

  predicate IsAsciiDigit(c: char) { '0' <= c <= '9' }

  predicate IsAsciiLetter(c: char) { 'a' <= c <= 'z' || 'A' <= c <= 'Z' }

  /**
   * `char::is_alphanumeric`, exact up to U+00FF (ASCII letters and digits, the Latin-1
   * letters and the Latin-1 numeric signs); characters above U+00FF count as not
   * alphanumeric here.
   */
  predicate IsAlphanumeric(c: char)
  {
    || IsAsciiLetter(c) || IsAsciiDigit(c)
    || c == 'ª' || c == '²' || c == '³' || c == 'µ'
    || c == '¹' || c == 'º' || '¼' <= c <= '¾'
    || ('À' <= c <= 'ÿ' && c != '×' && c != '÷')
  }

  /** `char::is_whitespace`: the Unicode White_Space property. */
  predicate IsWhitespace(c: char)
  {
    || '\U{0009}' <= c <= '\U{000D}' || c == ' ' || c == '\U{0085}' || c == '\U{00A0}'
    || c == '\U{1680}' || '\U{2000}' <= c <= '\U{200A}' || c == '\U{2028}' || c == '\U{2029}'
    || c == '\U{202F}' || c == '\U{205F}' || c == '\U{3000}'
  }

  /** Within ASCII, the alphanumeric characters are exactly the letters and the digits. */
  lemma AlphanumericAscii(c: char)
    requires c <= '\U{007F}'
    ensures IsAlphanumeric(c) <==> IsAsciiLetter(c) || IsAsciiDigit(c)
  {
  }

  /**
   * Within ASCII, the whitespace characters are the space and `'\t'` to `'\r'`; no
   * whitespace character is alphanumeric, `'_'` or `'-'`.
   */
  lemma WhitespaceAscii(c: char)
    ensures c <= '\U{007F}' ==> (IsWhitespace(c) <==> c == ' ' || '\t' <= c <= '\r')
    ensures IsWhitespace(c) ==> !IsAlphanumeric(c) && c != '_' && c != '-'
  {
  }

  /** `char::to_ascii_lowercase`. */
  function ToAsciiLowercase(c: char): (r: char)
    ensures IsAlphanumeric(c) ==> IsAlphanumeric(r)
    ensures IsAsciiDigit(r) <==> IsAsciiDigit(c)
    ensures c == '_' ==> r == '_'
  {
    if 'A' <= c <= 'Z' then (c as int + 32) as char else c
  }

  predicate NoWhitespace(s: string) {
    forall i :: 0 <= i < |s| ==> !IsWhitespace(s[i])
  }

  // ---------------------------------------------------------------- trim

  /** `str::trim_start`: drop leading whitespace. */
  function TrimStart(s: string): (r: string)
    ensures |r| <= |s| && r == s[|s| - |r|..]
    ensures r == [] || !IsWhitespace(r[0])
    ensures forall i :: 0 <= i < |s| - |r| ==> IsWhitespace(s[i])
  {
    if s != [] && IsWhitespace(s[0]) then TrimStart(s[1..]) else s
  }

  /** `str::trim_end`: drop trailing whitespace. */
  function TrimEnd(s: string): (r: string)
    ensures |r| <= |s| && r == s[..|r|]
    ensures r == [] || !IsWhitespace(r[|r| - 1])
    ensures forall i :: |r| <= i < |s| ==> IsWhitespace(s[i])
  {
    if s != [] && IsWhitespace(s[|s| - 1]) then TrimEnd(s[..|s| - 1]) else s
  }

  /** `str::trim`. */
  function Trim(s: string): (r: string)
    ensures r == [] || (!IsWhitespace(r[0]) && !IsWhitespace(r[|r| - 1]))
  {
    TrimEnd(TrimStart(s))
  }

  /** A string that neither starts nor ends with whitespace is its own trim. */
  lemma TrimOfTrimmed(s: string)
    requires s == [] || (!IsWhitespace(s[0]) && !IsWhitespace(s[|s| - 1]))
    ensures Trim(s) == s
  {
  }

  // ---------------------------------------------------------------- lines

  /** Index of the first `'\n'` in `s`, or `|s|` when there is none. */
  function NewlineIndex(s: string): (i: nat)
    ensures i <= |s|
    ensures forall k :: 0 <= k < i ==> s[k] != '\n'
    ensures i < |s| ==> s[i] == '\n'
  {
    if s == [] then 0 else if s[0] == '\n' then 0 else 1 + NewlineIndex(s[1..])
  }

  /**
   * `str::lines`: the pieces between line feeds; a `"\r\n"` ending loses its `'\r'`, and a
   * final line ending does not start an empty last line.
   */
  function Lines(s: string): (ls: seq<string>)
    ensures forall k :: 0 <= k < |ls| ==> '\n' !in ls[k]
    decreases |s|
  {
    if s == [] then []
    else
      var i := NewlineIndex(s);
      if i == |s| then [s]
      else
        var seg := s[..i];
        var line := if seg != [] && seg[|seg| - 1] == '\r' then seg[..|seg| - 1] else seg;
        assert forall k :: 0 <= k < |line| ==> line[k] == s[k];
        [line] + Lines(s[i + 1..])
  }

  /** `join("\n")`. */
  function JoinLines(ls: seq<string>): string
  {
    if ls == [] then [] else if |ls| == 1 then ls[0] else ls[0] + "\n" + JoinLines(ls[1..])
  }

  /** Joining lines that hold no line feed and do not end in `'\r'`, then splitting, gives them back. */
  lemma {:induction false} LinesOfJoin(ls: seq<string>)
    requires forall k :: 0 <= k < |ls| ==> ls[k] != [] && '\n' !in ls[k] && ls[k][|ls[k]| - 1] != '\r'
    ensures Lines(JoinLines(ls)) == ls
  {
    if ls != [] {
      var a := ls[0];
      assert a != [] && '\n' !in a && a[|a| - 1] != '\r';
      if |ls| == 1 {
        assert NewlineIndex(a) == |a|;
        assert Lines(JoinLines(ls)) == Lines(a) == [a];
      } else {
        var tail := ls[1..];
        assert JoinLines(ls) == a + "\n" + JoinLines(tail);
        LinesOfLine(a, JoinLines(tail));
        LinesOfJoin(tail);
        assert ls == [a] + tail;
      }
    }
  }

  /** A line with no line feed and no final `'\r'`, then a line feed: the first line of the result. */
  lemma LinesOfLine(a: string, rest: string)
    requires a != [] && '\n' !in a && a[|a| - 1] != '\r'
    ensures Lines(a + "\n" + rest) == [a] + Lines(rest)
  {
    var s := a + "\n" + rest;
    NewlineIndexAfter(a, rest);
    var i := NewlineIndex(s);
    assert i == |a| < |s|;
    var seg := s[..i];
    assert seg == a;
    assert s[i + 1..] == rest;
    assert Lines(s) == [seg] + Lines(s[i + 1..]);
  }

  lemma NewlineIndexAfter(a: string, rest: string)
    requires '\n' !in a
    ensures NewlineIndex(a + "\n" + rest) == |a|
  {
    var s := a + "\n" + rest;
    assert forall k :: 0 <= k < |a| ==> s[k] == a[k];
    assert s[|a|] == '\n';
  }

  // ---------------------------------------------------------------- words and numbers

  /** Length of the run of non-whitespace characters that starts `s`. */
  function WordLength(s: string): (n: nat)
    ensures n <= |s|
    ensures forall i :: 0 <= i < n ==> !IsWhitespace(s[i])
    ensures n < |s| ==> IsWhitespace(s[n])
  {
    if s == [] || IsWhitespace(s[0]) then 0 else 1 + WordLength(s[1..])
  }

  /** `str::split_whitespace`: the maximal runs of non-whitespace characters. */
  function SplitWhitespace(s: string): (ws: seq<string>)
    ensures forall k :: 0 <= k < |ws| ==> ws[k] != [] && NoWhitespace(ws[k])
    decreases |s|
  {
    if s == [] then []
    else if IsWhitespace(s[0]) then SplitWhitespace(s[1..])
    else
      var n := WordLength(s);
      [s[..n]] + SplitWhitespace(s[n..])
  }

  /** Words joined by single spaces. */
  function JoinWords(ws: seq<string>): string
  {
    if ws == [] then [] else if |ws| == 1 then ws[0] else ws[0] + " " + JoinWords(ws[1..])
  }

  /** Splitting words joined by spaces gives the words back. */
  lemma {:induction false} SplitJoinWords(ws: seq<string>)
    requires forall k :: 0 <= k < |ws| ==> ws[k] != [] && NoWhitespace(ws[k])
    ensures SplitWhitespace(JoinWords(ws)) == ws
  {
    if ws != [] {
      var w := ws[0];
      WordLengthOfWord(w, if |ws| == 1 then [] else " " + JoinWords(ws[1..]));
      if |ws| == 1 {
        assert w + [] == w;
        assert w[|w|..] == [];
      } else {
        var s := w + " " + JoinWords(ws[1..]);
        assert s[..|w|] == w;
        assert s[|w|..] == " " + JoinWords(ws[1..]);
        assert (" " + JoinWords(ws[1..]))[1..] == JoinWords(ws[1..]);
        SplitJoinWords(ws[1..]);
      }
    }
  }

  lemma WordLengthOfWord(w: string, rest: string)
    requires w != [] && NoWhitespace(w)
    requires rest == [] || IsWhitespace(rest[0])
    ensures WordLength(w + rest) == |w|
  {
    var s := w + rest;
    assert forall i :: 0 <= i < |w| ==> s[i] == w[i];
    assert rest != [] ==> s[|w|] == rest[0];
  }

  predicate AllDigits(s: string) {
    forall i :: 0 <= i < |s| ==> IsAsciiDigit(s[i])
  }

  /** Lower-case ASCII form, for the case-insensitive spellings of infinity and NaN. */
  function AsciiLower(s: string): string {
    seq(|s|, i requires 0 <= i < |s| => ToAsciiLowercase(s[i]))
  }

  /** Digits with at most one decimal point and at least one digit. */
  predicate IsMantissa(m: string) {
    var d := NewDotIndex(m);
    || (d == |m| && AllDigits(m) && m != [])
    || (d < |m| && AllDigits(m[..d]) && AllDigits(m[d + 1..]) && |m| >= 2)
  }

  function NewDotIndex(s: string): (i: nat)
    ensures i <= |s|
    ensures i < |s| ==> s[i] == '.'
  {
    if s == [] then 0 else if s[0] == '.' then 0 else 1 + NewDotIndex(s[1..])
  }

  function ExponentIndex(s: string): (i: nat)
    ensures i <= |s|
    ensures i < |s| ==> s[i] == 'e' || s[i] == 'E'
  {
    if s == [] then 0 else if s[0] == 'e' || s[0] == 'E' then 0 else 1 + ExponentIndex(s[1..])
  }

  /**
   * Stand-in for "`str::parse::<f64>` succeeds": an optional sign, then a decimal number with
   * an optional exponent, or one of `inf`, `infinity`, `nan` in any case.
   */
  predicate IsNumeric(t: string) {
    var u := if t != [] && (t[0] == '+' || t[0] == '-') then t[1..] else t;
    || AsciiLower(u) in {"inf", "infinity", "nan"}
    || IsDecimal(u)
  }

  /** A mantissa, then optionally an `e` or `E` and an exponent. */
  predicate IsDecimal(u: string) {
    var e := ExponentIndex(u);
    IsMantissa(u[..e]) && (e == |u| || IsExponent(u[e + 1..]))
  }

  /** An optional sign, then at least one digit. */
  predicate IsExponent(exp: string) {
    var digits := if exp != [] && (exp[0] == '+' || exp[0] == '-') then exp[1..] else exp;
    digits != [] && AllDigits(digits)
  }

  /** Digits never hold whitespace, and neither does a mantissa. */
  lemma MantissaNoWhitespace(m: string)
    requires IsMantissa(m)
    ensures NoWhitespace(m)
  {
    var d := NewDotIndex(m);
    forall i | 0 <= i < |m| ensures !IsWhitespace(m[i]) {
      if i < d { assert m[..d][i] == m[i]; }
      else if i > d { assert m[d + 1..][i - d - 1] == m[i]; }
    }
  }

  /** A decimal number with an optional exponent never holds whitespace. */
  lemma DecimalNoWhitespace(u: string)
    requires IsDecimal(u)
    ensures NoWhitespace(u)
  {
    var e := ExponentIndex(u);
    var m := u[..e];
    MantissaNoWhitespace(m);
    if e < |u| {
      var exp := u[e + 1..];
      ExponentNoWhitespace(exp);
      forall i | 0 <= i < |u| ensures !IsWhitespace(u[i]) {
        if i < e {
          assert u[i] == m[i];
        } else if i > e {
          assert u[i] == exp[i - e - 1];
        }
      }
    } else {
      assert u == m;
    }
  }

  /** An exponent, an optional sign and then digits, never holds whitespace. */
  lemma ExponentNoWhitespace(exp: string)
    requires IsExponent(exp)
    ensures NoWhitespace(exp)
  {
    if exp[0] == '+' || exp[0] == '-' {
      forall i | 1 <= i < |exp| ensures !IsWhitespace(exp[i]) { assert exp[i] == exp[1..][i - 1]; }
    }
  }

  /** A number token never holds whitespace. */
  lemma NumericHasNoWhitespace(t: string)
    requires IsNumeric(t)
    ensures NoWhitespace(t)
  {
    var u := if t != [] && (t[0] == '+' || t[0] == '-') then t[1..] else t;
    if AsciiLower(u) in {"inf", "infinity", "nan"} {
      forall i | 0 <= i < |u| ensures !IsWhitespace(u[i]) {
        assert ToAsciiLowercase(u[i]) == AsciiLower(u)[i];
      }
    } else {
      DecimalNoWhitespace(u);
    }
    if t != [] && (t[0] == '+' || t[0] == '-') {
      forall i | 1 <= i < |t| ensures !IsWhitespace(t[i]) { assert t[i] == u[i - 1]; }
    }
  }
}
