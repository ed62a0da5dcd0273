/**
 * The naming convention shared by the linter and the fixer: a valid element name is
 * non-empty, made of alphanumeric characters and underscores, and does not start with
 * an ASCII digit. `FixedName` is the renaming the fixer applies to names that break it.
 */
module Names {
  import opened Text

  predicate IsNameChar(c: char) { IsAlphanumeric(c) || c == '_' }

  predicate AllNameChars(s: string) {
    forall i :: 0 <= i < |s| ==> IsNameChar(s[i])
  }

  /** The convention read head first: a letter or an underscore, then name characters only. */
  predicate IsValidName(name: string): (b: bool)
    ensures b <==> && name != []
                   && ((IsAlphanumeric(name[0]) && !IsAsciiDigit(name[0])) || name[0] == '_')
                   && AllNameChars(name[1..])
  {
    assert name != [] ==> forall i :: 1 <= i < |name| ==> name[1..][i - 1] == name[i];
    name != [] && AllNameChars(name) && !IsAsciiDigit(name[0])
  }

  /** What the first character becomes: an underscore before a digit, then the character itself if it may stay. */
  function FixFirst(c: char): (r: string)
    ensures IsAsciiDigit(c) ==> r == ['_', c]
  {
    (if IsAsciiDigit(c) then "_" else "") + (if IsNameChar(c) then [ToAsciiLowercase(c)] else "")
  }

  /** What any later character becomes: kept (lower-cased), turned into `_`, or dropped. */
  function FixChar(c: char): (r: string)
    ensures |r| <= 1
    ensures IsNameChar(c) ==> r == [ToAsciiLowercase(c)]
  {
    if IsNameChar(c) then [ToAsciiLowercase(c)]
    else if IsWhitespace(c) || c == '-' then "_"
    else ""
  }

  /**
   * The first `i` characters of a non-empty name, rewritten: the first by `FixFirst`, each
   * later one by `FixChar`, left to right, as the loop of `fix_name` builds them.
   */
  function RewrittenPrefix(name: string, i: nat): string
    requires 1 <= i <= |name|
  {
    if i == 1 then FixFirst(name[0]) else RewrittenPrefix(name, i - 1) + FixChar(name[i - 1])
  }

  /** Every character of a name rewritten, before an empty result is replaced. */
  function Rewritten(name: string): string {
    if name == [] then [] else RewrittenPrefix(name, |name|)
  }

  /** Every character the rewrite keeps or produces is a name character. */
  lemma {:induction false} RewrittenPrefixNameChars(name: string, i: nat)
    requires 1 <= i <= |name|
    ensures AllNameChars(RewrittenPrefix(name, i))
  {
    if i == 1 {
      if IsNameChar(name[0]) { assert IsNameChar(ToAsciiLowercase(name[0])); }
    } else {
      RewrittenPrefixNameChars(name, i - 1);
      if IsNameChar(name[i - 1]) { assert IsNameChar(ToAsciiLowercase(name[i - 1])); }
    }
  }

  /** The name `fix_name` returns as written: `"unnamed"` when nothing survives. */
  function FixedName(name: string): (r: string)
    ensures r != [] && AllNameChars(r)
    ensures name != [] && IsAsciiDigit(name[0]) ==> r[0] == '_'
    ensures !IsValidName(name) ==> r != name
  {
    var f := Rewritten(name);
    assert AllNameChars(f) by {
      if name != [] { RewrittenPrefixNameChars(name, |name|); }
    }
    assert name != [] && IsAsciiDigit(name[0]) ==> |f| >= 2 && f[0] == '_' by {
      if name != [] && IsAsciiDigit(name[0]) { RewrittenPrefixStart(name, |name|); }
    }
    if f == [] then "unnamed" else f
  }

  /** A name that starts with a digit is rewritten to one that starts with an underscore. */
  lemma {:induction false} RewrittenPrefixStart(name: string, i: nat)
    requires 1 <= i <= |name| && IsAsciiDigit(name[0])
    ensures |RewrittenPrefix(name, i)| >= 2 && RewrittenPrefix(name, i)[0] == '_'
  {
    if i > 1 {
      RewrittenPrefixStart(name, i - 1);
    }
  }

  /** Name characters are kept one for one, lower-cased. */
  lemma {:induction false} RewrittenPrefixOfNameChars(name: string, i: nat)
    requires 1 <= i <= |name| && AllNameChars(name) && !IsAsciiDigit(name[0])
    ensures RewrittenPrefix(name, i) == AsciiLower(name[..i])
  {
    if i > 1 {
      RewrittenPrefixOfNameChars(name, i - 1);
      assert IsNameChar(name[i - 1]);
      assert AsciiLower(name[..i]) == AsciiLower(name[..i - 1]) + [ToAsciiLowercase(name[i - 1])];
    } else {
      assert IsNameChar(name[0]);
      assert AsciiLower(name[..1]) == [ToAsciiLowercase(name[0])];
    }
  }

  /** A valid name with no upper-case ASCII letter is left exactly as it is. */
  lemma FixedNameOfValid(name: string)
    requires IsValidName(name)
    ensures FixedName(name) == AsciiLower(name)
    ensures (forall i :: 0 <= i < |name| ==> !('A' <= name[i] <= 'Z')) ==> FixedName(name) == name
  {
    RewrittenPrefixOfNameChars(name, |name|);
    assert name[..|name|] == name;
  }

  /**
   * As written, renaming can produce an invalid name: a leading character that is dropped
   * lets a digit become the first character.
   */
  lemma FixedNameCanBeInvalid()
    ensures FixedName("-1") == "1"
    ensures !IsValidName(FixedName("-1"))
  {
    assert RewrittenPrefix("-1", 2) == FixFirst('-') + FixChar('1');
  }

  /**
   * The evidently intended renaming: the same rewrite, with an underscore in front when
   * the result would start with a digit. It always yields a valid name, and it agrees
   * with `FixedName` wherever that one already does.
   */
  function FixedNameCorrected(name: string): (r: string)
    ensures IsValidName(r)
    ensures IsValidName(FixedName(name)) ==> r == FixedName(name)
    ensures !IsValidName(name) ==> r != name
  {
    var f := FixedName(name);
    if IsAsciiDigit(f[0]) then "_" + f else f
  }

  /** `fix_name`, with its loop: a name of name characters, and a different one when the input is invalid. */
  method FixName(name: string) returns (fixed: string)
    ensures fixed == FixedName(name)
  {
    fixed := [];
    if |name| > 0 {
      var first := name[0];
      if IsAsciiDigit(first) {
        fixed := fixed + "_";
      }
      if IsAlphanumeric(first) || first == '_' {
        fixed := fixed + [ToAsciiLowercase(first)];
      }
      assert fixed == RewrittenPrefix(name, 1);
      var i := 1;
      while i < |name|
        invariant 1 <= i <= |name|
        invariant fixed == RewrittenPrefix(name, i)
      {
        var ch := name[i];
        if IsAlphanumeric(ch) || ch == '_' {
          fixed := fixed + [ToAsciiLowercase(ch)];
        } else if IsWhitespace(ch) || ch == '-' {
          fixed := fixed + "_";
        }
        assert fixed == RewrittenPrefix(name, i + 1);
        i := i + 1;
      }
    }
    assert fixed == Rewritten(name);
    if fixed == [] {
      fixed := "unnamed";
    }
  }
}
