/** String helpers: the JavaScript `trim` restricted to ASCII whitespace, and the
    competence code format `^C[1-8]$`. */
module Text {

  /** ASCII whitespace as `String.prototype.trim` removes it: space, tab, line feed,
      vertical tab, form feed and carriage return. */
  predicate IsSpace(c: char) {
    c == ' ' || c == '\t' || c == '\n' || c == '\U{000B}' || c == '\U{000C}' || c == '\r'
  }

  /** The JavaScript test `!s.trim()`: every character is whitespace (see `BlankIffTrimEmpty`). */
  predicate IsBlank(s: string) {
    forall k :: 0 <= k < |s| ==> IsSpace(s[k])
  }

  /** Neither the first nor the last character is whitespace. */
  predicate IsTrimmed(s: string) {
    s == [] || (!IsSpace(s[0]) && !IsSpace(s[|s| - 1]))
  }

  /** `s` without its leading whitespace. */
  function TrimStart(s: string): (r: string)
    ensures |r| <= |s| && r == s[|s| - |r|..]
    ensures IsBlank(s[..|s| - |r|])
    ensures r == [] || !IsSpace(r[0])
  {
    if |s| > 0 && IsSpace(s[0]) then
      var r := TrimStart(s[1..]);
      assert s[..|s| - |r|] == [s[0]] + s[1..][..|s| - 1 - |r|];
      r
    else s
  }

  /** `s` without its trailing whitespace. */
  function TrimEnd(s: string): (r: string)
    ensures |r| <= |s| && r == s[..|r|]
    ensures IsBlank(s[|r|..])
    ensures r == [] || !IsSpace(r[|r| - 1])
  {
    if |s| > 0 && IsSpace(s[|s| - 1]) then
      var r := TrimEnd(s[..|s| - 1]);
      assert s[|r|..] == s[..|s| - 1][|r|..] + [s[|s| - 1]];
      r
    else s
  }

  /** A suffix `a` of `s` with a blank prefix before it and a non-space first character,
      cut to a prefix `r` with a blank tail after it and a non-space last character, is a
      trimmed slice of `s` with blank ends on both sides. */
  lemma TrimSlice(s: string, a: string, r: string)
    requires |a| <= |s| && a == s[|s| - |a|..] && IsBlank(s[..|s| - |a|])
    requires a == [] || !IsSpace(a[0])
    requires |r| <= |a| && r == a[..|r|] && IsBlank(a[|r|..])
    requires r == [] || !IsSpace(r[|r| - 1])
    ensures r == s[|s| - |a|..|s| - |a| + |r|]
    ensures IsBlank(s[|s| - |a| + |r|..])
    ensures IsTrimmed(r)
  {
    var i := |s| - |a|;
    assert r == s[i..i + |r|] by {
      forall k | 0 <= k < |r| ensures r[k] == s[i + k] {
        assert r[k] == a[k] == s[i..][k];
      }
    }
    assert s[i + |r|..] == a[|r|..];
    if r != [] {
      assert r[0] == a[0];
    }
  }

  /** `s.trim()`: the slice of `s` left after dropping whitespace on both ends. */
  function Trim(s: string): (r: string)
    ensures exists i, j :: 0 <= i <= j <= |s| && r == s[i..j] && IsBlank(s[..i]) && IsBlank(s[j..])
    ensures IsTrimmed(r)
  {
    var a := TrimStart(s);
    var r := TrimEnd(a);
    TrimSlice(s, a, r);
    r
  }

  /** `!s.trim()` holds exactly when every character of `s` is whitespace. */
  lemma BlankIffTrimEmpty(s: string)
    ensures IsBlank(s) <==> Trim(s) == ""
  {
    var r := Trim(s);
    var i, j :| 0 <= i <= j <= |s| && r == s[i..j] && IsBlank(s[..i]) && IsBlank(s[j..]);
    if r == [] {
      assert i == j;
      forall k | 0 <= k < |s| ensures IsSpace(s[k]) {
        if k < i { assert s[..i][k] == s[k]; } else { assert s[j..][k - j] == s[k]; }
      }
    }
  }

  /** `!s.trim()` as the code writes it, carrying its meaning as a postcondition. */
  function TrimIsEmpty(s: string): (b: bool)
    ensures b <==> IsBlank(s)
  {
    BlankIffTrimEmpty(s);
    Trim(s) == ""
  }

  /** A trimmed string is its own trim. */
  lemma TrimmedIsFixpoint(s: string)
    requires IsTrimmed(s)
    ensures Trim(s) == s
  {
    assert TrimStart(s) == s;
    assert TrimEnd(s) == s;
    assert Trim(s) == TrimEnd(TrimStart(s));
  }

  /** The regular expression `/^C[1-8]$/`: exactly two characters, `C` then a digit 1 to 8.
      JavaScript's `$` without the `m` flag anchors at the very end, so no trailing
      newline is admitted. */
  predicate MatchesCodePattern(s: string) {
    |s| == 2 && s[0] == 'C' && '1' <= s[1] <= '8'
  }

  /** The pattern accepts exactly the eight codes C1 to C8. */
  lemma CodePatternIsC1ToC8(s: string)
    ensures MatchesCodePattern(s) <==> s in {"C1", "C2", "C3", "C4", "C5", "C6", "C7", "C8"}
  {
    if MatchesCodePattern(s) {
      assert s == ['C', s[1]];
      var d := s[1];
      assert d == '1' || d == '2' || d == '3' || d == '4' || d == '5' || d == '6' || d == '7' || d == '8';
    }
  }

  /** A code that matches the pattern is never blank. */
  lemma CodePatternNotBlank(s: string)
    requires MatchesCodePattern(s)
    ensures !IsBlank(s)
  {
    assert !IsSpace(s[0]);
  }
}
