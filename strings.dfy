/** Python's `str.strip()` and `str.upper()` as the gene-symbol clean-up uses them. */
module PyStrings {

  /** Python's `str.isspace()` on one character: ASCII blanks and controls 9-13, the
      separators 0x1c-0x1f, and the Unicode space and line/paragraph separators. */
  predicate IsSpace(c: char) {
    ('\t' <= c <= '\r') || ('\U{1c}' <= c <= '\U{1f}') || c == ' '
    || c == '\U{85}' || c == '\U{a0}' || c == '\U{1680}'
    || ('\U{2000}' <= c <= '\U{200a}') || c == '\U{2028}' || c == '\U{2029}'
    || c == '\U{202f}' || c == '\U{205f}' || c == '\U{3000}'
  }

  predicate AllSpace(s: string) {
    forall k :: 0 <= k < |s| ==> IsSpace(s[k])
  }

  /** A string with no whitespace at either end (the shape every stripped string has). */
  predicate Trimmed(s: string) {
    s == [] || (!IsSpace(s[0]) && !IsSpace(s[|s| - 1]))
  }

  /** `s.lstrip()`: drops the leading whitespace. */
  function StripLeading(s: string): (r: string)
    ensures |r| <= |s|
  {
    if s != [] && IsSpace(s[0]) then StripLeading(s[1..]) else s
  }

  /** What `lstrip()` leaves is a suffix that does not start with whitespace, and what it
      drops is all whitespace. */
  lemma {:induction false} StripLeadingSpec(s: string)
    ensures var r := StripLeading(s);
      r == s[|s| - |r|..] && AllSpace(s[..|s| - |r|]) && (r == [] || !IsSpace(r[0]))
  {
    if s != [] && IsSpace(s[0]) {
      StripLeadingSpec(s[1..]);
      var r := StripLeading(s);
      assert s[1..][|s| - 1 - |r|..] == s[|s| - |r|..];
      assert s[..|s| - |r|] == [s[0]] + s[1..][..|s| - 1 - |r|];
    }
  }

  /** `s.rstrip()`: drops the trailing whitespace. */
  function StripTrailing(s: string): (r: string)
    ensures |r| <= |s|
  {
    if s != [] && IsSpace(s[|s| - 1]) then StripTrailing(s[..|s| - 1]) else s
  }

  /** What `rstrip()` leaves is a prefix that does not end with whitespace, and what it
      drops is all whitespace. */
  lemma {:induction false} StripTrailingSpec(s: string)
    ensures var r := StripTrailing(s);
      r == s[..|r|] && AllSpace(s[|r|..]) && (r == [] || !IsSpace(r[|r| - 1]))
  {
    if s != [] && IsSpace(s[|s| - 1]) {
      var n := |s| - 1;
      StripTrailingSpec(s[..n]);
      var r := StripTrailing(s);
      assert s[..n][..|r|] == s[..|r|];
      assert s[|r|..] == s[..n][|r|..] + [s[n]];
    }
  }

  /** `s.strip()`: no whitespace is left at either end. */
  function Strip(s: string): (r: string)
    ensures |r| <= |s| && Trimmed(r)
  {
    var t := StripLeading(s);
    StripLeadingSpec(s);
    StripTrailingSpec(t);
    var r := StripTrailing(t);
    assert r != [] ==> r[0] == t[0];
    r
  }

  /** Stripping keeps one contiguous slice of `s` and removes only whitespace around it. */
  lemma StripIsTrim(s: string)
    ensures var r := Strip(s);
      exists i :: 0 <= i && i + |r| <= |s| && r == s[i..i + |r|]
                  && AllSpace(s[..i]) && AllSpace(s[i + |r|..])
  {
    var t := StripLeading(s);
    var r := StripTrailing(t);
    var i := |s| - |t|;
    StripLeadingSpec(s);
    StripTrailingSpec(t);
    assert r == s[i..i + |r|] by {
      assert t == s[i..];
      assert r == t[..|r|];
    }
    assert AllSpace(s[i + |r|..]) by {
      assert s[i + |r|..] == t[|r|..];
    }
    assert Strip(s) == r;
    assert 0 <= i && i + |r| <= |s| && AllSpace(s[..i]);
  }

  /** A string that is already trimmed is left alone by `strip()`. */
  lemma {:induction false} StripTrimmed(s: string)
    requires Trimmed(s)
    ensures Strip(s) == s
  {
    assert StripLeading(s) == s;
    assert StripTrailing(s) == s;
  }

  /** `strip()` is idempotent. */
  lemma StripIdempotent(s: string)
    ensures Strip(Strip(s)) == Strip(s)
  {
    StripTrimmed(Strip(s));
  }

  /** `str.upper()` on one character, for the ASCII letters. */
  function UpperChar(c: char): char {
    if 'a' <= c <= 'z' then (c as int - 32) as char else c
  }

  /** `s.upper()`. */
  function Upper(s: string): (r: string)
    ensures |r| == |s|
  {
    seq(|s|, k requires 0 <= k < |s| => UpperChar(s[k]))
  }

  /** Upper-casing leaves no lower-case ASCII letter, changes only such letters, and keeps
      whitespace exactly where it was. */
  lemma UpperSpec(s: string)
    ensures var r := Upper(s);
      (forall k :: 0 <= k < |r| ==> !('a' <= r[k] <= 'z'))
      && (forall k :: 0 <= k < |r| ==> r[k] == s[k] || 'a' <= s[k] <= 'z')
      && (forall k :: 0 <= k < |r| ==> IsSpace(r[k]) == IsSpace(s[k]))
  {
  }

  /** Upper-casing an upper-cased string changes nothing. */
  lemma UpperIdempotent(s: string)
    ensures Upper(Upper(s)) == Upper(s)
  {
  }

  /** The form a requested gene symbol is looked up in: `gene.strip().upper()`. */
  function Canonical(g: string): (c: string)
    ensures |c| <= |g| && Trimmed(c)
  {
    Upper(Strip(g))
  }

  /** A canonical symbol has no whitespace at either end and no lower-case ASCII letter. */
  lemma CanonicalTrimmed(g: string)
    ensures var c := Canonical(g);
      Trimmed(c) && |c| <= |g| && forall k :: 0 <= k < |c| ==> !('a' <= c[k] <= 'z')
  {
    UpperSpec(Strip(g));
  }

  /** A canonical symbol is its own canonical form, so re-validating a valid symbol
      finds it again. */
  lemma CanonicalIdempotent(g: string)
    ensures Canonical(Canonical(g)) == Canonical(g)
  {
    var c := Canonical(g);
    CanonicalTrimmed(g);
    StripTrimmed(c);
    UpperIdempotent(Strip(g));
  }
}
