/** Python's `str.strip()` with no argument: remove the longest prefix and the
    longest suffix made of whitespace characters. */
module Text {

  /** `str.isspace()` of one character: the ASCII controls TAB..CR and
      FS..US, the space, and the Unicode separators Python counts as
      whitespace. */
  predicate IsSpace(c: char) {
    || ('\t' <= c <= '\r')
    || ('\U{1c}' <= c <= '\U{1f}')
    || c == ' '
    || c == '\U{85}'
    || c == '\U{a0}'
    || c == '\U{1680}'
    || ('\U{2000}' <= c <= '\U{200a}')
    || c == '\U{2028}'
    || c == '\U{2029}'
    || c == '\U{202f}'
    || c == '\U{205f}'
    || c == '\U{3000}'
  }

  /** Every character of `s` at an index in `[lo, hi)` is whitespace. */
  predicate SpaceBetween(s: string, lo: nat, hi: nat)
    requires lo <= hi <= |s|
  {
    forall k :: lo <= k < hi ==> IsSpace(s[k])
  }

  /** Every character of `s` is whitespace. */
  predicate AllSpace(s: string) {
    SpaceBetween(s, 0, |s|)
  }

  /** `s` neither starts nor ends with whitespace. */
  predicate Trimmed(s: string) {
    s == [] || (!IsSpace(s[0]) && !IsSpace(s[|s| - 1]))
  }

  /** The index of the first non-whitespace character of `s` at or after
      `lo`, or `|s|` if there is none. */
  function SkipForward(s: string, lo: nat): (i: nat)
    requires lo <= |s|
    ensures lo <= i <= |s|
    ensures SpaceBetween(s, lo, i)
    ensures i < |s| ==> !IsSpace(s[i])
    decreases |s| - lo
  {
    if lo < |s| && IsSpace(s[lo]) then SkipForward(s, lo + 1) else lo
  }

  /** The index just past the last non-whitespace character of `s` in
      `[lo, hi)`, or `lo` if there is none. */
  function SkipBackward(s: string, lo: nat, hi: nat): (j: nat)
    requires lo <= hi <= |s|
    ensures lo <= j <= hi
    ensures SpaceBetween(s, j, hi)
    ensures lo < j ==> !IsSpace(s[j - 1])
    decreases hi
  {
    if lo < hi && IsSpace(s[hi - 1]) then SkipBackward(s, lo, hi - 1) else hi
  }

  /** `s[i..j]` is what stripping `s` leaves: everything outside it is
      whitespace and it neither starts nor ends with whitespace. */
  predicate StrippedAt(s: string, i: nat, j: nat) {
    && i <= j <= |s|
    && SpaceBetween(s, 0, i)
    && SpaceBetween(s, j, |s|)
    && (i < j ==> !IsSpace(s[i]) && !IsSpace(s[j - 1]))
  }

  /** Where the part kept by `strip()` starts. */
  function StripStart(s: string): nat {
    SkipForward(s, 0)
  }

  /** `s.strip()`. */
  function Strip(s: string): (r: string)
    ensures StrippedAt(s, StripStart(s), StripStart(s) + |r|)
    ensures r == s[StripStart(s)..StripStart(s) + |r|]
    ensures Trimmed(r)
  {
    var i := SkipForward(s, 0);
    var j := SkipBackward(s, i, |s|);
    s[i..j]
  }

  /** Stripping has exactly one answer: any split of `s` into a whitespace
      prefix, a trimmed middle and a whitespace suffix yields `Strip(s)`. */
  lemma StripUnique(s: string, i: nat, j: nat)
    requires StrippedAt(s, i, j)
    ensures Strip(s) == s[i..j]
  {
    var a := StripStart(s);
    var b := a + |Strip(s)|;
    assert StrippedAt(s, a, b);
    if i == j {
      // All of `s` is whitespace, so nothing survives.
      assert SpaceBetween(s, 0, |s|);
      assert a == |s|;
    } else {
      // The first non-space character is at `i`, the last at `j - 1`.
      assert a == i;
      assert b == j;
    }
  }

  /** Stripping twice is stripping once. */
  lemma StripIdempotent(s: string)
    ensures Strip(Strip(s)) == Strip(s)
  {
    var r := Strip(s);
    assert r[0..|r|] == r;
    StripUnique(r, 0, |r|);
  }

  /** Whitespace appended to a string is removed again by stripping. */
  lemma StripIgnoresTrailingSpace(s: string, w: string)
    requires AllSpace(w)
    ensures Strip(s + w) == Strip(s)
  {
    var i := StripStart(s);
    var j := i + |Strip(s)|;
    assert StrippedAt(s, i, j);
    var t := s + w;
    forall k | j <= k < |t| ensures IsSpace(t[k]) {
      if k < |s| { assert t[k] == s[k]; } else { assert t[k] == w[k - |s|]; }
    }
    assert t[i..j] == s[i..j];
    StripUnique(t, i, j);
  }

  /** Shifting a stripped split of `s` past a whitespace prefix `w` gives a
      stripped split of `w + s`. */
  lemma StrippedAtAfterPrefix(w: string, s: string, i: nat, j: nat)
    requires AllSpace(w) && StrippedAt(s, i, j)
    ensures StrippedAt(w + s, |w| + i, |w| + j)
  {
    var t := w + s;
    var n := |w|;
    forall k | 0 <= k < n + i ensures IsSpace(t[k]) {
      if k < n { assert t[k] == w[k]; } else { assert t[k] == s[k - n]; }
    }
    forall k | n + j <= k < |t| ensures IsSpace(t[k]) {
      assert t[k] == s[k - n];
    }
    if i < j {
      assert t[n + i] == s[i] && t[n + j - 1] == s[j - 1];
    }
  }

  /** Whitespace prepended to a string is removed again by stripping. */
  lemma StripIgnoresLeadingSpace(w: string, s: string)
    requires AllSpace(w)
    ensures Strip(w + s) == Strip(s)
  {
    var i := StripStart(s);
    var j := i + |Strip(s)|;
    var t := w + s;
    StrippedAtAfterPrefix(w, s, i, j);
    StripUnique(t, |w| + i, |w| + j);
    assert t[|w| + i..|w| + j] == s[i..j];
  }

  /** Joining two trimmed, non-empty strings with one space gives a trimmed
      string: stripping it changes nothing. */
  lemma StripOfTrimmedJoin(a: string, b: string)
    requires a != [] && b != []
    requires Trimmed(a) && Trimmed(b)
    ensures Strip(a + " " + b) == a + " " + b
  {
    var t := a + " " + b;
    assert t[0] == a[0] && t[|t| - 1] == b[|b| - 1];
    assert t[0..|t|] == t;
    StripUnique(t, 0, |t|);
  }
}
