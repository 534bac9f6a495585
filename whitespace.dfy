/** Python's notion of whitespace and the stripping methods built on it. */
module Whitespace {
  import opened Strings

  /** `c.isspace()` for a single character. */
  predicate IsSpace(c: char) {
    || c == ' '
    || '\t' <= c <= '\r'
    || '\U{1c}' <= c <= '\U{1f}'
    || c == '\U{85}' || c == '\U{a0}' || c == '\U{1680}'
    || '\U{2000}' <= c <= '\U{200a}'
    || c == '\U{2028}' || c == '\U{2029}' || c == '\U{202f}' || c == '\U{205f}' || c == '\U{3000}'
  }

  /** Neither end of `s` is whitespace. */
  predicate Trimmed(s: string) {
    s == [] || (!IsSpace(s[0]) && !IsSpace(s[|s| - 1]))
  }

  /** `s.lstrip()`: the longest suffix of `s` that does not start with whitespace. */
  function LStrip(s: string): (r: string)
    ensures |r| <= |s| && r == s[|s| - |r|..]
    ensures forall i :: 0 <= i < |s| - |r| ==> IsSpace(s[i])
    ensures r != [] ==> !IsSpace(r[0])
    decreases |s|
  {
    if s != [] && IsSpace(s[0]) then LStrip(s[1..]) else s
  }

  /** `s.rstrip()`: the longest prefix of `s` that does not end with whitespace. */
  function RStrip(s: string): (r: string)
    ensures |r| <= |s| && r == s[..|r|]
    ensures forall i :: |r| <= i < |s| ==> IsSpace(s[i])
    ensures r != [] ==> !IsSpace(r[|r| - 1])
    decreases |s|
  {
    if s != [] && IsSpace(s[|s| - 1]) then RStrip(s[..|s| - 1]) else s
  }

  /** `s.strip()` */
  function Strip(s: string): string {
    RStrip(LStrip(s))
  }

  /** `s.lstrip(c)` for a one-character argument: drop every leading `c`. */
  function LStripChar(s: string, c: char): (r: string)
    ensures |r| <= |s| && r == s[|s| - |r|..]
    ensures forall i :: 0 <= i < |s| - |r| ==> s[i] == c
    ensures r != [] ==> r[0] != c
    decreases |s|
  {
    if s != [] && s[0] == c then LStripChar(s[1..], c) else s
  }

  // ---------------------------------------------------------------------------
  // Lemmas

  /**
   * `s.strip()` is the piece of `s` left after removing whitespace at both ends:
   * it sits at offset `k` in `s`, has no whitespace at either end, and only
   * whitespace was removed.
   */
  lemma StripIsTrimmedSubstring(s: string) returns (k: nat)
    ensures k + |Strip(s)| <= |s| && Strip(s) == s[k..k + |Strip(s)|]
    ensures Trimmed(Strip(s))
    ensures forall i :: 0 <= i < k ==> IsSpace(s[i])
    ensures forall i :: k + |Strip(s)| <= i < |s| ==> IsSpace(s[i])
  {
    var l := LStrip(s);
    var r := RStrip(l);
    k := |s| - |l|;
    SuffixPrefix(s, k, |r|);
    RStripKeepsStart(l);
    SpacesShifted(s, k, l, |r|);
  }

  /** The first `n` characters of the suffix from `k` are the slice from `k` to `k + n`. */
  lemma SuffixPrefix(s: string, k: nat, n: nat)
    requires k + n <= |s|
    ensures s[k..][..n] == s[k..k + n]
  {
  }

  /** Right-stripping a string that does not start with whitespace leaves no whitespace at either end. */
  lemma RStripKeepsStart(l: string)
    requires l != [] ==> !IsSpace(l[0])
    ensures Trimmed(RStrip(l))
  {
    var r := RStrip(l);
    if r != [] {
      assert r[0] == l[0];
    }
  }

  /** Whitespace at the end of a suffix of `s` is whitespace at the end of `s`. */
  lemma SpacesShifted(s: string, k: nat, l: string, n: nat)
    requires k <= |s| && l == s[k..] && n <= |l|
    requires forall i :: n <= i < |l| ==> IsSpace(l[i])
    ensures forall i :: k + n <= i < |s| ==> IsSpace(s[i])
  {
    forall i | k + n <= i < |s| ensures IsSpace(s[i]) {
      assert s[i] == l[i - k];
    }
  }

  /** A string with no whitespace at either end strips to itself. */
  lemma StripTrimmed(s: string)
    requires Trimmed(s)
    ensures Strip(s) == s
  {
  }

  /** Stripping twice is stripping once. */
  lemma StripIdempotent(s: string)
    ensures Strip(Strip(s)) == Strip(s)
  {
    var _ := StripIsTrimmedSubstring(s);
    StripTrimmed(Strip(s));
  }

  /** `s.strip()` is empty exactly when `s` is all whitespace. */
  lemma StripEmptyIff(s: string)
    ensures Strip(s) == "" <==> forall i :: 0 <= i < |s| ==> IsSpace(s[i])
  {
    var k := StripIsTrimmedSubstring(s);
  }

  /** One `c` in front of a text that does not start with `c` is all that `lstrip(c)` removes. */
  lemma LStripCharOnce(c: char, t: string)
    requires t != "" ==> t[0] != c
    ensures LStripChar([c] + t, c) == t
  {
    assert ([c] + t)[1..] == t;
  }

  /** A space in front of a text with no whitespace at its ends is all that `strip()` removes. */
  lemma StripAfterSpace(t: string)
    requires Trimmed(t)
    ensures Strip(" " + t) == t
  {
    assert (" " + t)[1..] == t;
    assert LStrip(" " + t) == LStrip(t);
    StripTrimmed(t);
  }
}
