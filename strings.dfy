/** The Python `str` operations the pipeline relies on, stated over `string` (a `seq<char>`). */
module Strings {

  /** `s.startswith(p)` */
  predicate StartsWith(s: string, p: string) {
    |p| <= |s| && s[..|p|] == p
  }

  /** `s.endswith(p)` */
  predicate EndsWith(s: string, p: string) {
    |p| <= |s| && s[|s| - |p|..] == p
  }

  /** `p` occurs in `s` starting at index `i`. */
  predicate OccursAt(s: string, p: string, i: nat) {
    i + |p| <= |s| && s[i..i + |p|] == p
  }

  /** `p in s` */
  predicate Contains(s: string, p: string) {
    exists i: nat | i <= |s| :: OccursAt(s, p, i)
  }

  /** `s.count(sep)`: occurrences found left to right, never overlapping. */
  function Count(s: string, sep: string): nat
    requires sep != ""
    decreases |s|
  {
    if |s| < |sep| then 0
    else if StartsWith(s, sep) then 1 + Count(s[|sep|..], sep)
    else Count(s[1..], sep)
  }

  /** `s.split(sep)` for a non-empty separator: cut at the same occurrences `Count` finds. */
  function Split(s: string, sep: string): (parts: seq<string>)
    requires sep != ""
    ensures |parts| == Count(s, sep) + 1
    decreases |s|
  {
    if |s| < |sep| then [s]
    else if StartsWith(s, sep) then [""] + Split(s[|sep|..], sep)
    else
      var rest := Split(s[1..], sep);
      [[s[0]] + rest[0]] + rest[1..]
  }

  /** `sep.join(parts)` */
  function Join(sep: string, parts: seq<string>): string
    decreases |parts|
  {
    if |parts| == 0 then ""
    else if |parts| == 1 then parts[0]
    else Join(sep, parts[..|parts| - 1]) + sep + parts[|parts| - 1]
  }

  /** `"".join(parts)` */
  function Concat(parts: seq<string>): string
    decreases |parts|
  {
    if parts == [] then "" else Concat(parts[..|parts| - 1]) + parts[|parts| - 1]
  }

  /** The sequences `f(x)` for each `x` of `xs`, concatenated in order. */
  function FlatMap<T, U>(f: T -> seq<U>, xs: seq<T>): seq<U>
    decreases |xs|
  {
    if xs == [] then [] else FlatMap(f, xs[..|xs| - 1]) + f(xs[|xs| - 1])
  }

  /** The strings `f(x, p)` for each `x` of `xs`, concatenated in order. */
  function ConcatWith<T, P>(f: (T, P) -> string, p: P, xs: seq<T>): string
    decreases |xs|
  {
    if xs == [] then "" else ConcatWith(f, p, xs[..|xs| - 1]) + f(xs[|xs| - 1], p)
  }

  /** `s.replace(sep, "")`: `s` with every occurrence `Count` finds removed. */
  function DeleteAll(s: string, sep: string): string
    requires sep != ""
    decreases |s|
  {
    if |s| < |sep| then s
    else if StartsWith(s, sep) then DeleteAll(s[|sep|..], sep)
    else [s[0]] + DeleteAll(s[1..], sep)
  }

  /** `s` with every character `c` replaced by `d`. */
  function ReplaceChar(s: string, c: char, d: char): (r: string)
    ensures |r| == |s|
    ensures forall i :: 0 <= i < |s| ==> r[i] == if s[i] == c then d else s[i]
    decreases |s|
  {
    if s == [] then [] else [if s[0] == c then d else s[0]] + ReplaceChar(s[1..], c, d)
  }

  /** A Python slice index normalised against a length `n`: negative counts from the end, then clamped. */
  function Clamp(i: int, n: nat): (k: nat)
    ensures k <= n
  {
    if i < 0 then (if i + n < 0 then 0 else i + n)
    else if i > n then n
    else i
  }

  /** `s[start:stop]` */
  function Slice(s: string, start: int, stop: int): (r: string)
    ensures |r| <= |s|
  {
    var lo, hi := Clamp(start, |s|), Clamp(stop, |s|);
    if lo < hi then s[lo..hi] else ""
  }

  /** `s[start:]` */
  function SliceFrom(s: string, start: nat): string {
    Slice(s, start, |s|)
  }

  /** The decimal digit character for `d`. */
  function Digit(d: nat): (c: char)
    requires d < 10
    ensures '0' <= c <= '9'
  {
    (d + '0' as int) as char
  }

  /** `str(n)` (and `f"{n}"`) for a natural number. */
  function NatToString(n: nat): (r: string)
    ensures r != ""
    ensures forall i :: 0 <= i < |r| ==> '0' <= r[i] <= '9'
    decreases n
  {
    if n < 10 then [Digit(n)] else NatToString(n / 10) + [Digit(n % 10)]
  }

  /** `int(s)` on a string of decimal digits (no sign, no spaces). */
  function ParseDecimal(s: string): nat
    decreases |s|
  {
    if s == [] then 0
    else
      var d := s[|s| - 1] as int - '0' as int;
      10 * ParseDecimal(s[..|s| - 1]) + (if 0 <= d then d else 0)
  }

  // ---------------------------------------------------------------------------
  // Lemmas

  /** `int(str(n)) == n`: the decimal rendering loses nothing. */
  lemma {:induction false} ParseNatToString(n: nat)
    ensures ParseDecimal(NatToString(n)) == n
    decreases n
  {
    if n >= 10 {
      ParseNatToString(n / 10);
      var s := NatToString(n);
      assert s[..|s| - 1] == NatToString(n / 10);
    }
  }

  /** One- and two-digit numbers print with one and two characters. */
  lemma NatToStringLength(n: nat)
    ensures n < 10 ==> |NatToString(n)| == 1
    ensures 10 <= n < 100 ==> |NatToString(n)| == 2
    ensures 100 <= n ==> |NatToString(n)| >= 3
  {
    if n >= 100 {
      NatToStringLength(n / 10);
    }
  }

  /** Joining from the front: `sep.join([a] + ps) == a + sep + sep.join(ps)`. */
  lemma {:induction false} JoinCons(sep: string, a: string, ps: seq<string>)
    requires |ps| >= 1
    ensures Join(sep, [a] + ps) == a + sep + Join(sep, ps)
    decreases |ps|
  {
    var all := [a] + ps;
    if |ps| == 1 {
      assert all[..1] == [a];
    } else {
      var init := ps[..|ps| - 1];
      assert all[..|all| - 1] == [a] + init;
      JoinCons(sep, a, init);
    }
  }

  /** Concatenation peeled from the front: the first piece, then the rest. */
  lemma {:induction false} ConcatFront(ps: seq<string>)
    requires |ps| >= 1
    ensures Concat(ps) == ps[0] + Concat(ps[1..])
    decreases |ps|
  {
    var n := |ps| - 1;
    if n == 0 {
      assert ps[..0] == [] && ps[1..] == [];
    } else {
      var init := ps[..n];
      ConcatFront(init);
      assert init[1..] == ps[1..][..n - 1];
      assert ps[1..][n - 1] == ps[n];
    }
  }

  /** Concatenating from the front. */
  lemma ConcatCons(a: string, ps: seq<string>)
    ensures Concat([a] + ps) == a + Concat(ps)
  {
    ConcatFront([a] + ps);
    assert ([a] + ps)[1..] == ps;
  }

  /** `Concat` distributes over sequence concatenation. */
  lemma {:induction false} ConcatAppend(xs: seq<string>, ys: seq<string>)
    ensures Concat(xs + ys) == Concat(xs) + Concat(ys)
    decreases |ys|
  {
    if ys == [] {
      assert xs + ys == xs;
    } else {
      var n, all := |ys| - 1, xs + ys;
      assert all[..|all| - 1] == xs + ys[..n];
      assert all[|all| - 1] == ys[n];
      ConcatAppend(xs, ys[..n]);
      var a, b, c := Concat(xs), Concat(ys[..n]), ys[n];
      assert (a + b) + c == a + (b + c);
    }
  }

  /** `FlatMap` distributes over sequence concatenation. */
  lemma {:induction false} FlatMapAppend<T, U>(f: T -> seq<U>, xs: seq<T>, ys: seq<T>)
    ensures FlatMap(f, xs + ys) == FlatMap(f, xs) + FlatMap(f, ys)
    decreases |ys|
  {
    if ys == [] {
      assert xs + ys == xs;
    } else {
      var n, all := |ys| - 1, xs + ys;
      assert all[..|all| - 1] == xs + ys[..n];
      assert all[|all| - 1] == ys[n];
      FlatMapAppend(f, xs, ys[..n]);
      var a, b, c := FlatMap(f, xs), FlatMap(f, ys[..n]), f(ys[n]);
      assert (a + b) + c == a + (b + c);
    }
  }

  /** One element contributes its own sequence. */
  lemma FlatMapSingle<T, U>(f: T -> seq<U>, x: T)
    ensures FlatMap(f, [x]) == f(x)
  {
    assert [x][..0] == [];
  }

  /** `ConcatWith` distributes over sequence concatenation. */
  lemma {:induction false} ConcatWithAppend<T, P>(f: (T, P) -> string, p: P, xs: seq<T>, ys: seq<T>)
    ensures ConcatWith(f, p, xs + ys) == ConcatWith(f, p, xs) + ConcatWith(f, p, ys)
    decreases |ys|
  {
    if ys == [] {
      assert xs + ys == xs;
    } else {
      var n, all := |ys| - 1, xs + ys;
      assert all[..|all| - 1] == xs + ys[..n];
      assert all[|all| - 1] == ys[n];
      ConcatWithAppend(f, p, xs, ys[..n]);
      var a, b, c := ConcatWith(f, p, xs), ConcatWith(f, p, ys[..n]), f(ys[n], p);
      assert (a + b) + c == a + (b + c);
    }
  }

  /** One element contributes its own string. */
  lemma ConcatWithSingle<T, P>(f: (T, P) -> string, p: P, x: T)
    ensures ConcatWith(f, p, [x]) == f(x, p)
  {
    assert [x][..0] == [];
  }

  /** `sep.join(s.split(sep)) == s`: splitting loses nothing. */
  lemma {:induction false} JoinSplit(s: string, sep: string)
    requires sep != ""
    ensures Join(sep, Split(s, sep)) == s
    decreases |s|
  {
    if |s| < |sep| {
    } else if StartsWith(s, sep) {
      var rest := Split(s[|sep|..], sep);
      JoinSplit(s[|sep|..], sep);
      JoinAfterEmpty(sep, rest);
      assert s == sep + s[|sep|..];
    } else {
      var rest := Split(s[1..], sep);
      JoinSplit(s[1..], sep);
      JoinPrepend(sep, s[0], rest);
      assert s == [s[0]] + s[1..];
    }
  }

  /** Joining `[""] + ps` puts one separator in front of `sep.join(ps)`. */
  lemma JoinAfterEmpty(sep: string, ps: seq<string>)
    requires |ps| >= 1
    ensures Join(sep, [""] + ps) == sep + Join(sep, ps)
  {
    JoinCons(sep, "", ps);
  }

  /** Prepending a character to the first piece prepends it to the join. */
  lemma JoinPrepend(sep: string, c: char, ps: seq<string>)
    requires |ps| >= 1
    ensures Join(sep, [[c] + ps[0]] + ps[1..]) == [c] + Join(sep, ps)
  {
    var head, tail := [c] + ps[0], ps[1..];
    if tail != [] {
      JoinCons(sep, head, tail);
      JoinCons(sep, ps[0], tail);
      assert [ps[0]] + tail == ps;
    }
  }

  /** The pieces of a split, glued back without separators, are `s` with every separator removed. */
  lemma {:induction false} ConcatSplit(s: string, sep: string)
    requires sep != ""
    ensures Concat(Split(s, sep)) == DeleteAll(s, sep)
    decreases |s|
  {
    if |s| < |sep| {
      assert Concat([s]) == Concat([s][..0]) + s;
    } else if StartsWith(s, sep) {
      ConcatSplit(s[|sep|..], sep);
      ConcatCons("", Split(s[|sep|..], sep));
    } else {
      ConcatSplit(s[1..], sep);
      ConcatPrepend(s[0], Split(s[1..], sep));
    }
  }

  /** Prepending a character to the first piece prepends it to the concatenation. */
  lemma ConcatPrepend(c: char, ps: seq<string>)
    requires |ps| >= 1
    ensures Concat([[c] + ps[0]] + ps[1..]) == [c] + Concat(ps)
  {
    ConcatCons([c] + ps[0], ps[1..]);
    ConcatFront(ps);
  }

  /** The first piece of a split is a prefix of the string. */
  lemma {:induction false} SplitHeadIsPrefix(s: string, sep: string)
    requires sep != ""
    ensures StartsWith(s, Split(s, sep)[0])
    decreases |s|
  {
    if |s| >= |sep| && !StartsWith(s, sep) {
      SplitHeadIsPrefix(s[1..], sep);
      var head := Split(s[1..], sep)[0];
      assert s[..|head| + 1] == [s[0]] + s[1..][..|head|];
    }
  }

  /** No piece of `s.split(sep)` contains `sep`. */
  lemma {:induction false} SplitPartsLackSeparator(s: string, sep: string)
    requires sep != ""
    ensures forall k :: 0 <= k < |Split(s, sep)| ==> !Contains(Split(s, sep)[k], sep)
    decreases |s|
  {
    if |s| < |sep| {
      ShortLacks(s, sep);
    } else if StartsWith(s, sep) {
      SplitPartsLackSeparator(s[|sep|..], sep);
      ShortLacks("", sep);
      LackCons("", Split(s[|sep|..], sep), 0, sep);
    } else {
      var rest := Split(s[1..], sep);
      SplitPartsLackSeparator(s[1..], sep);
      HeadLacks(s, sep);
      LackCons([s[0]] + rest[0], rest, 1, sep);
    }
  }

  /** A string shorter than `p` does not contain it. */
  lemma ShortLacks(s: string, p: string)
    requires |s| < |p|
    ensures !Contains(s, p)
  {
  }

  /** A piece without `p` in front of pieces without `p`. */
  lemma LackCons(a: string, ps: seq<string>, j: nat, p: string)
    requires j <= |ps| && !Contains(a, p)
    requires forall k :: 0 <= k < |ps| ==> !Contains(ps[k], p)
    ensures forall k :: 0 <= k < |[a] + ps[j..]| ==> !Contains(([a] + ps[j..])[k], p)
  {
    forall k | 0 <= k < |[a] + ps[j..]| ensures !Contains(([a] + ps[j..])[k], p) {
      if k > 0 {
        assert ([a] + ps[j..])[k] == ps[j + k - 1];
      }
    }
  }

  /** When `s` does not open with `sep`, its first character and the first piece of the rest hold no `sep`. */
  lemma HeadLacks(s: string, sep: string)
    requires sep != "" && |sep| <= |s| && !StartsWith(s, sep)
    requires !Contains(Split(s[1..], sep)[0], sep)
    ensures !Contains([s[0]] + Split(s[1..], sep)[0], sep)
  {
    var t := Split(s[1..], sep)[0];
    SplitHeadIsPrefix(s[1..], sep);
    ConsPrefix(s, t);
    ConsLacks(s[0], t, sep, s);
  }

  lemma ConsPrefix(s: string, t: string)
    requires s != [] && StartsWith(s[1..], t)
    ensures StartsWith(s, [s[0]] + t)
  {
    assert s[..|t| + 1] == [s[0]] + s[1..][..|t|];
  }

  /** A character in front of a text without `sep` adds no `sep`, unless the result opens with it. */
  lemma ConsLacks(c: char, t: string, sep: string, s: string)
    requires !Contains(t, sep) && StartsWith(s, [c] + t) && !StartsWith(s, sep)
    ensures !Contains([c] + t, sep)
  {
    var head := [c] + t;
    forall i: nat | i <= |head| ensures !OccursAt(head, sep, i) {
      if i == 0 {
        OpensWithPrefix(s, head, sep);
      } else {
        OccursAfterFirst(c, t, sep, i);
      }
    }
  }

  /** `sep` at the start of a prefix of `s` is `sep` at the start of `s`. */
  lemma OpensWithPrefix(s: string, head: string, sep: string)
    requires StartsWith(s, head)
    ensures OccursAt(head, sep, 0) ==> StartsWith(s, sep)
  {
    if |sep| <= |head| {
      assert head[..|sep|] == head[0..|sep|];
      PrefixOfPrefix(s, head, |sep|);
    }
  }

  /** `sep` after the first character of `[c] + t` is `sep` in `t`. */
  lemma OccursAfterFirst(c: char, t: string, sep: string, i: nat)
    requires 0 < i
    ensures OccursAt([c] + t, sep, i) ==> OccursAt(t, sep, i - 1)
  {
    if i + |sep| <= |[c] + t| {
      SliceAfterFirst(c, t, i, |sep|);
    }
  }

  lemma PrefixOfPrefix(s: string, t: string, n: nat)
    requires |t| <= |s| && s[..|t|] == t && n <= |t|
    ensures s[..n] == t[..n]
  {
    assert s[..n] == s[..|t|][..n];
  }

  lemma SliceAfterFirst(c: char, a: string, i: nat, n: nat)
    requires 0 < i && i + n <= |a| + 1
    ensures ([c] + a)[i..i + n] == a[i - 1..i - 1 + n]
  {
  }

  /** A string without the separator splits into itself alone. */
  lemma {:induction false} SplitWithoutSeparator(s: string, sep: string)
    requires sep != ""
    requires !Contains(s, sep)
    ensures Split(s, sep) == [s]
    decreases |s|
  {
    if |s| >= |sep| {
      assert !OccursAt(s, sep, 0);
      forall i: nat ensures !OccursAt(s[1..], sep, i) {
        if OccursAt(s[1..], sep, i) {
          assert s[i + 1..i + 1 + |sep|] == s[1..][i..i + |sep|];
          assert OccursAt(s, sep, i + 1);
        }
      }
      SplitWithoutSeparator(s[1..], sep);
      assert [s[0]] + s[1..] == s;
    }
  }

  /**
   * When the first occurrence of `sep` in `a + sep + b` is the one right after `a`,
   * the split yields `a` and then the split of `b`.
   */
  lemma {:induction false} SplitAtFirst(a: string, sep: string, b: string)
    requires sep != ""
    requires forall i: nat :: i < |a| ==> !OccursAt(a + sep + b, sep, i)
    ensures Split(a + sep + b, sep) == [a] + Split(b, sep)
    decreases |a|
  {
    var s := a + sep + b;
    if a == [] {
      assert s == sep + b;
      assert s[..|sep|] == sep;
      assert s[|sep|..] == b;
    } else {
      assert !OccursAt(s, sep, 0);
      var t := a[1..] + sep + b;
      assert s[1..] == t;
      forall i: nat | i < |a[1..]| ensures !OccursAt(t, sep, i) {
        assert !OccursAt(s, sep, i + 1);
        if i + |sep| <= |t| {
          assert t[i..i + |sep|] == s[i + 1..i + 1 + |sep|];
        }
      }
      SplitAtFirst(a[1..], sep, b);
      assert [a[0]] + a[1..] == a;
    }
  }

  /** A piece that can be glued at a newline separator and cut out again: it holds no separator and does not end in a newline. */
  predicate Separable(p: string, sep: string) {
    !Contains(p, sep) && (p != "" ==> p[|p| - 1] != '\n')
  }

  /** In `a + sep + b`, no separator starts inside `a` when `a` is separable. */
  lemma NoEarlySeparator(a: string, sep: string, b: string)
    requires sep == "\n" || sep == "\n\n"
    requires Separable(a, sep)
    ensures forall i: nat :: i < |a| ==> !OccursAt(a + sep + b, sep, i)
  {
    var s := a + sep + b;
    forall i: nat | i < |a| ensures !OccursAt(s, sep, i) {
      if i + |sep| <= |a| {
        assert a[i..i + |sep|] == s[i..i + |sep|];
        assert !OccursAt(a, sep, i);
      } else {
        assert s[i] == a[|a| - 1];
      }
    }
  }

  /**
   * `s.split(sep)` undoes `sep.join(ps)` for a newline separator when every
   * piece is separable: joining loses no boundary.
   */
  lemma {:induction false} SplitJoin(sep: string, ps: seq<string>)
    requires sep == "\n" || sep == "\n\n"
    requires |ps| >= 1
    requires forall k :: 0 <= k < |ps| ==> Separable(ps[k], sep)
    ensures Split(Join(sep, ps), sep) == ps
    decreases |ps|
  {
    if |ps| == 1 {
      SplitWithoutSeparator(ps[0], sep);
    } else {
      var a, rest := ps[0], ps[1..];
      assert [a] + rest == ps;
      assert forall k :: 0 <= k < |rest| ==> rest[k] == ps[k + 1];
      JoinCons(sep, a, rest);
      NoEarlySeparator(a, sep, Join(sep, rest));
      SplitAtFirst(a, sep, Join(sep, rest));
      SplitJoin(sep, rest);
    }
  }

  /** Splitting on a one-character separator and joining with another replaces the character. */
  lemma {:induction false} JoinSplitReplaces(s: string, c: char, d: char)
    ensures Join([d], Split(s, [c])) == ReplaceChar(s, c, d)
    decreases |s|
  {
    var sep := [c];
    if s != [] {
      var rest := Split(s[1..], sep);
      JoinSplitReplaces(s[1..], c, d);
      ReplaceCharCons(s, c, d);
      SplitOneChar(s, c);
      if s[0] == c {
        JoinAfterEmpty([d], rest);
      } else {
        JoinPrepend([d], s[0], rest);
      }
    }
  }

  /** Splitting on one character: a leading separator opens an empty piece, anything else joins the first piece. */
  lemma SplitOneChar(s: string, c: char)
    requires s != []
    ensures s[0] == c ==> Split(s, [c]) == [""] + Split(s[1..], [c])
    ensures s[0] != c ==> Split(s, [c]) == [[s[0]] + Split(s[1..], [c])[0]] + Split(s[1..], [c])[1..]
  {
    assert StartsWith(s, [c]) <==> s[0] == c by {
      assert s[..1] == [s[0]];
    }
  }

  lemma ReplaceCharCons(s: string, c: char, d: char)
    requires s != []
    ensures ReplaceChar(s, c, d) == [if s[0] == c then d else s[0]] + ReplaceChar(s[1..], c, d)
  {
  }

  /** A piece cut out of a string without `p` does not contain `p` either. */
  lemma SubstringLacks(s: string, p: string, k: nat, m: nat)
    requires k + m <= |s|
    requires !Contains(s, p)
    ensures !Contains(s[k..k + m], p)
  {
    var t := s[k..k + m];
    forall i: nat | i <= |t| ensures !OccursAt(t, p, i) {
      if OccursAt(t, p, i) {
        forall j | 0 <= j < |p| ensures s[k + i + j] == p[j] {
          assert t[i..i + |p|][j] == t[i + j];
        }
        assert s[k + i..k + i + |p|] == p;
        assert OccursAt(s, p, k + i);
      }
    }
  }
}
