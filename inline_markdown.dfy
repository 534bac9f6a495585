/**
 * Inline Markdown: the image and link reference scanners, the splitters that
 * cut text nodes at those references, the whole inline pass, and the title
 * extractor.
 */
module InlineMarkdown {
  import opened Wrappers
  import opened Strings
  import opened Whitespace
  import opened HtmlNodes
  import opened TextNodes

  /** Which of the two reference forms a scanner looks for: `![alt](url)` or `[text](url)`. */
  datatype Kind = ImageRef | LinkRef

  /** A reference found in a text: where it starts and ends, its text and its URL. */
  datatype Match = Match(start: nat, stop: nat, text: string, url: string)

  /** Neither `[` nor `]` occurs in `t`. */
  predicate NoBrackets(t: string) {
    forall k :: 0 <= k < |t| ==> t[k] != '[' && t[k] != ']'
  }

  /** Neither `(` nor `)` occurs in `t`. */
  predicate NoParens(t: string) {
    forall k :: 0 <= k < |t| ==> t[k] != '(' && t[k] != ')'
  }

  /** The source text of a reference. */
  function Syntax(kind: Kind, text: string, url: string): string {
    (if kind == ImageRef then "!" else "") + "[" + text + "](" + url + ")"
  }

  /**
   * `m` is a reference of the given kind in `s`: the text it spans is the
   * reference syntax, its text has no brackets and its URL no parentheses,
   * and a link is not directly preceded by `!`.
   */
  predicate WellFormed(s: string, m: Match, kind: Kind) {
    && m.start <= m.stop <= |s|
    && s[m.start..m.stop] == Syntax(kind, m.text, m.url)
    && NoBrackets(m.text)
    && NoParens(m.url)
    && (kind == LinkRef ==> m.start == 0 || s[m.start - 1] != '!')
  }

  // ---------------------------------------------------------------------------
  // The scanner

  /** The end of the longest run of `s` from `i` holding neither `a` nor `b`. */
  function RunEnd(s: string, i: nat, a: char, b: char): (j: nat)
    requires i <= |s|
    ensures i <= j <= |s|
    ensures forall k :: i <= k < j ==> s[k] != a && s[k] != b
    ensures j < |s| ==> s[j] == a || s[j] == b
    decreases |s| - i
  {
    if i == |s| || s[i] == a || s[i] == b then i else RunEnd(s, i + 1, a, b)
  }

  /**
   * `[text](url)` at `i`, where the text and the URL are the longest runs the
   * character classes allow (the only runs a match can use).
   */
  function ReferenceAt(s: string, i: nat): (r: Option<Match>)
    requires i <= |s|
    ensures r.Some? ==> r.value.start == i < r.value.stop <= |s|
  {
    if i < |s| && s[i] == '[' then
      var j := RunEnd(s, i + 1, '[', ']');
      if j + 1 < |s| && s[j] == ']' && s[j + 1] == '(' then
        var k := RunEnd(s, j + 2, '(', ')');
        if k < |s| && s[k] == ')' then Some(Match(i, k + 1, s[i + 1..j], s[j + 2..k])) else None
      else None
    else None
  }

  /** The reference of the given kind that starts at `i`, if any. */
  function MatchAt(s: string, i: nat, kind: Kind): (r: Option<Match>)
    requires i <= |s|
    ensures r.Some? ==> r.value.start == i < r.value.stop <= |s|
  {
    match kind
    case ImageRef => ImageAt(s, i)
    case LinkRef => LinkAt(s, i)
  }

  /** `![text](url)` at `i`: a `!` followed by a reference. */
  function ImageAt(s: string, i: nat): (r: Option<Match>)
    requires i <= |s|
    ensures r.Some? ==> r.value.start == i < r.value.stop <= |s|
  {
    if i < |s| && s[i] == '!' then
      var r := ReferenceAt(s, i + 1);
      if r.Some? then Some(Match(i, r.value.stop, r.value.text, r.value.url)) else None
    else None
  }

  /** `[text](url)` at `i`, unless a `!` stands right before it. */
  function LinkAt(s: string, i: nat): (r: Option<Match>)
    requires i <= |s|
    ensures r.Some? ==> r.value.start == i < r.value.stop <= |s|
  {
    if i == 0 || s[i - 1] != '!' then ReferenceAt(s, i) else None
  }

  /**
   * Non-empty matches between `i` and `n`, from left to right, each ending
   * before the next one starts.
   */
  predicate Ordered(ms: seq<Match>, i: nat, n: nat)
    decreases |ms|
  {
    ms == [] || (i <= ms[0].start < ms[0].stop <= n && Ordered(ms[1..], ms[0].stop, n))
  }

  /**
   * `re.findall` over `s[i..]`: try each position from left to right; after a
   * match, carry on after its end.
   */
  function Scan(s: string, i: nat, kind: Kind): (ms: seq<Match>)
    requires i <= |s|
    ensures Ordered(ms, i, |s|)
    decreases |s| - i
  {
    if i == |s| then []
    else
      var here := MatchAt(s, i, kind);
      if here.Some? then [here.value] + Scan(s, here.value.stop, kind)
      else Scan(s, i + 1, kind)
  }

  /** The (text, url) pairs of a list of matches. */
  function Pairs(ms: seq<Match>): seq<(string, string)> {
    seq(|ms|, k requires 0 <= k < |ms| => (ms[k].text, ms[k].url))
  }

  /** `extract_markdown_images` */
  function ExtractMarkdownImages(text: string): seq<(string, string)> {
    Pairs(Scan(text, 0, ImageRef))
  }

  /** `extract_markdown_links` */
  function ExtractMarkdownLinks(text: string): seq<(string, string)> {
    Pairs(Scan(text, 0, LinkRef))
  }

  // ---------------------------------------------------------------------------
  // Scanner lemmas

  /** A slice cut at three inner points. */
  lemma Slices3(s: string, a: nat, b: nat, c: nat, d: nat)
    requires a <= b <= c <= d <= |s|
    ensures s[a..d] == s[a..b] + s[b..c] + s[c..d]
  {
  }

  /** What `ReferenceAt` finds is a well-formed `[text](url)`. */
  lemma ReferenceAtSound(s: string, i: nat)
    requires i <= |s|
    ensures ReferenceAt(s, i).Some? ==>
      var m := ReferenceAt(s, i).value;
      && m.start == i && i < m.stop <= |s|
      && s[i..m.stop] == Syntax(LinkRef, m.text, m.url)
      && NoBrackets(m.text) && NoParens(m.url)
  {
    if ReferenceAt(s, i).Some? {
      var j := RunEnd(s, i + 1, '[', ']');
      var k := RunEnd(s, j + 2, '(', ')');
      ReferenceSpan(s, i, j, k);
      RunSliceFree(s, i + 1, j, '[', ']');
      RunSliceFree(s, j + 2, k, '(', ')');
    }
  }

  /** A run free of `a` and `b` is a slice free of them. */
  lemma RunSliceFree(s: string, i: nat, j: nat, a: char, b: char)
    requires i <= j <= |s|
    requires forall k :: i <= k < j ==> s[k] != a && s[k] != b
    ensures forall p :: 0 <= p < |s[i..j]| ==> s[i..j][p] != a && s[i..j][p] != b
  {
    forall p | 0 <= p < |s[i..j]| ensures s[i..j][p] != a && s[i..j][p] != b {
      assert s[i..j][p] == s[i + p];
    }
  }

  /** What `MatchAt` finds is a well-formed reference of the kind asked for. */
  lemma MatchAtSound(s: string, i: nat, kind: Kind)
    requires i <= |s|
    ensures MatchAt(s, i, kind).Some? ==> WellFormed(s, MatchAt(s, i, kind).value, kind)
  {
    if kind == ImageRef && i < |s| && s[i] == '!' && ReferenceAt(s, i + 1).Some? {
      var r := ReferenceAt(s, i + 1).value;
      ReferenceAtSound(s, i + 1);
      ImageSpan(s, i, r.stop, r.text, r.url);
    } else if kind == LinkRef {
      ReferenceAtSound(s, i);
    }
  }

  /** Every match the scanner returns is a well-formed reference of the kind asked for. */
  lemma {:induction false} ScanSound(s: string, i: nat, kind: Kind)
    requires i <= |s|
    ensures forall k :: 0 <= k < |Scan(s, i, kind)| ==> WellFormed(s, Scan(s, i, kind)[k], kind)
    decreases |s| - i
  {
    if i < |s| {
      var ms, here := Scan(s, i, kind), MatchAt(s, i, kind);
      if here.Some? {
        var rest := Scan(s, here.value.stop, kind);
        MatchAtSound(s, i, kind);
        ScanSound(s, here.value.stop, kind);
        assert ms == [here.value] + rest;
        forall k | 0 <= k < |ms| ensures WellFormed(s, ms[k], kind) {
          if k > 0 {
            assert ms[k] == rest[k - 1];
          }
        }
      } else {
        ScanSound(s, i + 1, kind);
      }
    }
  }

  lemma ReferenceSpan(s: string, i: nat, j: nat, k: nat)
    requires i < j && j + 1 < k < |s|
    requires s[i] == '[' && s[j] == ']' && s[j + 1] == '(' && s[k] == ')'
    ensures s[i..k + 1] == Syntax(LinkRef, s[i + 1..j], s[j + 2..k])
  {
    assert s[i..k + 1] == [s[i]] + s[i + 1..j] + [s[j], s[j + 1]] + s[j + 2..k] + [s[k]];
  }

  lemma ImageSpan(s: string, i: nat, stop: nat, text: string, url: string)
    requires i < stop <= |s| && s[i] == '!'
    requires s[i + 1..stop] == Syntax(LinkRef, text, url)
    ensures s[i..stop] == Syntax(ImageRef, text, url)
  {
    assert s[i..stop] == [s[i]] + s[i + 1..stop];
  }

  /** The longest run is the only run that ends at a stop character or at the end. */
  lemma RunEndIs(s: string, i: nat, j: nat, a: char, b: char)
    requires i <= j <= |s|
    requires forall k :: i <= k < j ==> s[k] != a && s[k] != b
    requires j < |s| ==> s[j] == a || s[j] == b
    ensures RunEnd(s, i, a, b) == j
  {
    var r := RunEnd(s, i, a, b);
  }

  /** The characters of `[text](url)`, position by position. */
  lemma SyntaxChars(text: string, url: string)
    ensures var ref := Syntax(LinkRef, text, url);
      && |ref| == |text| + |url| + 4
      && ref[0] == '[' && ref[|text| + 1] == ']' && ref[|text| + 2] == '(' && ref[|ref| - 1] == ')'
      && (forall p :: 0 <= p < |text| ==> ref[1 + p] == text[p])
      && (forall p :: 0 <= p < |url| ==> ref[|text| + 3 + p] == url[p])
  {
    var ref := Syntax(LinkRef, text, url);
    assert ref == "[" + text + "](" + url + ")";
  }

  /** A slice that equals `t` holds `t`'s characters at the matching positions of `s`. */
  lemma SliceChars(s: string, i: nat, t: string)
    requires i + |t| <= |s| && s[i..i + |t|] == t
    ensures forall p :: 0 <= p < |t| ==> s[i + p] == t[p]
  {
    forall p | 0 <= p < |t| ensures s[i + p] == t[p] {
      assert s[i..i + |t|][p] == s[i + p];
    }
  }

  /** A well-formed `[text](url)` at `i` is what `ReferenceAt` finds there. */
  lemma ReferenceAtComplete(s: string, i: nat, stop: nat, text: string, url: string)
    requires NoBrackets(text) && NoParens(url)
    requires i <= stop <= |s| && s[i..stop] == Syntax(LinkRef, text, url)
    ensures ReferenceAt(s, i) == Some(Match(i, stop, text, url))
  {
    var ref := Syntax(LinkRef, text, url);
    assert stop == i + |ref|;
    var j := i + 1 + |text|;
    var k := j + 2 + |url|;
    ReferenceRuns(s, i, text, url);
    RunEndIs(s, i + 1, j, '[', ']');
    RunEndIs(s, j + 2, k, '(', ')');
    ReferenceFields(s, i, text, url);
  }

  /** The characters of a `[text](url)` at `i`: the text and URL runs and the four punctuation marks around them. */
  lemma ReferenceRuns(s: string, i: nat, text: string, url: string)
    requires NoBrackets(text) && NoParens(url)
    requires i + |Syntax(LinkRef, text, url)| <= |s|
    requires s[i..i + |Syntax(LinkRef, text, url)|] == Syntax(LinkRef, text, url)
    ensures var j, k := i + 1 + |text|, i + 3 + |text| + |url|;
      && k < |s| && s[i] == '[' && s[j] == ']' && s[j + 1] == '(' && s[k] == ')'
      && (forall p :: i + 1 <= p < j ==> s[p] != '[' && s[p] != ']')
      && (forall p :: j + 2 <= p < k ==> s[p] != '(' && s[p] != ')')
  {
    var ref := Syntax(LinkRef, text, url);
    SyntaxChars(text, url);
    SliceChars(s, i, ref);
    var j := i + 1 + |text|;
    var k := j + 2 + |url|;
    forall p | i + 1 <= p < j ensures s[p] != '[' && s[p] != ']' {
      assert s[i + (1 + (p - i - 1))] == text[p - i - 1];
    }
    forall p | j + 2 <= p < k ensures s[p] != '(' && s[p] != ')' {
      assert s[i + (|text| + 3 + (p - j - 2))] == url[p - j - 2];
    }
    assert s[i + 0] == '[';
    assert s[i + (|text| + 1)] == ']';
    assert s[i + (|text| + 2)] == '(';
    assert s[i + (|ref| - 1)] == ')';
  }

  lemma ReferenceFields(s: string, i: nat, text: string, url: string)
    requires i + |Syntax(LinkRef, text, url)| <= |s|
    requires s[i..i + |Syntax(LinkRef, text, url)|] == Syntax(LinkRef, text, url)
    ensures s[i + 1..i + 1 + |text|] == text
    ensures s[i + |text| + 3..i + |text| + 3 + |url|] == url
  {
    var ref := Syntax(LinkRef, text, url);
    SyntaxChars(text, url);
    SliceChars(s, i, ref);
    forall p | 0 <= p < |text| ensures s[i + 1..i + 1 + |text|][p] == text[p] {
      assert s[i + (1 + p)] == text[p];
    }
    forall p | 0 <= p < |url| ensures s[i + |text| + 3..i + |text| + 3 + |url|][p] == url[p] {
      assert s[i + (|text| + 3 + p)] == url[p];
    }
  }

  /** The characters every reference of a kind begins and ends with. */
  lemma WellFormedChars(s: string, kind: Kind)
    ensures forall m :: WellFormed(s, m, kind) ==>
      && m.start < m.stop
      && s[m.start] == (if kind == ImageRef then '!' else '[')
      && s[m.stop - 1] == ')'
      && (kind == ImageRef ==> s[m.start + 1] == '[')
  {
    forall m | WellFormed(s, m, kind)
      ensures m.start < m.stop
      ensures s[m.start] == (if kind == ImageRef then '!' else '[')
      ensures s[m.stop - 1] == ')'
      ensures kind == ImageRef ==> s[m.start + 1] == '['
    {
      MatchChars(s, m, kind);
    }
  }

  lemma MatchChars(s: string, m: Match, kind: Kind)
    requires WellFormed(s, m, kind)
    ensures m.start < m.stop
    ensures s[m.start] == (if kind == ImageRef then '!' else '[')
    ensures s[m.stop - 1] == ')'
    ensures kind == ImageRef ==> s[m.start + 1] == '['
    ensures kind == LinkRef ==> m.start + |m.text| + 2 < |s| && s[m.start + |m.text| + 2] == '('
  {
    if kind == ImageRef {
      ImageSlice(s, m);
      ReferenceEnds(s, m.start + 1, m.text, m.url);
    } else {
      ReferenceEnds(s, m.start, m.text, m.url);
    }
  }

  /** A `[text](url)` in `s` at `i` opens with `[` and closes with `)`. */
  lemma ReferenceEnds(s: string, i: nat, text: string, url: string)
    requires i + |Syntax(LinkRef, text, url)| <= |s|
    requires s[i..i + |Syntax(LinkRef, text, url)|] == Syntax(LinkRef, text, url)
    ensures s[i] == '[' && s[i + |Syntax(LinkRef, text, url)| - 1] == ')'
    ensures s[i + |text| + 2] == '('
  {
    var ref := Syntax(LinkRef, text, url);
    SyntaxChars(text, url);
    assert s[i] == s[i..i + |ref|][0];
    assert s[i + |ref| - 1] == s[i..i + |ref|][|ref| - 1];
    assert s[i + |text| + 2] == s[i..i + |ref|][|text| + 2];
  }

  /** A well-formed image is `!` followed by a `[text](url)`. */
  lemma ImageSlice(s: string, m: Match)
    requires WellFormed(s, m, ImageRef)
    ensures m.start < m.stop && s[m.start] == '!'
    ensures s[m.start + 1..m.stop] == Syntax(LinkRef, m.text, m.url)
  {
    var i := m.start;
    var ref := Syntax(LinkRef, m.text, m.url);
    assert Syntax(ImageRef, m.text, m.url) == "!" + ref;
    assert s[i] == s[i..m.stop][0] == '!';
    assert s[i + 1..m.stop] == s[i..m.stop][1..];
  }

  /**
   * A reference of the given kind starts at `i` exactly when the scanner's
   * test at `i` reports it: the match at a position is the unique well-formed one.
   */
  lemma MatchAtIff(s: string, m: Match, kind: Kind)
    requires m.start <= |s|
    ensures MatchAt(s, m.start, kind) == Some(m) <==> WellFormed(s, m, kind)
  {
    MatchAtSound(s, m.start, kind);
    if WellFormed(s, m, kind) {
      if kind == ImageRef {
        ImageMatchAt(s, m);
      } else {
        ReferenceAtComplete(s, m.start, m.stop, m.text, m.url);
      }
    }
  }

  /** A well-formed image is the image the scanner's test finds where it starts. */
  lemma ImageMatchAt(s: string, m: Match)
    requires WellFormed(s, m, ImageRef)
    ensures MatchAt(s, m.start, ImageRef) == Some(m)
  {
    ImageReference(s, m);
    ImageAtReference(s, m.start, m.stop, m.text, m.url);
  }

  /** A `!` followed by a reference is the image made of that reference. */
  lemma ImageAtReference(s: string, i: nat, stop: nat, text: string, url: string)
    requires i < |s| && s[i] == '!'
    requires ReferenceAt(s, i + 1) == Some(Match(i + 1, stop, text, url))
    ensures ImageAt(s, i) == Some(Match(i, stop, text, url))
  {
  }

  /** Behind the `!` of a well-formed image stands the reference with its text and URL. */
  lemma ImageReference(s: string, m: Match)
    requires WellFormed(s, m, ImageRef)
    ensures m.start < |s| && s[m.start] == '!'
    ensures ReferenceAt(s, m.start + 1) == Some(Match(m.start + 1, m.stop, m.text, m.url))
  {
    ImageSlice(s, m);
    ReferenceAtComplete(s, m.start + 1, m.stop, m.text, m.url);
  }

  /** Position `p` lies within one of the matches. */
  predicate Covers(ms: seq<Match>, p: nat) {
    exists k :: 0 <= k < |ms| && ms[k].start <= p < ms[k].stop
  }

  /** Position `p` lies within match `k`. */
  predicate CoversAt(ms: seq<Match>, k: nat, p: nat) {
    k < |ms| && ms[k].start <= p < ms[k].stop
  }

  /** The scanner misses nothing: every position where a reference starts lies within one it returns. */
  lemma ScanComplete(s: string, i: nat, kind: Kind, p: nat)
    requires i <= p < |s|
    requires MatchAt(s, p, kind).Some?
    ensures Covers(Scan(s, i, kind), p)
  {
    var k := ScanCovering(s, i, kind, p);
  }

  /** The index of the match the scan from `i` returns around position `p`. */
  lemma {:induction false} ScanCovering(s: string, i: nat, kind: Kind, p: nat) returns (k: nat)
    requires i <= p < |s|
    requires MatchAt(s, p, kind).Some?
    ensures CoversAt(Scan(s, i, kind), k, p)
    decreases |s| - i
  {
    var here := MatchAt(s, i, kind);
    if here.Some? && here.value.stop <= p {
      var j := ScanCovering(s, here.value.stop, kind, p);
      k := j + 1;
      CoversAfterMatch(s, i, kind, p, j);
    } else if here.Some? {
      k := 0;
      CoversAtMatch(s, i, kind, p);
    } else {
      k := ScanCovering(s, i + 1, kind, p);
      ScanSkip(s, i, kind);
    }
  }

  lemma CoversAfterMatch(s: string, i: nat, kind: Kind, p: nat, j: nat)
    requires i < |s| && MatchAt(s, i, kind).Some?
    requires CoversAt(Scan(s, MatchAt(s, i, kind).value.stop, kind), j, p)
    ensures CoversAt(Scan(s, i, kind), j + 1, p)
  {
    ScanFirst(s, i, kind);
  }

  lemma CoversAtMatch(s: string, i: nat, kind: Kind, p: nat)
    requires i < |s| && MatchAt(s, i, kind).Some?
    requires i <= p < MatchAt(s, i, kind).value.stop
    ensures CoversAt(Scan(s, i, kind), 0, p)
  {
    ScanFirst(s, i, kind);
  }

  /** Scanning from the start of a match gives that match first: the result is leftmost-first. */
  lemma ScanFirst(s: string, i: nat, kind: Kind)
    requires i < |s| && MatchAt(s, i, kind).Some?
    ensures Scan(s, i, kind) == [MatchAt(s, i, kind).value] + Scan(s, MatchAt(s, i, kind).value.stop, kind)
  {
  }

  /** Where no reference starts, the scanner moves on by one character. */
  lemma ScanSkip(s: string, i: nat, kind: Kind)
    requires i < |s| && MatchAt(s, i, kind).None?
    ensures Scan(s, i, kind) == Scan(s, i + 1, kind)
  {
  }

  /** `[text](url)` right after `!` is the image's own reference, never a link. */
  lemma ImageIsNotLink(s: string, i: nat)
    requires i < |s| && MatchAt(s, i, ImageRef).Some?
    ensures MatchAt(s, i + 1, LinkRef).None?
  {
  }

  /** A text without `!` has no images. */
  lemma NoBangNoImages(s: string)
    requires forall k :: 0 <= k < |s| ==> s[k] != '!'
    ensures ExtractMarkdownImages(s) == []
  {
    var ms := Scan(s, 0, ImageRef);
    ScanSound(s, 0, ImageRef);
    if ms != [] {
      MatchChars(s, ms[0], ImageRef);
    }
  }

  /** A text without `)` has no references of either kind: an unclosed URL is never matched. */
  lemma UnclosedNoReferences(s: string, kind: Kind)
    requires forall k :: 0 <= k < |s| ==> s[k] != ')'
    ensures Scan(s, 0, kind) == []
  {
    var ms := Scan(s, 0, kind);
    ScanSound(s, 0, kind);
    if ms != [] {
      MatchChars(s, ms[0], kind);
    }
  }

  /** A text without `[` has no references of either kind. */
  lemma NoBracketNoReferences(s: string, kind: Kind)
    requires forall k :: 0 <= k < |s| ==> s[k] != '['
    ensures Scan(s, 0, kind) == []
  {
    NoBracketScan(s, 0, kind);
  }

  /** Without `[`, no position starts a reference, so the scanner skips to the end. */
  lemma {:induction false} NoBracketScan(s: string, i: nat, kind: Kind)
    requires i <= |s|
    requires forall k :: i <= k < |s| ==> s[k] != '['
    ensures Scan(s, i, kind) == []
    decreases |s| - i
  {
    if i < |s| {
      assert MatchAt(s, i, kind).None?;
      NoBracketScan(s, i + 1, kind);
    }
  }

  /** A text that is exactly one image yields exactly its (alt, url) pair. */
  lemma ExtractSingleImage(alt: string, url: string)
    requires NoBrackets(alt) && NoParens(url)
    ensures ExtractMarkdownImages(Syntax(ImageRef, alt, url)) == [(alt, url)]
  {
    var s := Syntax(ImageRef, alt, url);
    var m := Match(0, |s|, alt, url);
    assert s[0..|s|] == s;
    MatchAtIff(s, m, ImageRef);
    assert Scan(s, 0, ImageRef) == [m] + Scan(s, |s|, ImageRef);
  }

  /** A text that is exactly one link yields exactly its (text, url) pair. */
  lemma ExtractSingleLink(text: string, url: string)
    requires NoBrackets(text) && NoParens(url)
    ensures ExtractMarkdownLinks(Syntax(LinkRef, text, url)) == [(text, url)]
  {
    var s := Syntax(LinkRef, text, url);
    var m := Match(0, |s|, text, url);
    assert s[0..|s|] == s;
    MatchAtIff(s, m, LinkRef);
    assert Scan(s, 0, LinkRef) == [m] + Scan(s, |s|, LinkRef);
  }

  /**
   * An image yields no link: the link scanner rejects the reference after `!`,
   * and a `[` inside the URL has no `(` after it to open a link's URL.
   */
  lemma ImageYieldsNoLink(alt: string, url: string)
    requires NoBrackets(alt) && NoParens(url)
    ensures ExtractMarkdownLinks(Syntax(ImageRef, alt, url)) == []
  {
    var s := Syntax(ImageRef, alt, url);
    ImageLayout(alt, url);
    var ms := Scan(s, 0, LinkRef);
    ScanSound(s, 0, LinkRef);
    if ms != [] {
      MatchChars(s, ms[0], LinkRef);
    }
  }

  /**
   * Where the brackets and parentheses of an image can be: before its URL the
   * only `[` follows the `!`, and from the URL on there is no `(`.
   */
  lemma ImageLayout(alt: string, url: string)
    requires NoBrackets(alt) && NoParens(url)
    ensures var s := Syntax(ImageRef, alt, url);
      && |s| == |alt| + |url| + 5 && s[0] == '!'
      && (forall p :: 0 <= p <= 3 + |alt| && p != 1 ==> s[p] != '[')
      && (forall p :: 3 + |alt| < p < |s| ==> s[p] != '(')
  {
    var s := Syntax(ImageRef, alt, url);
    assert s == "![" + alt + "](" + url + ")";
    forall p | 0 <= p <= 3 + |alt| && p != 1 ensures s[p] != '[' {
      if 2 <= p < 2 + |alt| {
        assert s[p] == alt[p - 2];
      }
    }
    forall p | 3 + |alt| < p < |s| ensures s[p] != '(' {
      if p < 4 + |alt| + |url| {
        assert s[p] == url[p - 4 - |alt|];
      }
    }
  }

  // ---------------------------------------------------------------------------
  // split_nodes_image and split_nodes_link

  /** The node a reference becomes: an image or a link carrying the reference's URL. */
  function ReferenceNode(m: Match, kind: Kind): TextNode {
    TextNode(m.text, if kind == ImageRef then Image else Link, Some(m.url))
  }

  /** A stretch of plain text between references, or nothing when it is empty. */
  function PlainPiece(t: string): seq<TextNode> {
    if t == "" then [] else [TextNode(t, Text, None)]
  }

  /** `s[i..]` cut at the matches `ms`: plain pieces around the reference nodes. */
  function CutAt(s: string, ms: seq<Match>, i: nat, kind: Kind): seq<TextNode>
    requires i <= |s| && Ordered(ms, i, |s|)
    decreases |ms|
  {
    if ms == [] then PlainPiece(s[i..])
    else PlainPiece(s[i..ms[0].start]) + [ReferenceNode(ms[0], kind)] + CutAt(s, ms[1..], ms[0].stop, kind)
  }

  /** One node: a text node with references is cut at them; any other node is kept. */
  function SplitReferences(node: TextNode, kind: Kind): seq<TextNode> {
    if node.textType != Text then [node]
    else
      var ms := Scan(node.text, 0, kind);
      if ms == [] then [node] else CutAt(node.text, ms, 0, kind)
  }

  /** Every node split at its references of the given kind, in order. */
  function SplitAllReferences(nodes: seq<TextNode>, kind: Kind): seq<TextNode>
    decreases |nodes|
  {
    if nodes == [] then []
    else SplitAllReferences(nodes[..|nodes| - 1], kind) + SplitReferences(nodes[|nodes| - 1], kind)
  }

  /** `split_nodes_image` */
  function SplitNodesImage(nodes: seq<TextNode>): seq<TextNode> {
    SplitAllReferences(nodes, ImageRef)
  }

  /** `split_nodes_link` */
  function SplitNodesLink(nodes: seq<TextNode>): seq<TextNode> {
    SplitAllReferences(nodes, LinkRef)
  }

  /** The (text, url) pair of a reference node; nothing for a text node. */
  function Reference(node: TextNode): seq<(string, string)> {
    if node.textType == Text then [] else [(node.text, UrlText(node.url))]
  }

  /** The (text, url) pairs of the reference nodes in a list, in order. */
  function References(nodes: seq<TextNode>): seq<(string, string)> {
    FlatMap(Reference, nodes)
  }

  /** The Markdown a node came from: a reference is written back in its syntax, anything else is its text. */
  function Source(node: TextNode): string {
    match node.textType
    case Image => Syntax(ImageRef, node.text, UrlText(node.url))
    case Link => Syntax(LinkRef, node.text, UrlText(node.url))
    case _ => node.text
  }

  /** The Markdown of a list of nodes. */
  function Sources(nodes: seq<TextNode>): string {
    FlatMap(Source, nodes)
  }

  // ---------------------------------------------------------------------------
  // Splitter lemmas

  lemma ReferencesAppend(xs: seq<TextNode>, ys: seq<TextNode>)
    ensures References(xs + ys) == References(xs) + References(ys)
  {
    FlatMapAppend(Reference, xs, ys);
  }

  lemma SourcesAppend(xs: seq<TextNode>, ys: seq<TextNode>)
    ensures Sources(xs + ys) == Sources(xs) + Sources(ys)
  {
    FlatMapAppend(Source, xs, ys);
  }

  lemma SourcesSingle(node: TextNode)
    ensures Sources([node]) == Source(node)
  {
    FlatMapSingle(Source, node);
  }

  lemma PlainPieceFacts(t: string)
    ensures Sources(PlainPiece(t)) == t
    ensures References(PlainPiece(t)) == []
  {
    if t != "" {
      SourcesSingle(TextNode(t, Text, None));
      FlatMapSingle(Reference, TextNode(t, Text, None));
    }
  }

  lemma ReferenceNodeFacts(m: Match, kind: Kind)
    ensures Sources([ReferenceNode(m, kind)]) == Syntax(kind, m.text, m.url)
    ensures References([ReferenceNode(m, kind)]) == [(m.text, m.url)]
  {
    SourcesSingle(ReferenceNode(m, kind));
    FlatMapSingle(Reference, ReferenceNode(m, kind));
  }

  /** Cutting at well-formed matches loses nothing: the nodes write back to the text cut. */
  lemma {:induction false} CutAtSources(s: string, ms: seq<Match>, i: nat, kind: Kind)
    requires i <= |s| && Ordered(ms, i, |s|)
    requires forall k :: 0 <= k < |ms| ==> WellFormed(s, ms[k], kind)
    ensures Sources(CutAt(s, ms, i, kind)) == s[i..]
    decreases |ms|
  {
    if ms == [] {
      PlainPieceFacts(s[i..]);
    } else {
      var m, tail := ms[0], ms[1..];
      assert forall k :: 0 <= k < |tail| ==> tail[k] == ms[k + 1];
      CutAtSources(s, tail, m.stop, kind);
      CutAtSourcesStep(s, i, m, kind, CutAt(s, tail, m.stop, kind));
    }
  }

  lemma CutAtSourcesStep(s: string, i: nat, m: Match, kind: Kind, rest: seq<TextNode>)
    requires i <= m.start && WellFormed(s, m, kind)
    requires Sources(rest) == s[m.stop..]
    ensures Sources(PlainPiece(s[i..m.start]) + [ReferenceNode(m, kind)] + rest) == s[i..]
  {
    var before := PlainPiece(s[i..m.start]);
    var ref := [ReferenceNode(m, kind)];
    PlainPieceFacts(s[i..m.start]);
    ReferenceNodeFacts(m, kind);
    SourcesAppend(before + ref, rest);
    SourcesAppend(before, ref);
    var a, b, c := s[i..m.start], s[m.start..m.stop], s[m.stop..];
    Slices3(s, i, m.start, m.stop, |s|);
    assert Sources(before + ref) == a + b;
    assert Sources(before + ref + rest) == (a + b) + c;
    assert s[i..] == s[i..|s|] == a + b + c;
  }

  /** Cutting at matches invents nothing: the reference nodes are the matches' pairs. */
  lemma {:induction false} CutAtReferences(s: string, ms: seq<Match>, i: nat, kind: Kind)
    requires i <= |s| && Ordered(ms, i, |s|)
    ensures References(CutAt(s, ms, i, kind)) == Pairs(ms)
    decreases |ms|
  {
    if ms == [] {
      PlainPieceFacts(s[i..]);
    } else {
      var m := ms[0];
      var before := PlainPiece(s[i..m.start]);
      var ref := [ReferenceNode(m, kind)];
      var rest := CutAt(s, ms[1..], m.stop, kind);
      CutAtReferences(s, ms[1..], m.stop, kind);
      PlainPieceFacts(s[i..m.start]);
      ReferenceNodeFacts(m, kind);
      ReferencesAppend(before + ref, rest);
      ReferencesAppend(before, ref);
    }
  }

  /** Every plain text node a cut produces is non-empty. */
  lemma {:induction false} CutAtTextNonEmpty(s: string, ms: seq<Match>, i: nat, kind: Kind)
    requires i <= |s| && Ordered(ms, i, |s|)
    ensures TextNonEmpty(CutAt(s, ms, i, kind))
    decreases |ms|
  {
    if ms != [] {
      CutAtTextNonEmpty(s, ms[1..], ms[0].stop, kind);
    }
  }

  /** No plain text node in the list is empty. */
  predicate TextNonEmpty(nodes: seq<TextNode>) {
    forall k :: 0 <= k < |nodes| && nodes[k].textType == Text ==> nodes[k].text != ""
  }

  /**
   * Splitting one plain text node at its references: the reference nodes are
   * exactly what the extractor finds, and writing the nodes back gives the text.
   */
  lemma SplitReferencesOfText(text: string, url: Option<string>, kind: Kind)
    ensures References(SplitReferences(TextNode(text, Text, url), kind)) == Pairs(Scan(text, 0, kind))
    ensures Sources(SplitReferences(TextNode(text, Text, url), kind)) == text
  {
    var node := TextNode(text, Text, url);
    var ms := Scan(text, 0, kind);
    if ms == [] {
      SourcesSingle(node);
      FlatMapSingle(Reference, node);
    } else {
      ScanSound(text, 0, kind);
      CutAtSources(text, ms, 0, kind);
      CutAtReferences(text, ms, 0, kind);
    }
  }

  /** The splitters only cut: the Markdown of the nodes is unchanged. */
  lemma {:induction false} SplitAllReferencesKeepsSource(nodes: seq<TextNode>, kind: Kind)
    ensures Sources(SplitAllReferences(nodes, kind)) == Sources(nodes)
    decreases |nodes|
  {
    if nodes != [] {
      var n := |nodes| - 1;
      var init, node := nodes[..n], nodes[n];
      SplitAllReferencesKeepsSource(init, kind);
      SourcesAppend(SplitAllReferences(init, kind), SplitReferences(node, kind));
      SplitReferencesKeepsSource(node, kind);
      assert Sources(nodes) == Sources(init) + Source(node);
    }
  }

  /** Splitting one node only cuts it: its pieces spell its Markdown. */
  lemma SplitReferencesKeepsSource(node: TextNode, kind: Kind)
    ensures Sources(SplitReferences(node, kind)) == Source(node)
  {
    if node.textType == Text {
      SplitReferencesOfText(node.text, node.url, kind);
      assert node == TextNode(node.text, Text, node.url);
    } else {
      SourcesSingle(node);
    }
  }

  /** The splitters keep every plain text node non-empty if it was. */
  lemma {:induction false} SplitAllReferencesTextNonEmpty(nodes: seq<TextNode>, kind: Kind)
    requires TextNonEmpty(nodes)
    ensures TextNonEmpty(SplitAllReferences(nodes, kind))
    decreases |nodes|
  {
    if nodes != [] {
      var n := |nodes| - 1;
      var init, node := nodes[..n], nodes[n];
      assert TextNonEmpty(init) by {
        forall k | 0 <= k < n && init[k].textType == Text ensures init[k].text != "" {
          assert init[k] == nodes[k];
        }
      }
      SplitAllReferencesTextNonEmpty(init, kind);
      SplitReferencesTextNonEmpty(node, kind);
    }
  }

  /** Splitting one node whose plain text is non-empty yields no empty plain text. */
  lemma SplitReferencesTextNonEmpty(node: TextNode, kind: Kind)
    requires node.textType == Text ==> node.text != ""
    ensures TextNonEmpty(SplitReferences(node, kind))
  {
    var ms := Scan(node.text, 0, kind);
    if node.textType == Text && ms != [] {
      CutAtTextNonEmpty(node.text, ms, 0, kind);
    }
  }

  /** A text node with no `[` comes back from the splitters as it is. */
  lemma SplitReferencesWithoutBracket(node: TextNode, kind: Kind)
    requires forall k :: 0 <= k < |node.text| ==> node.text[k] != '['
    ensures SplitReferences(node, kind) == [node]
  {
    NoBracketNoReferences(node.text, kind);
  }

  // ---------------------------------------------------------------------------
  // text_to_textnodes

  /** `text_to_textnodes`: bold, then italic, then code spans, then images, then links. */
  function TextToTextNodes(text: string): Result<seq<TextNode>> {
    var bold :- SplitNodes([TextNode(text, Text, None)], "**", Bold);
    var italic :- SplitNodes(bold, "_", Italic);
    var code :- SplitNodes(italic, "`", Code);
    Ok(SplitNodesLink(SplitNodesImage(code)))
  }

  /** A text with no inline markup at all is one plain text node. */
  lemma TextToTextNodesPlain(text: string)
    requires text != ""
    requires !Contains(text, "**") && !Contains(text, "_") && !Contains(text, "`")
    requires forall k :: 0 <= k < |text| ==> text[k] != '['
    ensures TextToTextNodes(text) == Ok([TextNode(text, Text, None)])
  {
    var node := TextNode(text, Text, None);
    SplitNodesSingleUnchanged(node, "**", Bold);
    SplitNodesSingleUnchanged(node, "_", Italic);
    SplitNodesSingleUnchanged(node, "`", Code);
    SplitReferencesWithoutBracket(node, ImageRef);
    SplitReferencesWithoutBracket(node, LinkRef);
    SplitAllReferencesSingle(node, ImageRef);
    SplitAllReferencesSingle(node, LinkRef);
  }

  lemma SplitNodesSingleUnchanged(node: TextNode, delimiter: string, textType: TextType)
    requires node.textType == Text && node.url == None && node.text != ""
    requires delimiter != "" && !Contains(node.text, delimiter)
    ensures SplitNodes([node], delimiter, textType) == Ok([node])
  {
    SplitNodeWithoutDelimiter(node, delimiter, textType);
    assert TextNode(node.text, Text, None) == node;
    SplitAllSingle(node, delimiter, textType);
  }

  lemma SplitAllReferencesSingle(node: TextNode, kind: Kind)
    ensures SplitAllReferences([node], kind) == SplitReferences(node, kind)
  {
    assert [node][..0] == [];
  }

  /** An odd number of `**` makes the whole inline pass fail, as does an empty text. */
  lemma TextToTextNodesFailures(text: string)
    ensures Count(text, "**") % 2 == 1 ==> TextToTextNodes(text) == Err(UnclosedDelimiter)
    ensures TextToTextNodes("") == Err(EmptyNodeList)
  {
    var node := TextNode(text, Text, None);
    SplitNodeFailsIff(node, "**", Bold);
    assert [node][..0] == [];
    var empty := TextNode("", Text, None);
    assert Split("", "**") == [""];
    assert LabelParts([""], Bold) == [];
  }

  /** No plain text node that the inline pass emits is empty. */
  lemma TextToTextNodesNonEmpty(text: string)
    requires TextToTextNodes(text).Ok?
    ensures TextNonEmpty(TextToTextNodes(text).value)
  {
    var bold := SplitNodes([TextNode(text, Text, None)], "**", Bold).value;
    var italic := SplitNodes(bold, "_", Italic).value;
    var code := SplitNodes(italic, "`", Code).value;
    SplitAllShape(italic, "`", Code);
    assert TextNonEmpty(code);
    SplitAllReferencesTextNonEmpty(code, ImageRef);
    SplitAllReferencesTextNonEmpty(SplitNodesImage(code), LinkRef);
  }

  // ---------------------------------------------------------------------------
  // extract_title

  /** The index of the last line that opens with `# `, if any. */
  function LastTitleLine(lines: seq<string>): (r: Option<nat>)
    ensures r.Some? ==> r.value < |lines| && StartsWith(lines[r.value], "# ")
    ensures r.Some? ==> forall k :: r.value < k < |lines| ==> !StartsWith(lines[k], "# ")
    ensures r.None? ==> forall k :: 0 <= k < |lines| ==> !StartsWith(lines[k], "# ")
    decreases |lines|
  {
    if lines == [] then None
    else if StartsWith(lines[|lines| - 1], "# ") then Some(|lines| - 1)
    else LastTitleLine(lines[..|lines| - 1])
  }

  /** `extract_title`: the text of the last level-one heading line, stripped. */
  function ExtractTitle(markdown: string): (r: Result<string>)
    ensures r.Err? <==> NoTitle(Split(markdown, "\n"))
    ensures r.Err? ==> r.error == MissingTitle
    ensures r.Ok? ==> exists k: nat :: IsLastTitle(Split(markdown, "\n"), k) && r.value == Strip(Split(markdown, "\n")[k][2..])
  {
    var lines := Split(markdown, "\n");
    var k := LastTitleLine(lines);
    if k.None? then Err(MissingTitle)
    else
      assert IsLastTitle(lines, k.value);
      Ok(Strip(lines[k.value][2..]))
  }

  /** No line opens with `# `. */
  predicate NoTitle(lines: seq<string>) {
    forall k :: 0 <= k < |lines| ==> !StartsWith(lines[k], "# ")
  }

  /** Line `k` opens with `# ` and no later line does. */
  predicate IsLastTitle(lines: seq<string>, k: nat) {
    && k < |lines| && StartsWith(lines[k], "# ")
    && forall l :: k < l < |lines| ==> !StartsWith(lines[l], "# ")
  }
}
