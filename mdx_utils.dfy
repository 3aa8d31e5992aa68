/**
 * The table-of-contents extractor of the blog (lib/mdx-utils.ts): the source
 * of a post is cut into lines, and every line that is a Markdown ATX heading of
 * a level the caller wants, and whose cleaned text holds a word character,
 * gives one entry, with its text cleared of bold, italic, inline-code and
 * link markup, and the anchor id computed from that text.
 */
module MdxUtils {
  import opened Wrappers
  import opened JsText
  import opened Slug

  /** One entry of the table of contents. */
  datatype TocItem = TocItem(id: string, text: string, level: int)

  /** The two groups of the heading pattern: the number of `#` and the text after the white space. */
  datatype HeadingMatch = HeadingMatch(level: nat, text: string)

  predicate NoTerminator(s: string) {
    forall i :: 0 <= i < |s| ==> !IsLineTerminator(s[i])
  }

  // ---------------------------------------------------------------------------
  // Lazy search: `(.*?)` followed by a literal

  /** `pat` starts at offset `j` of `s`, and `.` can reach `j` (no line terminator before it). */
  predicate ClosesAt(s: string, pat: string, j: nat) {
    && j <= |s|
    && StartsWith(s[j..], pat)
    && forall i :: 0 <= i < j ==> !IsLineTerminator(s[i])
  }

  /**
   * How far a lazy `(.*?)` runs before the literal `pat` can follow: the
   * shortest stretch of non-terminators that is followed by `pat`.
   */
  function Find(s: string, pat: string): (r: Option<nat>)
    ensures r.Some? ==> r.value + |pat| <= |s|
    decreases |s|
  {
    if StartsWith(s, pat) then Some(0)
    else if s == [] || IsLineTerminator(s[0]) then None
    else
      match Find(s[1..], pat)
      case None => None
      case Some(k) => Some(k + 1)
  }

  /** `Find` stops where the literal starts, with no line terminator before it. */
  lemma {:induction false} FindCloses(s: string, pat: string)
    requires Find(s, pat).Some?
    ensures ClosesAt(s, pat, Find(s, pat).value)
    decreases |s|
  {
    if !StartsWith(s, pat) {
      var k := Find(s[1..], pat).value;
      FindCloses(s[1..], pat);
      assert s[k + 1..] == s[1..][k..];
    }
  }

  /** `Find` picks the shortest possible stretch, and fails only when no stretch works. */
  lemma {:induction false} FindLeast(s: string, pat: string, j: nat)
    requires ClosesAt(s, pat, j)
    ensures Find(s, pat).Some? && Find(s, pat).value <= j
    decreases |s|
  {
    if !StartsWith(s, pat) {
      assert j > 0 && s != [] && !IsLineTerminator(s[0]);
      assert s[1..][j - 1..] == s[j..];
      FindLeast(s[1..], pat, j - 1);
    }
  }

  /** The literal is found right after a stretch that holds neither a terminator nor its first character. */
  lemma {:induction false} FindAfter(x: string, rest: string, pat: string)
    requires pat != [] && StartsWith(rest, pat)
    requires NoTerminator(x) && pat[0] !in x
    ensures Find(x + rest, pat).Some? && Find(x + rest, pat).value == |x|
    decreases |x|
  {
    if x == [] {
      assert x + rest == rest;
    } else {
      assert (x + rest)[1..] == x[1..] + rest;
      assert (x + rest)[0] == x[0];
      FindAfter(x[1..], rest, pat);
    }
  }

  // ---------------------------------------------------------------------------
  // Markup removal

  /**
   * A global replace of `d(.*?)d` by the text between the delimiters, scanning
   * left to right: bold with `**`, italic with `*`, inline code with a backquote.
   */
  function StripPairs(s: string, d: string): (r: string)
    requires d != []
    ensures |r| <= |s|
    decreases |s|
  {
    if s == [] then []
    else if PairAt(s, d).Some? then
      var k := PairAt(s, d).value;
      s[|d|..|d| + k] + StripPairs(s[|d| + k + |d|..], d)
    else [s[0]] + StripPairs(s[1..], d)
  }

  /** Where `s` opens with `d`, the length of the text before the closing `d`, if there is one. */
  function PairAt(s: string, d: string): (r: Option<nat>)
    ensures r.Some? ==> |d| + r.value + |d| <= |s|
  {
    if StartsWith(s, d) then Find(s[|d|..], d) else None
  }

  /**
   * A global replace of `\[(.*?)\]\(.*?\)` by the link text. The first `](`
   * is the one the regular expression settles on: `LinkLeast` shows that
   * backtracking to a later one never yields an earlier or shorter match.
   */
  function StripLinks(s: string): (r: string)
    ensures |r| <= |s|
    decreases |s|
  {
    if s == [] then []
    else if s[0] == '[' && Find(s[1..], "](").Some? && Find(s[Find(s[1..], "](").value + 3..], ")").Some? then
      var k := Find(s[1..], "](").value;
      var m := Find(s[k + 3..], ")").value;
      s[1..1 + k] + StripLinks(s[k + 3 + m + 1..])
    else [s[0]] + StripLinks(s[1..])
  }

  /** A complete link `[text](url)` at the start of `s`: `k` is the length of the text, `m` of the url. */
  predicate LinkAt(s: string, k: nat, m: nat) {
    && s != [] && s[0] == '['
    && ClosesAt(s[1..], "](", k)
    && k + 3 <= |s|
    && ClosesAt(s[k + 3..], ")", m)
  }

  /**
   * The link `StripLinks` removes at the start of `s` is the one the
   * regular expression matches: the shortest text, and for it the shortest
   * url; and when it removes none, there is no link there at all.
   */
  lemma LinkLeast(s: string, k': nat, m': nat)
    requires LinkAt(s, k', m')
    ensures Find(s[1..], "](").Some?
    ensures Find(s[1..], "](").value <= k'
    ensures Find(s[Find(s[1..], "](").value + 3..], ")").Some?
    ensures Find(s[1..], "](").value == k' ==> Find(s[k' + 3..], ")").value <= m'
  {
    FindLeast(s[1..], "](", k');
    var k := Find(s[1..], "](").value;
    var tail := s[k + 3..];
    var j := k' - k + m';
    assert s[1..][k'..][..2] == "](";
    assert s[k' + 1] == ']' && s[k' + 2] == '(';
    assert s[k' + 3..][m'..][..1] == ")";
    assert tail[j] == s[k' + 3 + m'] == ')';
    forall i | 0 <= i < j ensures !IsLineTerminator(tail[i]) {
      var p := k + 3 + i;
      assert tail[i] == s[p];
      if p < k' + 1 {
        assert s[p] == s[1..][p - 1];
      } else if p >= k' + 3 {
        assert s[p] == s[k' + 3..][p - k' - 3];
      }
    }
    assert tail[j..][..1] == ")";
    FindLeast(tail, ")", j);
  }

  /** The cleaned heading text: the four markup removals, then `trim()`. */
  function CleanText(text: string): string {
    Trim(StripLinks(StripPairs(StripPairs(StripPairs(text, "**"), "*"), "`")))
  }

  /** Without the delimiter's first character, `StripPairs` changes nothing. */
  lemma {:induction false} StripPairsKeeps(s: string, d: string)
    requires d != [] && d[0] !in s
    ensures StripPairs(s, d) == s
    decreases |s|
  {
    if s != [] {
      StripPairsKeeps(s[1..], d);
      assert s == [s[0]] + s[1..];
    }
  }

  /** Without `[`, `StripLinks` changes nothing. */
  lemma {:induction false} StripLinksKeeps(s: string)
    requires '[' !in s
    ensures StripLinks(s) == s
    decreases |s|
  {
    if s != [] {
      StripLinksKeeps(s[1..]);
      assert s == [s[0]] + s[1..];
    }
  }

  /** A trimmed text without `*`, backquote or `[` is its own cleaned text. */
  lemma CleanTextKeepsPlain(text: string)
    requires '*' !in text && '`' !in text && '[' !in text
    requires IsTrimmed(text)
    ensures CleanText(text) == text
  {
    StripPairsKeeps(text, "**");
    StripPairsKeeps(text, "*");
    StripPairsKeeps(text, "`");
    StripLinksKeeps(text);
  }

  /** Text before the first delimiter character passes through unchanged. */
  lemma {:induction false} StripPairsPrefix(a: string, rest: string, d: string)
    requires d != [] && d[0] !in a
    ensures StripPairs(a + rest, d) == a + StripPairs(rest, d)
    decreases |a|
  {
    if a != [] {
      var s := a + rest;
      assert s[0] == a[0];
      assert s[1..] == a[1..] + rest;
      assert !StartsWith(s, d) by {
        assert a[0] != d[0];
        if |d| <= |s| {
          assert s[..|d|][0] == s[0];
        }
      }
      assert PairAt(s, d).None?;
      StripPairsPrefix(a[1..], rest, d);
      assert a == [a[0]] + a[1..];
      ConsAssoc(a[0], a[1..], StripPairs(rest, d));
    } else {
      assert a + rest == rest;
    }
  }

  /** A delimited span `d x d` whose inside has no delimiter character is replaced by its inside. */
  lemma StripPairsWrapped(x: string, rest: string, d: string)
    requires d != [] && d[0] !in x && NoTerminator(x)
    ensures StripPairs(d + x + d + rest, d) == x + StripPairs(rest, d)
  {
    var s := d + x + d + rest;
    assert s[|d|..] == x + (d + rest);
    FindAfter(x, d + rest, d);
    assert s[..|d|] == d;
    assert s[|d|..|d| + |x|] == x && s[|d| + |x| + |d|..] == rest;
    StripPairsAtPair(s, d, x, rest);
  }

  /** A delimiter whose closing partner is found after `x` is replaced by `x`. */
  lemma StripPairsAtPair(s: string, d: string, x: string, rest: string)
    requires d != [] && PairAt(s, d).Some? && PairAt(s, d).value == |x|
    requires s[|d|..|d| + |x|] == x && s[|d| + |x| + |d|..] == rest
    ensures StripPairs(s, d) == x + StripPairs(rest, d)
  {
  }

  /** Text before the first `[` passes through unchanged. */
  lemma {:induction false} StripLinksPrefix(a: string, rest: string)
    requires '[' !in a
    ensures StripLinks(a + rest) == a + StripLinks(rest)
    decreases |a|
  {
    if a != [] {
      var s := a + rest;
      assert s[0] == a[0];
      assert s[1..] == a[1..] + rest;
      assert StripLinks(s) == [s[0]] + StripLinks(s[1..]);
      StripLinksPrefix(a[1..], rest);
      assert a == [a[0]] + a[1..];
      ConsAssoc(a[0], a[1..], StripLinks(rest));
    } else {
      assert a + rest == rest;
    }
  }

  /** A link `[x](u)` is replaced by its text `x`. */
  lemma StripLinksWrapped(x: string, u: string, rest: string)
    requires ']' !in x && NoTerminator(x)
    requires ')' !in u && NoTerminator(u)
    ensures StripLinks("[" + x + "](" + u + ")" + rest) == x + StripLinks(rest)
  {
    var s := "[" + x + "](" + u + ")" + rest;
    var k := |x|;
    assert s[1..] == x + ("](" + u + ")" + rest);
    FindAfter(x, "](" + u + ")" + rest, "](");
    assert s[k + 3..] == u + (")" + rest);
    FindAfter(u, ")" + rest, ")");
    assert s[1..1 + k] == x;
    assert s[k + 3 + |u| + 1..] == rest;
  }

  // ---------------------------------------------------------------------------
  // The heading pattern `^(#{1,6})\s+(.+)$` on a trimmed line

  /** One way the pattern can split a line: 1 to 6 `#`, white space, then a non-empty text without line terminators. */
  predicate HeadingSplit(t: string, hashes: string, gap: string, text: string) {
    && t == hashes + gap + text
    && 1 <= |hashes| <= 6 && AllSatisfy(hashes, IsHash)
    && gap != [] && AllSatisfy(gap, IsSpace)
    && text != [] && NoTerminator(text)
  }

  /** The match of the heading pattern against the trimmed line, if any. */
  function MatchHeading(line: string): Option<HeadingMatch>
  {
    MatchTrimmed(Trim(line))
  }

  /** The heading pattern against a line that is already trimmed. */
  function MatchTrimmed(t: string): Option<HeadingMatch>
  {
    var h := Span(t, IsHash);
    if h < 1 || h > 6 || h == |t| || !IsSpace(t[h]) then None
    else MatchAfterHashes(h, t[h..])
  }

  /** The rest of the pattern, `\s+(.+)$`, after `h` hash signs: the white-space run is taken whole. */
  function MatchAfterHashes(h: nat, rest: string): Option<HeadingMatch>
  {
    var g := Span(rest, IsSpace);
    if g == |rest| || !NoTerminator(rest[g..]) then None
    else Some(HeadingMatch(h, rest[g..]))
  }

  /** A match is a split of the trimmed line, with all the white space taken by the gap. */
  lemma MatchHeadingSound(line: string)
    requires MatchHeading(line).Some?
    ensures var t := Trim(line); var m := MatchHeading(line).value;
      && |m.text| <= |t| - m.level
      && HeadingSplit(t, t[..m.level], t[m.level..|t| - |m.text|], m.text)
      && !IsSpace(m.text[0])
  {
    MatchTrimmedSound(Trim(line));
  }

  lemma MatchTrimmedSound(t: string)
    requires MatchTrimmed(t).Some?
    ensures var m := MatchTrimmed(t).value;
      && |m.text| <= |t| - m.level
      && HeadingSplit(t, t[..m.level], t[m.level..|t| - |m.text|], m.text)
      && !IsSpace(m.text[0])
  {
    var h := Span(t, IsHash);
    var rest := t[h..];
    assert MatchTrimmed(t) == MatchAfterHashes(h, rest);
    var g := Span(rest, IsSpace);
    var text := rest[g..];
    assert MatchTrimmed(t).value.text == text;
    assert t[h..|t| - |text|] == rest[..g];
    SoundParts(t, h, g);
  }

  /** A line cut at `h` and `h + g` is the concatenation of its three pieces. */
  lemma SoundParts(t: string, h: nat, g: nat)
    requires h + g <= |t|
    requires forall i :: 0 <= i < h ==> IsHash(t[i])
    requires forall i :: 0 <= i < g ==> IsSpace(t[h..][i])
    ensures t == t[..h] + t[h..][..g] + t[h..][g..]
    ensures AllSatisfy(t[..h], IsHash) && AllSatisfy(t[h..][..g], IsSpace)
  {
    assert t[h..] == t[h..][..g] + t[h..][g..];
  }

  /** Every split of the trimmed line is found, with the white space at the head of its text moved into the gap. */
  lemma MatchHeadingComplete(line: string, hashes: string, gap: string, text: string)
    requires HeadingSplit(Trim(line), hashes, gap, text)
    ensures Span(text, IsSpace) < |text|
    ensures MatchHeading(line).Some?
    ensures MatchHeading(line).value.level == |hashes|
    ensures MatchHeading(line).value.text == text[Span(text, IsSpace)..]
  {
    var t := Trim(line);
    SplitParts(t, hashes, gap, text);
    GapThenText(gap, text);
    MatchTrimmedAt(t, |hashes|, gap + text, |gap| + Span(text, IsSpace));
  }

  /** The run of `#` at the head of the line is `hashes`, and the trimmed line cannot end in white space. */
  lemma SplitParts(t: string, hashes: string, gap: string, text: string)
    requires IsTrimmed(t) && HeadingSplit(t, hashes, gap, text)
    ensures Span(t, IsHash) == |hashes|
    ensures t[|hashes|..] == gap + text
    ensures Span(text, IsSpace) < |text|
  {
    assert t == hashes + (gap + text);
    HashesThen(t, hashes, gap + text);
    assert t[|t| - 1] == text[|text| - 1];
  }

  /** The run of `#` at the head of `hashes + rest` is `hashes` when `rest` starts with something else. */
  lemma HashesThen(t: string, hashes: string, rest: string)
    requires t == hashes + rest
    requires AllSatisfy(hashes, IsHash) && rest != [] && !IsHash(rest[0])
    ensures Span(t, IsHash) == |hashes|
    ensures t[|hashes|..] == rest
  {
    assert t[|hashes|] == rest[0];
    assert forall i :: 0 <= i < |hashes| ==> t[i] == hashes[i];
    SpanStopsAt(t, IsHash, |hashes|);
  }

  /** The white space after the hash signs runs through the gap and the white space at the head of the text. */
  lemma GapThenText(gap: string, text: string)
    requires gap != [] && AllSatisfy(gap, IsSpace) && NoTerminator(text)
    ensures IsSpace((gap + text)[0])
    ensures Span(gap + text, IsSpace) == |gap| + Span(text, IsSpace)
    ensures (gap + text)[|gap| + Span(text, IsSpace)..] == text[Span(text, IsSpace)..]
    ensures NoTerminator(text[Span(text, IsSpace)..])
  {
    SpanAfterRun(gap, text, IsSpace);
    var n := Span(text, IsSpace);
    assert forall i :: 0 <= i < |text| - n ==> text[n..][i] == text[n + i];
  }

  /** The pattern matches once its three parts are in place. */
  lemma MatchTrimmedAt(t: string, h: nat, rest: string, n: nat)
    requires 1 <= h <= 6 && Span(t, IsHash) == h && t[h..] == rest
    requires rest != [] && IsSpace(rest[0])
    requires Span(rest, IsSpace) == n && n < |rest| && NoTerminator(rest[n..])
    ensures MatchTrimmed(t).Some?
    ensures MatchTrimmed(t).value.level == h
    ensures MatchTrimmed(t).value.text == rest[n..]
  {
    assert h < |t| && t[h] == rest[0];
    assert MatchTrimmed(t) == MatchAfterHashes(h, rest);
  }

  /**
   * Lines that are not headings: a run of `#` followed by something that is
   * neither `#` nor white space (a line that does not start with `#` at all
   * is the case `k == 0`), seven or more `#`, or nothing but `#`.
   */
  lemma NotHeadings(line: string, k: nat)
    ensures var t := Trim(line);
      k < |t| && AllSatisfy(t[..k], IsHash) && !IsHash(t[k]) && !IsSpace(t[k]) ==> MatchHeading(line).None?
    ensures var t := Trim(line); 7 <= |t| && AllSatisfy(t[..7], IsHash) ==> MatchHeading(line).None?
    ensures AllSatisfy(Trim(line), IsHash) ==> MatchHeading(line).None?
  {
    var t := Trim(line);
    if k < |t| && AllSatisfy(t[..k], IsHash) && !IsHash(t[k]) {
      assert forall i :: 0 <= i < k ==> t[..k][i] == t[i];
      SpanStopsAt(t, IsHash, k);
    }
    if 7 <= |t| && AllSatisfy(t[..7], IsHash) {
      assert forall i :: 0 <= i < 7 ==> t[..7][i] == t[i];
      assert Span(t, IsHash) >= 7;
    }
  }

  // ---------------------------------------------------------------------------
  // Entries and the outline

  /** An entry as the extractor builds it. */
  predicate WellFormed(e: TocItem, maxLevel: int) {
    && 1 <= e.level <= 6 && e.level <= maxLevel
    && e.text != [] && IsTrimmed(e.text)
    && e.id != [] && IsSlug(e.id) && e.id == Slugify(e.text)
  }

  /** The entry one line contributes, if any. */
  function Entry(line: string, maxLevel: int): Option<TocItem>
  {
    match MatchHeading(line)
    case None => None
    case Some(m) =>
      if m.level > maxLevel then None
      else
        var text := CleanText(m.text);
        var id := Slugify(text);
        if text != [] && id != [] then Some(TocItem(id, text, m.level)) else None
  }

  /** Every entry has a level from 1 to the bound, a trimmed non-empty text, and that text's well-formed, non-empty anchor id. */
  lemma EntryWellFormed(line: string, maxLevel: int)
    requires Entry(line, maxLevel).Some?
    ensures WellFormed(Entry(line, maxLevel).value, maxLevel)
  {
    MatchHeadingSound(line);
    SlugifyIsSlug(CleanText(MatchHeading(line).value.text));
  }

  /** A line gives an entry exactly when it is a heading within the level bound whose cleaned text holds a `\w` character. */
  lemma EntryIff(line: string, maxLevel: int)
    ensures Entry(line, maxLevel).Some? <==>
      && MatchHeading(line).Some?
      && MatchHeading(line).value.level <= maxLevel
      && HasWordChar(CleanText(MatchHeading(line).value.text))
  {
    if MatchHeading(line).Some? {
      var text := CleanText(MatchHeading(line).value.text);
      SlugifyNonEmptyIff(text);
    }
  }

  /** The values held by the `Some` elements of `opts`, in order. */
  function Somes<T>(opts: seq<Option<T>>): (r: seq<T>)
    ensures |r| <= |opts|
  {
    if opts == [] then []
    else
      var init := Somes(opts[..|opts| - 1]);
      if opts[|opts| - 1].Some? then init + [opts[|opts| - 1].value] else init
  }

  lemma {:induction false} SomesAppend<T>(a: seq<Option<T>>, b: seq<Option<T>>)
    ensures Somes(a + b) == Somes(a) + Somes(b)
    decreases |b|
  {
    if b == [] {
      assert a + b == a;
    } else {
      var ab := a + b;
      assert ab[..|ab| - 1] == a + b[..|b| - 1];
      assert ab[|ab| - 1] == b[|b| - 1];
      SomesAppend(a, b[..|b| - 1]);
    }
  }

  /** Every value kept comes from an element of `opts`. */
  lemma {:induction false} SomesFrom<T>(opts: seq<Option<T>>)
    ensures forall k :: 0 <= k < |Somes(opts)| ==> Some(Somes(opts)[k]) in opts
  {
    if opts != [] {
      var init := opts[..|opts| - 1];
      SomesFrom(init);
      assert forall o :: o in init ==> o in opts;
    }
  }

  lemma {:induction false} SomesOfNones<T>(opts: seq<Option<T>>)
    requires forall k :: 0 <= k < |opts| ==> opts[k].None?
    ensures Somes(opts) == []
  {
    if opts != [] {
      SomesOfNones(opts[..|opts| - 1]);
    }
  }

  function MapSeq<A, B>(f: A -> B, xs: seq<A>): (r: seq<B>)
    ensures |r| == |xs|
  {
    seq(|xs|, k requires 0 <= k < |xs| => f(xs[k]))
  }

  lemma MapSeqAppend<A, B>(f: A -> B, a: seq<A>, b: seq<A>)
    ensures MapSeq(f, a + b) == MapSeq(f, a) + MapSeq(f, b)
  {
    var x := MapSeq(f, a + b);
    var y := MapSeq(f, a) + MapSeq(f, b);
    forall k | 0 <= k < |x| ensures x[k] == y[k] {
      if k < |a| {
        assert (a + b)[k] == a[k];
      } else {
        assert (a + b)[k] == b[k - |a|];
      }
    }
  }

  /** What each line contributes. */
  function Entries(lines: seq<string>, maxLevel: int): (r: seq<Option<TocItem>>)
    ensures |r| == |lines|
  {
    MapSeq(line => Entry(line, maxLevel), lines)
  }

  lemma EntriesAt(lines: seq<string>, maxLevel: int)
    ensures forall k :: 0 <= k < |lines| ==> Entries(lines, maxLevel)[k] == Entry(lines[k], maxLevel)
  {
  }

  /** The entries of `lines`, in order. */
  function Outline(lines: seq<string>, maxLevel: int): (r: seq<TocItem>)
    ensures |r| <= |lines|
  {
    Somes(Entries(lines, maxLevel))
  }

  /** `extractHeadingsFromMDX`. */
  method ExtractHeadingsFromMDX(content: string, maxLevel: int := 6) returns (headings: seq<TocItem>)
    ensures headings == Outline(Lines(content), maxLevel)
  {
    headings := [];
    var lines := Lines(content);
    var i := 0;
    while i < |lines|
      invariant 0 <= i <= |lines|
      invariant headings == Outline(lines[..i], maxLevel)
    {
      var e := Entry(lines[i], maxLevel);
      OutlineStep(lines, i, maxLevel);
      if e.Some? {
        headings := headings + [e.value];
      }
      i := i + 1;
    }
    assert lines[..|lines|] == lines;
  }

  /** One more line adds its entry, if it has one, at the end. */
  lemma OutlineStep(lines: seq<string>, i: nat, maxLevel: int)
    requires i < |lines|
    ensures Outline(lines[..i + 1], maxLevel) ==
      Outline(lines[..i], maxLevel) + (if Entry(lines[i], maxLevel).Some? then [Entry(lines[i], maxLevel).value] else [])
  {
    assert lines[..i + 1] == lines[..i] + [lines[i]];
    OutlineAppend(lines[..i], [lines[i]], maxLevel);
    OutlineSingle(lines[i], maxLevel);
  }

  /** Every entry is well formed. */
  lemma OutlineWellFormed(lines: seq<string>, maxLevel: int)
    ensures forall k :: 0 <= k < |Outline(lines, maxLevel)| ==> WellFormed(Outline(lines, maxLevel)[k], maxLevel)
  {
    var es := Entries(lines, maxLevel);
    EntriesAt(lines, maxLevel);
    SomesFrom(es);
    forall k | 0 <= k < |Somes(es)| ensures WellFormed(Somes(es)[k], maxLevel) {
      var j :| 0 <= j < |es| && es[j] == Some(Somes(es)[k]);
      EntryWellFormed(lines[j], maxLevel);
    }
  }

  /** Lines are read independently and in order: the outline of two blocks is the outline of the first followed by that of the second. */
  lemma OutlineAppend(a: seq<string>, b: seq<string>, maxLevel: int)
    ensures Outline(a + b, maxLevel) == Outline(a, maxLevel) + Outline(b, maxLevel)
  {
    EntriesAppend(a, b, maxLevel);
    SomesAppend(Entries(a, maxLevel), Entries(b, maxLevel));
  }

  lemma EntriesAppend(a: seq<string>, b: seq<string>, maxLevel: int)
    ensures Entries(a + b, maxLevel) == Entries(a, maxLevel) + Entries(b, maxLevel)
  {
    MapSeqAppend(line => Entry(line, maxLevel), a, b);
  }

  /** A single line gives its entry or nothing. */
  lemma OutlineSingle(line: string, maxLevel: int)
    ensures Outline([line], maxLevel) == (if Entry(line, maxLevel).Some? then [Entry(line, maxLevel).value] else [])
  {
    var es := Entries([line], maxLevel);
    EntriesAt([line], maxLevel);
    assert es[..0] == [];
  }

  /** Lines that are not headings contribute nothing. */
  lemma OutlineEmpty(lines: seq<string>, maxLevel: int)
    requires forall k :: 0 <= k < |lines| ==> MatchHeading(lines[k]).None?
    ensures Outline(lines, maxLevel) == []
  {
    EntriesAt(lines, maxLevel);
    SomesOfNones(Entries(lines, maxLevel));
  }

  /** The entries of `es` of level at most `m`, in order. */
  function UpToLevel(es: seq<TocItem>, m: int): (r: seq<TocItem>)
    ensures |r| <= |es|
    ensures forall k :: 0 <= k < |r| ==> r[k].level <= m
    ensures forall e :: e in r <==> e in es && e.level <= m
  {
    if es == [] then []
    else if es[|es| - 1].level <= m then UpToLevel(es[..|es| - 1], m) + [es[|es| - 1]]
    else UpToLevel(es[..|es| - 1], m)
  }

  /** Lowering the level bound of one line drops its entry exactly when the entry is deeper than the new bound. */
  lemma EntryLevelBound(line: string, m: int, bigger: int)
    requires m <= bigger
    ensures Entry(line, m) ==
      if Entry(line, bigger).Some? && Entry(line, bigger).value.level <= m then Entry(line, bigger) else None
  {
  }

  /** A lower level bound gives the entries of a higher one, minus those deeper than the bound. */
  lemma {:induction false} OutlineLevelFilter(lines: seq<string>, m: int, bigger: int)
    requires m <= bigger
    ensures Outline(lines, m) == UpToLevel(Outline(lines, bigger), m)
  {
    if lines != [] {
      var init := lines[..|lines| - 1];
      var last := lines[|lines| - 1];
      assert lines == init + [last];
      OutlineLevelFilter(init, m, bigger);
      OutlineAppend(init, [last], m);
      OutlineAppend(init, [last], bigger);
      OutlineSingle(last, m);
      OutlineSingle(last, bigger);
      EntryLevelBound(last, m, bigger);
      var big := Outline(lines, bigger);
      if Entry(last, bigger).Some? {
        assert big[..|big| - 1] == Outline(init, bigger);
      } else {
        assert big == Outline(init, bigger);
      }
    }
  }

  /** Headings have at most six `#`, so any bound of six or more is the default one. */
  lemma OutlineDefaultLevel(lines: seq<string>, maxLevel: int)
    requires maxLevel >= 6
    ensures Outline(lines, maxLevel) == Outline(lines, 6)
  {
    forall k | 0 <= k < |lines| ensures Entry(lines[k], maxLevel) == Entry(lines[k], 6) {
      if MatchHeading(lines[k]).Some? {
        MatchHeadingSound(lines[k]);
      }
    }
    EntriesAt(lines, maxLevel);
    EntriesAt(lines, 6);
    assert Entries(lines, maxLevel) == Entries(lines, 6);
  }

  /** A bound below one keeps nothing. */
  lemma OutlineBelowFirstLevel(lines: seq<string>, maxLevel: int)
    requires maxLevel < 1
    ensures Outline(lines, maxLevel) == []
  {
    EntriesAt(lines, maxLevel);
    SomesOfNones(Entries(lines, maxLevel));
  }

  /** The extractor reads back the lines a post was written as. */
  lemma OutlineOfJoinedLines(lines: seq<string>, maxLevel: int)
    requires |lines| >= 1
    requires forall k :: 0 <= k < |lines| ==> AllSatisfy(lines[k], IsNotNewline)
    ensures Outline(Lines(Join(lines, "\n")), maxLevel) == Outline(lines, maxLevel)
  {
    LinesOfJoin(lines);
  }

  /** `level` hash signs. */
  function Hashes(level: nat): (r: string)
    ensures |r| == level && AllSatisfy(r, IsHash)
  {
    if level == 0 then [] else Hashes(level - 1) + "#"
  }

  /**
   * A plain heading line (hash signs, one space, a trimmed text with no markup
   * and a `\w` character) gives the entry with that text, its level and the
   * text's anchor id.
   */
  lemma PlainHeadingEntry(level: nat, text: string, maxLevel: int)
    requires 1 <= level <= 6 && level <= maxLevel
    requires text != [] && IsTrimmed(text) && NoTerminator(text)
    requires '*' !in text && '`' !in text && '[' !in text
    requires HasWordChar(text)
    ensures Entry(Hashes(level) + " " + text, maxLevel) == Some(TocItem(Slugify(text), text, level))
  {
    var line := Hashes(level) + " " + text;
    PlainHeadingMatch(line, level, text);
    CleanTextKeepsPlain(text);
    SlugifyNonEmptyIff(text);
    EntryOfMatch(line, maxLevel, level, text);
  }

  lemma PlainHeadingMatch(line: string, level: nat, text: string)
    requires 1 <= level <= 6 && line == Hashes(level) + " " + text
    requires text != [] && IsTrimmed(text) && NoTerminator(text)
    ensures MatchHeading(line).Some?
    ensures MatchHeading(line).value.level == level && MatchHeading(line).value.text == text
  {
    assert line[0] == '#';
    assert line[|line| - 1] == text[|text| - 1];
    assert Trim(line) == line;
    assert HeadingSplit(line, Hashes(level), " ", text);
    MatchHeadingComplete(line, Hashes(level), " ", text);
    assert Span(text, IsSpace) == 0;
    assert text[0..] == text;
  }

  /** A matched heading whose text is already clean and has an anchor id gives that entry. */
  lemma EntryOfMatch(line: string, maxLevel: int, level: nat, text: string)
    requires MatchHeading(line).Some?
    requires MatchHeading(line).value.level == level && MatchHeading(line).value.text == text
    requires level <= maxLevel && CleanText(text) == text && text != [] && Slugify(text) != []
    ensures Entry(line, maxLevel) == Some(TocItem(Slugify(text), text, level))
  {
  }

  /** Worked example: a level-two heading with punctuation in its text. */
  lemma ExampleEntry()
    ensures Entry("## Hello, World! (v2)", 6) == Some(TocItem("hello-world-v2", "Hello, World! (v2)", 2))
  {
    ExampleHeadingLine();
    ExampleHeadingText();
    PlainHeadingEntry(2, "Hello, World! (v2)", 6);
    SlugifyExample();
  }

  lemma ExampleHeadingLine()
    ensures "## Hello, World! (v2)" == Hashes(2) + " " + "Hello, World! (v2)"
  {
    assert Hashes(2) == "##";
  }

  lemma ExampleHeadingText()
    ensures IsTrimmed("Hello, World! (v2)") && NoTerminator("Hello, World! (v2)")
    ensures HasWordChar("Hello, World! (v2)")
    ensures '*' !in "Hello, World! (v2)" && '`' !in "Hello, World! (v2)" && '[' !in "Hello, World! (v2)"
  {
    assert IsWordChar("Hello, World! (v2)"[0]);
  }
}
