/**
 * The anchor-id chain of the site. A heading's text is lower-cased; every
 * character that is not a word character, white space or a hyphen is
 * dropped; each run of white space becomes one hyphen; each run of hyphens
 * becomes one hyphen; and finally one leading and one trailing hyphen are
 * removed. The table of contents and the rendered headings each spell this
 * chain out; the two copies are identical, so it is defined once here.
 */
module Slug {
  import opened JsText

  /** A character that survives `/[^\w\s-]/g`. */
  predicate IsKept(c: char) {
    IsWordChar(c) || IsSpace(c) || c == '-'
  }

  /** A character an anchor id may hold: `[a-z0-9_-]`. */
  predicate IsSlugChar(c: char) {
    ('a' <= c <= 'z') || ('0' <= c <= '9') || c == '_' || c == '-'
  }

  /** A well-formed anchor id: `[a-z0-9_-]*`, no hyphen at either end, no `--`. */
  predicate IsSlug(s: string) {
    && AllSatisfy(s, IsSlugChar)
    && (s != [] ==> s[0] != '-' && s[|s| - 1] != '-')
    && NoAdjacent(s, IsHyphen)
  }

  predicate HasWordChar(s: string) {
    exists k :: 0 <= k < |s| && IsWordChar(s[k])
  }

  /** Drops every character that is not a word character, white space or a hyphen. */
  function KeepSlugChars(s: string): (r: string)
    ensures |r| <= |s|
  {
    if s == [] then []
    else if IsKept(s[0]) then [s[0]] + KeepSlugChars(s[1..])
    else KeepSlugChars(s[1..])
  }

  /** Each maximal run of white space becomes a single hyphen. */
  function HyphenateSpaces(s: string): string {
    ReplaceRuns(s, IsSpace, '-')
  }

  /** Each maximal run of hyphens becomes a single hyphen. */
  function CollapseHyphens(s: string): string {
    ReplaceRuns(s, IsHyphen, '-')
  }

  /** Removes one hyphen at the start and one at the end, where present. */
  function TrimEdgeHyphens(s: string): string {
    var t := if s != [] && s[0] == '-' then s[1..] else s;
    if t != [] && t[|t| - 1] == '-' then t[..|t| - 1] else t
  }

  /**
   * The edge trim keeps only characters of its input and every character other
   * than a hyphen; on a string without `--` it leaves no hyphen at either end,
   * and a string without edge hyphens is left as it is.
   */
  lemma TrimEdgeHyphensChars(s: string)
    ensures forall k :: 0 <= k < |TrimEdgeHyphens(s)| ==> TrimEdgeHyphens(s)[k] in s
    ensures forall c :: c in s && c != '-' ==> c in TrimEdgeHyphens(s)
    ensures NoAdjacent(s, IsHyphen) ==> NoAdjacent(TrimEdgeHyphens(s), IsHyphen)
    ensures NoAdjacent(s, IsHyphen) && TrimEdgeHyphens(s) != [] ==>
      TrimEdgeHyphens(s)[0] != '-' && TrimEdgeHyphens(s)[|TrimEdgeHyphens(s)| - 1] != '-'
    ensures s != [] && s[0] != '-' && s[|s| - 1] != '-' ==> TrimEdgeHyphens(s) == s
  {
  }

  /** The edge trim is its input with at most one hyphen dropped at each end. */
  lemma TrimEdgeHyphensInfix(s: string) returns (a: nat, b: nat)
    ensures a <= 1 && a <= b <= |s| && |s| - b <= 1
    ensures AllSatisfy(s[..a], IsHyphen) && AllSatisfy(s[b..], IsHyphen)
    ensures TrimEdgeHyphens(s) == s[a..b]
  {
    a := if s != [] && s[0] == '-' then 1 else 0;
    var t := s[a..];
    b := if t != [] && t[|t| - 1] == '-' then |s| - 1 else |s|;
    assert t[..|t| - (|s| - b)] == s[a..b];
  }

  /** The anchor id of a heading text (`generateHeadingId`, and the `id` of a table-of-contents entry). */
  function Slugify(text: string): string {
    TrimEdgeHyphens(CollapseHyphens(HyphenateSpaces(KeepSlugChars(Lower(text)))))
  }

  /** Every anchor id the chain produces is well formed. */
  lemma SlugifyIsSlug(text: string)
    ensures IsSlug(Slugify(text))
  {
    SlugStagesAreSlug(text);
  }

  /** The filter keeps exactly the characters of `\w`, `\s` and `-`, and nothing else. */
  lemma {:induction false} KeepSlugCharsChars(s: string)
    ensures AllSatisfy(KeepSlugChars(s), IsKept)
    ensures forall k :: 0 <= k < |KeepSlugChars(s)| ==> KeepSlugChars(s)[k] in s
    ensures forall c :: c in s && IsKept(c) ==> c in KeepSlugChars(s)
    ensures AllSatisfy(s, IsKept) ==> KeepSlugChars(s) == s
  {
    if s != [] {
      KeepSlugCharsChars(s[1..]);
      assert s == [s[0]] + s[1..];
    }
  }

  /** The filter works piecewise. */
  lemma {:induction false} KeepSlugCharsAppend(x: string, y: string)
    ensures KeepSlugChars(x + y) == KeepSlugChars(x) + KeepSlugChars(y)
  {
    if x == [] {
      assert x + y == y;
    } else {
      assert (x + y)[1..] == x[1..] + y;
      KeepSlugCharsAppend(x[1..], y);
    }
  }

  lemma SlugStagesAreSlug(text: string)
    ensures IsSlug(TrimEdgeHyphens(CollapseHyphens(HyphenateSpaces(KeepSlugChars(Lower(text))))))
  {
    var b := KeepSlugChars(Lower(text));
    KeptIsLower(text);
    HyphenatedAreSlugChars(b);
    CollapsedAreSlugChars(HyphenateSpaces(b));
    TrimmedIsSlug(CollapseHyphens(HyphenateSpaces(b)));
  }

  /** After lowering and filtering, every character is kept and none is upper-case. */
  lemma KeptIsLower(text: string)
    ensures forall k :: 0 <= k < |KeepSlugChars(Lower(text))| ==>
      IsKept(KeepSlugChars(Lower(text))[k]) && !IsUpper(KeepSlugChars(Lower(text))[k])
  {
    var a := Lower(text);
    KeepSlugCharsChars(a);
  }

  lemma HyphenatedAreSlugChars(b: string)
    requires forall k :: 0 <= k < |b| ==> IsKept(b[k]) && !IsUpper(b[k])
    ensures AllSatisfy(HyphenateSpaces(b), IsSlugChar)
  {
    var c := HyphenateSpaces(b);
    ReplaceRunsChars(b, IsSpace, '-');
    forall k | 0 <= k < |c| ensures IsSlugChar(c[k]) {
      if c[k] != '-' {
        var j :| 0 <= j < |b| && b[j] == c[k];
      }
    }
  }

  lemma CollapsedAreSlugChars(c: string)
    requires AllSatisfy(c, IsSlugChar)
    ensures AllSatisfy(CollapseHyphens(c), IsSlugChar)
    ensures NoAdjacent(CollapseHyphens(c), IsHyphen)
  {
    var d := CollapseHyphens(c);
    ReplaceRunsChars(c, IsHyphen, '-');
    ReplaceRunsNoAdjacent(c, IsHyphen, '-');
    forall k | 0 <= k < |d| ensures IsSlugChar(d[k]) {
      if d[k] != '-' {
        var j :| 0 <= j < |c| && c[j] == d[k];
      }
    }
  }

  lemma TrimmedIsSlug(d: string)
    requires AllSatisfy(d, IsSlugChar) && NoAdjacent(d, IsHyphen)
    ensures IsSlug(TrimEdgeHyphens(d))
  {
    var e := TrimEdgeHyphens(d);
    TrimEdgeHyphensChars(d);
    forall k | 0 <= k < |e| ensures IsSlugChar(e[k]) {
      var j :| 0 <= j < |d| && d[j] == e[k];
    }
  }

  /** Each stage of the chain leaves a well-formed anchor id as it is. */
  lemma SlugStagesFix(s: string)
    requires IsSlug(s)
    ensures Lower(s) == s && KeepSlugChars(s) == s && HyphenateSpaces(s) == s
    ensures CollapseHyphens(s) == s && TrimEdgeHyphens(s) == s
  {
    LowerFixesSlug(s);
    KeepFixesSlug(s);
    SlugKeepsSpaceless(s);
    CollapseFixesSlug(s);
    TrimEdgeHyphensChars(s);
  }

  lemma LowerFixesSlug(s: string)
    requires IsSlug(s)
    ensures Lower(s) == s
  {
    assert forall k :: 0 <= k < |s| ==> !IsUpper(s[k]);
  }

  lemma KeepFixesSlug(s: string)
    requires IsSlug(s)
    ensures KeepSlugChars(s) == s
  {
    assert AllSatisfy(s, IsKept);
    KeepSlugCharsChars(s);
  }

  lemma CollapseFixesSlug(s: string)
    requires IsSlug(s)
    ensures CollapseHyphens(s) == s
  {
    ReplaceRunsIdentity(s, IsHyphen, '-');
  }

  /** Every well-formed anchor id is left unchanged by the chain. */
  lemma SlugifyFixesSlugs(s: string)
    requires IsSlug(s)
    ensures Slugify(s) == s
  {
    SlugStagesFix(s);
  }

  /** Slugifying an anchor id a second time returns it unchanged. */
  lemma SlugifyIdempotent(text: string)
    ensures Slugify(Slugify(text)) == Slugify(text)
  {
    SlugifyIsSlug(text);
    SlugifyFixesSlugs(Slugify(text));
  }

  /** The text after the stages before the edge trim holds a `\w` character exactly when the input does. */
  lemma WordCharsThroughStages(text: string)
    ensures HasWordChar(CollapseHyphens(HyphenateSpaces(KeepSlugChars(Lower(text))))) <==> HasWordChar(text)
  {
    var a := Lower(text);
    var b := KeepSlugChars(a);
    var c := HyphenateSpaces(b);
    WordCharsOfLower(text);
    WordCharsOfKeep(a);
    WordCharsOfReplaceRuns(b, IsSpace, '-');
    WordCharsOfReplaceRuns(c, IsHyphen, '-');
  }

  lemma WordCharsOfLower(s: string)
    ensures HasWordChar(Lower(s)) <==> HasWordChar(s)
  {
    if HasWordChar(s) {
      var k :| 0 <= k < |s| && IsWordChar(s[k]);
      assert IsWordChar(Lower(s)[k]);
    }
  }

  lemma WordCharsOfKeep(s: string)
    ensures HasWordChar(KeepSlugChars(s)) <==> HasWordChar(s)
  {
    var r := KeepSlugChars(s);
    KeepSlugCharsChars(s);
    if HasWordChar(s) {
      var k :| 0 <= k < |s| && IsWordChar(s[k]);
      assert s[k] in r;
    }
    if HasWordChar(r) {
      var k :| 0 <= k < |r| && IsWordChar(r[k]);
      assert r[k] in s;
    }
  }

  lemma WordCharsOfReplaceRuns(s: string, P: char -> bool, rep: char)
    requires !IsWordChar(rep)
    requires forall c :: P(c) ==> !IsWordChar(c)
    ensures HasWordChar(ReplaceRuns(s, P, rep)) <==> HasWordChar(s)
  {
    var r := ReplaceRuns(s, P, rep);
    ReplaceRunsChars(s, P, rep);
    if HasWordChar(s) {
      var k :| 0 <= k < |s| && IsWordChar(s[k]);
      assert s[k] in r;
    }
    if HasWordChar(r) {
      var k :| 0 <= k < |r| && IsWordChar(r[k]);
      assert r[k] in s;
    }
  }

  /** An id is empty exactly when the text holds no `\w` character. */
  lemma SlugifyNonEmptyIff(text: string)
    ensures Slugify(text) != [] <==> HasWordChar(text)
  {
    var e := Slugify(text);
    WordCharsThroughStages(text);
    WordCharsOfTrimEdge(CollapseHyphens(HyphenateSpaces(KeepSlugChars(Lower(text)))));
    SlugifyIsSlug(text);
    if e != [] {
      assert IsWordChar(e[0]);
    }
  }

  lemma WordCharsOfTrimEdge(d: string)
    ensures HasWordChar(TrimEdgeHyphens(d)) <==> HasWordChar(d)
  {
    var e := TrimEdgeHyphens(d);
    TrimEdgeHyphensChars(d);
    if HasWordChar(d) {
      var k :| 0 <= k < |d| && IsWordChar(d[k]);
      assert d[k] in e;
    }
    if HasWordChar(e) {
      var k :| 0 <= k < |e| && IsWordChar(e[k]);
      assert e[k] in d;
    }
  }

  /** A character outside `[\w\s-]` has no effect on the id, wherever it stands. */
  lemma SlugifyIgnoresPunctuation(x: string, c: char, y: string)
    requires !IsKept(c)
    ensures Slugify(x + [c] + y) == Slugify(x + y)
  {
    KeptDropsPunctuation(x, c, y);
  }

  lemma KeptDropsPunctuation(x: string, c: char, y: string)
    requires !IsKept(c)
    ensures KeepSlugChars(Lower(x + [c] + y)) == KeepSlugChars(Lower(x + y))
  {
    LowerAppend(x + [c], y);
    LowerAppend(x, [c]);
    LowerAppend(x, y);
    var lx, ly := Lower(x), Lower(y);
    assert Lower([c]) == [ToLower(c)];
    KeepSlugCharsAppend(lx + [ToLower(c)], ly);
    KeepSlugCharsAppend(lx, [ToLower(c)]);
    KeepSlugCharsAppend(lx, ly);
    assert KeepSlugChars([ToLower(c)]) == [];
  }

  /** Every white-space run, whatever its length and characters, yields the id of a single space. */
  lemma SlugifyWhitespaceRun(x: string, run: string, y: string)
    requires run != [] && AllSatisfy(run, IsSpace)
    ensures Slugify(x + run + y) == Slugify(x + [run[0]] + y)
  {
    var kx, ky := KeepSlugChars(Lower(x)), KeepSlugChars(Lower(y));
    KeptAround(x, run, y);
    KeptAround(x, [run[0]], y);
    ReplaceRunsCollapse(kx, run, ky, IsSpace, '-');
  }

  lemma KeptAround(x: string, run: string, y: string)
    requires AllSatisfy(run, IsSpace)
    ensures KeepSlugChars(Lower(x + run + y)) == KeepSlugChars(Lower(x)) + run + KeepSlugChars(Lower(y))
  {
    LowerAppend(x + run, y);
    LowerAppend(x, run);
    assert Lower(run) == run;
    KeepSlugCharsAppend(Lower(x) + run, Lower(y));
    KeepSlugCharsAppend(Lower(x), run);
    KeepSlugCharsChars(run);
  }

  /** Two well-formed ids joined by one hyphen form a well-formed id. */
  lemma JoinedIdsAreSlug(x: string, y: string)
    requires IsSlug(x) && IsSlug(y) && x != [] && y != []
    ensures IsSlug(x + "-" + y)
  {
    var t := x + "-" + y;
    assert NoAdjacent(t, IsHyphen) by {
      forall k | 0 <= k < |t| - 1 ensures !(IsHyphen(t[k]) && IsHyphen(t[k + 1])) {
        if k < |x| - 1 {
          assert t[k] == x[k] && t[k + 1] == x[k + 1];
        } else if k > |x| {
          assert t[k] == y[k - |x| - 1] && t[k + 1] == y[k - |x|];
        }
      }
    }
  }

  /** Two well-formed ids joined by a space slugify to the two ids joined by one hyphen. */
  lemma SlugifyJoinsIds(x: string, y: string)
    requires IsSlug(x) && IsSlug(y) && x != [] && y != []
    ensures Slugify(x + " " + y) == x + "-" + y
  {
    var t := x + "-" + y;
    JoinedIdsStages(x, y);
    JoinedIdsAreSlug(x, y);
    SlugStagesFix(t);
  }

  lemma JoinedIdsStages(x: string, y: string)
    requires IsSlug(x) && IsSlug(y) && x != [] && y != []
    ensures HyphenateSpaces(KeepSlugChars(Lower(x + " " + y))) == x + "-" + y
  {
    JoinedIdsLower(x, y);
    JoinedIdsKeep(x, y);
    JoinedIdsHyphenate(x, y);
  }

  lemma JoinedIdsLower(x: string, y: string)
    requires IsSlug(x) && IsSlug(y)
    ensures Lower(x + " " + y) == x + " " + y
  {
    var s := x + " " + y;
    forall k | 0 <= k < |s| ensures !IsUpper(s[k]) {
      if k < |x| {
        assert s[k] == x[k];
      } else if k > |x| {
        assert s[k] == y[k - |x| - 1];
      }
    }
  }

  lemma JoinedIdsKeep(x: string, y: string)
    requires IsSlug(x) && IsSlug(y)
    ensures KeepSlugChars(x + " " + y) == x + " " + y
  {
    var s := x + " " + y;
    forall k | 0 <= k < |s| ensures IsKept(s[k]) {
      if k < |x| {
        assert s[k] == x[k];
      } else if k > |x| {
        assert s[k] == y[k - |x| - 1];
      }
    }
    KeepSlugCharsChars(s);
  }

  lemma JoinedIdsHyphenate(x: string, y: string)
    requires IsSlug(x) && IsSlug(y) && x != [] && y != []
    ensures HyphenateSpaces(x + " " + y) == x + "-" + y
  {
    SpaceThenSlug(y);
    SlugKeepsSpaceless(x);
    ReplaceRunsAppend(x, " " + y, IsSpace, '-');
    assert x + " " + y == x + (" " + y);
    assert x + "-" + y == x + ("-" + y);
  }

  /** A slug holds no whitespace, so hyphenating spaces leaves it alone. */
  lemma SlugKeepsSpaceless(s: string)
    requires IsSlug(s)
    ensures forall k :: 0 <= k < |s| ==> !IsSpace(s[k])
    ensures HyphenateSpaces(s) == s
  {
    assert forall k :: 0 <= k < |s| ==> !IsSpace(s[k]) by {
      forall k | 0 <= k < |s| ensures !IsSpace(s[k]) {
        assert IsSlugChar(s[k]);
      }
    }
    ReplaceRunsIdentity(s, IsSpace, '-');
  }

  /** A single space in front of a slug becomes a single hyphen. */
  lemma SpaceThenSlug(y: string)
    requires IsSlug(y) && y != []
    ensures ReplaceRuns(" " + y, IsSpace, '-') == "-" + y
  {
    SlugKeepsSpaceless(y);
    ReplaceRunsAppend(" ", y, IsSpace, '-');
    assert Span(" ", IsSpace) == 1;
    assert ReplaceRuns(" ", IsSpace, '-') == "-";
  }

  /** Worked example: the id of the heading text `Hello, World! (v2)`. */
  lemma SlugifyExample()
    ensures Slugify("Hello, World! (v2)") == "hello-world-v2"
  {
    ExamplePunctuation();
    ExampleStages();
  }

  /** The four punctuation marks of the example drop out one by one. */
  lemma ExamplePunctuation()
    ensures Slugify("Hello, World! (v2)") == Slugify("Hello World v2")
  {
    assert "Hello, World! (v2)" == "Hello" + [','] + " World" + ['!'] + " " + ['('] + "v2" + [')'];
    assert "Hello World v2" == "Hello" + " World" + " " + "v2";
    SlugifyIgnoresFour("Hello", " World", " ", "v2", ',', '!', '(', ')');
  }

  lemma SlugifyIgnoresFour(a: string, b: string, c: string, d: string, p: char, q: char, r: char, t: char)
    requires !IsKept(p) && !IsKept(q) && !IsKept(r) && !IsKept(t)
    ensures Slugify(a + [p] + b + [q] + c + [r] + d + [t]) == Slugify(a + b + c + d)
  {
    SlugifyIgnoresPunctuation(a + [p] + b + [q] + c + [r] + d, t, []);
    assert a + [p] + b + [q] + c + [r] + d + [t] + [] == a + [p] + b + [q] + c + [r] + d + [t];
    assert a + [p] + b + [q] + c + [r] + d + [] == a + [p] + b + [q] + c + ([r] + d);
    SlugifyIgnoresPunctuation(a + [p] + b + [q] + c, r, d);
    assert a + [p] + b + [q] + c + ([r] + d) == a + [p] + b + [q] + c + [r] + d;
    assert a + [p] + b + [q] + c + d == a + [p] + b + [q] + (c + d);
    SlugifyIgnoresPunctuation(a + [p] + b, q, c + d);
    assert a + [p] + b + [q] + (c + d) == a + [p] + b + [q] + c + d;
    assert a + [p] + b + (c + d) == a + [p] + (b + c + d);
    SlugifyIgnoresPunctuation(a, p, b + c + d);
    assert a + [p] + (b + c + d) == a + [p] + b + (c + d);
    assert a + (b + c + d) == a + b + c + d;
  }

  /** Lower-casing first does not change the id. */
  lemma SlugifyOfLower(s: string)
    ensures Slugify(Lower(s)) == Slugify(s)
  {
    var l := Lower(s);
    forall k | 0 <= k < |l| ensures ToLower(l[k]) == l[k] {
      assert !IsUpper(l[k]);
    }
    assert Lower(l) == l;
  }

  /** Three well-formed ids joined by single spaces slugify to the ids joined by hyphens. */
  lemma SlugifyJoinsThreeIds(x: string, y: string, z: string)
    requires IsSlug(x) && IsSlug(y) && IsSlug(z) && x != [] && y != [] && z != []
    ensures Slugify(x + " " + y + " " + z) == x + "-" + y + "-" + z
  {
    ThreeIdsStages(x, y, z);
    JoinedIdsAreSlug(x, y);
    JoinedIdsAreSlug(x + "-" + y, z);
    SlugStagesFix(x + "-" + y + "-" + z);
  }

  lemma ThreeIdsStages(x: string, y: string, z: string)
    requires IsSlug(x) && IsSlug(y) && IsSlug(z) && x != [] && y != [] && z != []
    ensures HyphenateSpaces(KeepSlugChars(Lower(x + " " + y + " " + z))) == x + "-" + y + "-" + z
  {
    var xy := x + " " + y;
    JoinedIdsLower(x, y);
    SpacedLower(xy, z);
    JoinedIdsKeep(x, y);
    SpacedKeep(xy, z);
    ThreeIdsHyphenate(x, y, z);
  }

  lemma ThreeIdsHyphenate(x: string, y: string, z: string)
    requires IsSlug(x) && IsSlug(y) && IsSlug(z) && x != [] && y != [] && z != []
    ensures HyphenateSpaces(x + " " + y + " " + z) == x + "-" + y + "-" + z
  {
    var xy := x + " " + y;
    JoinedIdsHyphenate(x, y);
    SlugKeepsSpaceless(y);
    assert xy[|xy| - 1] == y[|y| - 1];
    ReplaceRunsAppend(xy, " " + z, IsSpace, '-');
    SpaceThenSlug(z);
    assert xy + " " + z == xy + (" " + z);
    assert x + "-" + y + "-" + z == (x + "-" + y) + ("-" + z);
  }

  lemma SpacedLower(a: string, z: string)
    requires Lower(a) == a && IsSlug(z)
    ensures Lower(a + " " + z) == a + " " + z
  {
    var s := a + " " + z;
    forall k | 0 <= k < |s| ensures ToLower(s[k]) == s[k] {
      if k < |a| {
        assert s[k] == a[k] && Lower(a)[k] == a[k];
      } else if k > |a| {
        assert s[k] == z[k - |a| - 1] && IsSlugChar(z[k - |a| - 1]);
      }
    }
  }

  lemma SpacedKeep(a: string, z: string)
    requires KeepSlugChars(a) == a && IsSlug(z)
    ensures KeepSlugChars(a + " " + z) == a + " " + z
  {
    KeepSlugCharsChars(a);
    var s := a + " " + z;
    forall k | 0 <= k < |s| ensures IsKept(s[k]) {
      if k < |a| {
        assert s[k] == a[k];
      } else if k > |a| {
        assert s[k] == z[k - |a| - 1] && IsSlugChar(z[k - |a| - 1]);
      }
    }
    KeepSlugCharsChars(s);
  }

  lemma ExampleStages()
    ensures Slugify("Hello World v2") == "hello-world-v2"
  {
    SlugifyOfLower("Hello World v2");
    ExampleLower();
    ExampleJoined();
  }

  lemma ExampleJoined()
    ensures Slugify("hello world v2") == "hello-world-v2"
  {
    ExampleIds();
    SpelledThreeIds("hello world v2", "hello-world-v2", "hello", "world", "v2");
  }

  lemma SpelledThreeIds(s: string, t: string, x: string, y: string, z: string)
    requires IsSlug(x) && IsSlug(y) && IsSlug(z) && x != [] && y != [] && z != []
    requires s == x + " " + y + " " + z && t == x + "-" + y + "-" + z
    ensures Slugify(s) == t
  {
    SlugifyJoinsThreeIds(x, y, z);
  }

  lemma ExampleLower()
    ensures Lower("Hello World v2") == "hello world v2"
  {
    ToLowerOfUpper('H');
    ToLowerOfUpper('W');
  }

  lemma ExampleIds()
    ensures IsSlug("hello") && IsSlug("world") && IsSlug("v2")
  {
  }
}
