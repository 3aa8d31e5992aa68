/**
 * The JavaScript string built-ins the core relies on: the character classes of
 * regular expressions (`\s`, `\w`, `.`), `String.prototype.trim`, `split('\n')`,
 * `join`, ASCII `toLowerCase`, and "replace every maximal run" as done by a global
 * `replace(/x+/g, c)`.
 */
module JsText {

  /** A character matched by `\s` and removed by `trim()`: white space and line terminators. */
  predicate IsSpace(c: char) {
    || c == ' ' || c == '\t' || c == '\n' || c == '\U{000B}' || c == '\U{000C}' || c == '\r'
    || c == '\U{00A0}' || c == '\U{1680}' || ('\U{2000}' <= c <= '\U{200A}')
    || c == '\U{2028}' || c == '\U{2029}' || c == '\U{202F}' || c == '\U{205F}'
    || c == '\U{3000}' || c == '\U{FEFF}'
  }

  /** A line terminator: the characters `.` does not match without the `s` flag. */
  predicate IsLineTerminator(c: char) {
    c == '\n' || c == '\r' || c == '\U{2028}' || c == '\U{2029}'
  }

  /** A character matched by `\w` (always ASCII in JavaScript). */
  predicate IsWordChar(c: char) {
    ('a' <= c <= 'z') || ('A' <= c <= 'Z') || ('0' <= c <= '9') || c == '_'
  }

  predicate IsUpper(c: char) {
    'A' <= c <= 'Z'
  }

  predicate IsHyphen(c: char) {
    c == '-'
  }

  predicate IsHash(c: char) {
    c == '#'
  }

  predicate IsNotNewline(c: char) {
    c != '\n'
  }

  /** `toLowerCase` restricted to ASCII letters. */
  function ToLower(c: char): (d: char)
    ensures !IsUpper(d)
    ensures IsWordChar(d) <==> IsWordChar(c)
    ensures IsSpace(d) <==> IsSpace(c)
    ensures !IsUpper(c) ==> d == c
  {
    if IsUpper(c) then (c as int - 'A' as int + 'a' as int) as char else c
  }

  /** An upper-case ASCII letter becomes the lower-case letter at the same place in the alphabet. */
  lemma ToLowerOfUpper(c: char)
    requires IsUpper(c)
    ensures ToLower(c) as int == c as int - 'A' as int + 'a' as int
    ensures 'a' <= ToLower(c) <= 'z'
  {
  }

  function Lower(s: string): (r: string)
    ensures |r| == |s|
    ensures forall k :: 0 <= k < |s| ==> r[k] == ToLower(s[k])
  {
    seq(|s|, k requires 0 <= k < |s| => ToLower(s[k]))
  }

  predicate StartsWith(s: string, prefix: string) {
    |prefix| <= |s| && s[..|prefix|] == prefix
  }

  predicate AllSatisfy(s: string, P: char -> bool) {
    forall k :: 0 <= k < |s| ==> P(s[k])
  }

  /** No two neighbouring characters both satisfy `P`. */
  predicate NoAdjacent(s: string, P: char -> bool) {
    forall k :: 0 <= k < |s| - 1 ==> !(P(s[k]) && P(s[k + 1]))
  }

  /** Length of the longest prefix of `s` whose characters all satisfy `P`. */
  function Span(s: string, P: char -> bool): (n: nat)
    ensures n <= |s|
    ensures forall k :: 0 <= k < n ==> P(s[k])
    ensures n < |s| ==> !P(s[n])
  {
    if s == [] || !P(s[0]) then 0 else 1 + Span(s[1..], P)
  }

  /** Length of the longest suffix of `s` whose characters all satisfy `P`. */
  function TrailingSpan(s: string, P: char -> bool): (n: nat)
    ensures n <= |s|
    ensures forall k :: |s| - n <= k < |s| ==> P(s[k])
    ensures n < |s| ==> !P(s[|s| - n - 1])
  {
    if s == [] || !P(s[|s| - 1]) then 0 else 1 + TrailingSpan(s[..|s| - 1], P)
  }

  predicate IsTrimmed(s: string) {
    s == [] || (!IsSpace(s[0]) && !IsSpace(s[|s| - 1]))
  }

  /** `String.prototype.trim`: drop leading and trailing white space and line terminators. */
  function Trim(s: string): (r: string)
    ensures IsTrimmed(r)
    ensures IsTrimmed(s) ==> r == s
  {
    var a := Span(s, IsSpace);
    var t := s[a..];
    t[..|t| - TrailingSpan(t, IsSpace)]
  }

  /** `trim()` keeps a middle stretch of its input: only white space goes, and only from the two ends. */
  lemma TrimInfix(s: string) returns (a: nat, b: nat)
    ensures a <= b <= |s|
    ensures AllSatisfy(s[..a], IsSpace) && AllSatisfy(s[b..], IsSpace)
    ensures Trim(s) == s[a..b]
  {
    a := Span(s, IsSpace);
    var t := s[a..];
    var n := TrailingSpan(t, IsSpace);
    b := a + |t| - n;
    assert forall k :: 0 <= k < a ==> s[..a][k] == s[k];
    assert forall k :: 0 <= k < |s| - b ==> s[b..][k] == t[|t| - n + k];
    assert t[..|t| - n] == s[a..b];
  }

  /** `parts.join('')`. */
  function Concat(parts: seq<string>): string {
    if parts == [] then [] else parts[0] + Concat(parts[1..])
  }

  lemma {:induction false} ConcatAppend(a: seq<string>, b: seq<string>)
    ensures Concat(a + b) == Concat(a) + Concat(b)
  {
    if a == [] {
      assert a + b == b;
    } else {
      assert (a + b)[1..] == a[1..] + b;
      ConcatAppend(a[1..], b);
    }
  }

  /** `lines.join(sep)`. */
  function Join(lines: seq<string>, sep: string): string {
    if lines == [] then []
    else if |lines| == 1 then lines[0]
    else lines[0] + sep + Join(lines[1..], sep)
  }

  /** `s.split('\n')`: always at least one piece, none containing a newline. */
  function Lines(s: string): (lines: seq<string>)
    ensures |lines| >= 1
    ensures forall k :: 0 <= k < |lines| ==> AllSatisfy(lines[k], IsNotNewline)
    ensures Join(lines, "\n") == s
    decreases |s|
  {
    var n := Span(s, IsNotNewline);
    if n == |s| then [s]
    else
      var rest := Lines(s[n + 1..]);
      assert s == s[..n] + "\n" + s[n + 1..];
      [s[..n]] + rest
  }

  /** Splitting undoes joining: the pieces of a newline-free sequence of lines come back unchanged. */
  lemma {:induction false} LinesOfJoin(lines: seq<string>)
    requires |lines| >= 1
    requires forall k :: 0 <= k < |lines| ==> AllSatisfy(lines[k], IsNotNewline)
    ensures Lines(Join(lines, "\n")) == lines
  {
    var s := Join(lines, "\n");
    if |lines| == 1 {
      assert Span(s, IsNotNewline) == |s|;
    } else {
      var rest := Join(lines[1..], "\n");
      assert s == lines[0] + "\n" + rest;
      var n := |lines[0]|;
      assert s[n] == '\n';
      assert forall k :: 0 <= k < n ==> s[k] == lines[0][k];
      SpanStopsAt(s, IsNotNewline, n);
      assert s[..n] == lines[0];
      assert s[n + 1..] == rest;
      LinesOfJoin(lines[1..]);
    }
  }

  lemma SpanStopsAt(s: string, P: char -> bool, n: nat)
    requires n < |s| && !P(s[n])
    requires forall k :: 0 <= k < n ==> P(s[k])
    ensures Span(s, P) == n
  {
  }

  /**
   * A global `replace(/p+/g, rep)` where `p` is the class `P`: every maximal run of
   * characters satisfying `P` becomes the single character `rep`.
   */
  function ReplaceRuns(s: string, P: char -> bool, rep: char): (r: string)
    ensures |r| <= |s|
    ensures s == [] <==> r == []
    ensures s != [] && !P(s[0]) ==> r[0] == s[0]
    ensures s != [] && P(s[0]) ==> r[0] == rep
    decreases |s|
  {
    if s == [] then []
    else if P(s[0]) then [rep] + ReplaceRuns(s[Span(s, P)..], P, rep)
    else [s[0]] + ReplaceRuns(s[1..], P, rep)
  }

  /** What a run replacement can output: `rep`, or a character of `s` outside the class; and it loses none of the latter. */
  lemma {:induction false} ReplaceRunsChars(s: string, P: char -> bool, rep: char)
    ensures forall k :: 0 <= k < |ReplaceRuns(s, P, rep)| ==>
      ReplaceRuns(s, P, rep)[k] == rep || (!P(ReplaceRuns(s, P, rep)[k]) && ReplaceRuns(s, P, rep)[k] in s)
    ensures forall c :: c in s && !P(c) ==> c in ReplaceRuns(s, P, rep)
    decreases |s|
  {
    if s != [] {
      if P(s[0]) {
        var n := Span(s, P);
        ReplaceRunsChars(s[n..], P, rep);
        forall c | c in s && !P(c) ensures c in s[n..] {
          var k :| 0 <= k < |s| && s[k] == c;
          assert s[n..][k - n] == c;
        }
      } else {
        ReplaceRunsChars(s[1..], P, rep);
        assert s == [s[0]] + s[1..];
      }
    }
  }

  /** When `rep` itself belongs to the class, no two class characters are left side by side. */
  lemma {:induction false} ReplaceRunsNoAdjacent(s: string, P: char -> bool, rep: char)
    requires P(rep)
    ensures NoAdjacent(ReplaceRuns(s, P, rep), P)
    decreases |s|
  {
    if s != [] {
      if P(s[0]) {
        ReplaceRunsNoAdjacent(s[Span(s, P)..], P, rep);
      } else {
        ReplaceRunsNoAdjacent(s[1..], P, rep);
      }
    }
  }

  /** A run replacement changes nothing when every `P`-run is already the single character `rep`. */
  lemma {:induction false} ReplaceRunsIdentity(s: string, P: char -> bool, rep: char)
    requires forall k :: 0 <= k < |s| && P(s[k]) ==> s[k] == rep
    requires NoAdjacent(s, P)
    ensures ReplaceRuns(s, P, rep) == s
    decreases |s|
  {
    if s != [] {
      if P(s[0]) {
        assert |s| > 1 ==> !P(s[1]);
        assert Span(s, P) == 1;
        ReplaceRunsIdentity(s[1..], P, rep);
        assert s == [rep] + s[1..];
      } else {
        ReplaceRunsIdentity(s[1..], P, rep);
        assert s == [s[0]] + s[1..];
      }
    }
  }

  /** Replacing runs works piecewise when the seam between `x` and `y` is not inside a run. */
  lemma {:induction false} ReplaceRunsAppend(x: string, y: string, P: char -> bool, rep: char)
    requires x == [] || y == [] || !P(x[|x| - 1]) || !P(y[0])
    ensures ReplaceRuns(x + y, P, rep) == ReplaceRuns(x, P, rep) + ReplaceRuns(y, P, rep)
    decreases |x|, 1
  {
    if x == [] {
      assert x + y == y;
    } else if y == [] {
      assert x + y == x;
    } else if P(x[0]) {
      ReplaceRunsAppendAtRun(x, y, P, rep);
    } else {
      ReplaceRunsAppendAtOther(x, y, P, rep);
    }
  }

  lemma {:induction false} ReplaceRunsAppendAtRun(x: string, y: string, P: char -> bool, rep: char)
    requires x != [] && y != [] && P(x[0]) && (!P(x[|x| - 1]) || !P(y[0]))
    ensures ReplaceRuns(x + y, P, rep) == ReplaceRuns(x, P, rep) + ReplaceRuns(y, P, rep)
    decreases |x|, 0
  {
    var n := Span(x, P);
    assert Span(x + y, P) == n by {
      assert n == |x| ==> P(x[|x| - 1]);
      SpanOfAppend(x, y, P);
    }
    if n < |x| {
      ReplaceRunsAppend(x[n..], y, P, rep);
      RunThenRest(x, y, P, rep);
    } else {
      RunThenAll(x, y, P, rep);
    }
  }

  /** The step of `ReplaceRunsAppendAtRun` when the leading run ends inside `x`. */
  lemma RunThenRest(x: string, y: string, P: char -> bool, rep: char)
    requires x != [] && P(x[0]) && Span(x, P) < |x| && Span(x + y, P) == Span(x, P)
    requires ReplaceRuns(x[Span(x, P)..] + y, P, rep) == ReplaceRuns(x[Span(x, P)..], P, rep) + ReplaceRuns(y, P, rep)
    ensures ReplaceRuns(x + y, P, rep) == ReplaceRuns(x, P, rep) + ReplaceRuns(y, P, rep)
  {
    var n := Span(x, P);
    assert (x + y)[n..] == x[n..] + y;
    ConsAssoc(rep, ReplaceRuns(x[n..], P, rep), ReplaceRuns(y, P, rep));
  }

  /** The step of `ReplaceRunsAppendAtRun` when all of `x` is one run. */
  lemma RunThenAll(x: string, y: string, P: char -> bool, rep: char)
    requires x != [] && P(x[0]) && Span(x, P) == |x| && Span(x + y, P) == |x|
    ensures ReplaceRuns(x + y, P, rep) == ReplaceRuns(x, P, rep) + ReplaceRuns(y, P, rep)
  {
    assert (x + y)[|x|..] == y;
    assert x[|x|..] == [];
  }

  lemma ConsAssoc(c: char, a: string, b: string)
    ensures [c] + (a + b) == ([c] + a) + b
  {
  }

  lemma {:induction false} ReplaceRunsAppendAtOther(x: string, y: string, P: char -> bool, rep: char)
    requires x != [] && y != [] && !P(x[0]) && (!P(x[|x| - 1]) || !P(y[0]))
    ensures ReplaceRuns(x + y, P, rep) == ReplaceRuns(x, P, rep) + ReplaceRuns(y, P, rep)
    decreases |x|, 0
  {
    var xy := x + y;
    assert xy[0] == x[0];
    assert xy[1..] == x[1..] + y;
    ReplaceRunsAppend(x[1..], y, P, rep);
    ConsAssoc(x[0], ReplaceRuns(x[1..], P, rep), ReplaceRuns(y, P, rep));
  }

  /** The span of `x + y` stops inside `x` when `x` holds a non-class character, or at the seam when `y` starts with one. */
  lemma SpanOfAppend(x: string, y: string, P: char -> bool)
    requires Span(x, P) < |x| || y == [] || !P(y[0])
    ensures Span(x + y, P) == Span(x, P)
  {
    var n := Span(x, P);
    var xy := x + y;
    assert forall k :: 0 <= k < n ==> xy[k] == x[k];
    if n < |x| {
      assert xy[n] == x[n];
      SpanStopsAt(xy, P, n);
    } else if y != [] {
      assert xy[n] == y[0];
      SpanStopsAt(xy, P, n);
    } else {
      assert xy == x;
    }
  }

  lemma LowerAppend(a: string, b: string)
    ensures Lower(a + b) == Lower(a) + Lower(b)
  {
  }

  /** If every character of `a` is in the class, the span of `a + b` runs through `a` into `b`. */
  lemma {:induction false} SpanAfterRun(a: string, b: string, P: char -> bool)
    requires AllSatisfy(a, P)
    ensures Span(a + b, P) == |a| + Span(b, P)
  {
    if a != [] {
      assert (a + b)[1..] == a[1..] + b;
      SpanAfterRun(a[1..], b, P);
    } else {
      assert a + b == b;
    }
  }

  /** A whole run of class characters, however long, is replaced exactly as its first character alone would be. */
  lemma {:induction false} ReplaceRunsCollapse(a: string, run: string, b: string, P: char -> bool, rep: char)
    requires run != [] && AllSatisfy(run, P)
    ensures ReplaceRuns(a + run + b, P, rep) == ReplaceRuns(a + [run[0]] + b, P, rep)
    decreases |a|, 1
  {
    if a == [] {
      assert a + run + b == run + b;
      assert a + [run[0]] + b == [run[0]] + b;
      ReplaceRunsCollapseFront(run, b, P, rep);
      ReplaceRunsCollapseFront([run[0]], b, P, rep);
    } else if !P(a[0]) {
      ReplaceRunsCollapseAtOther(a, run, b, P, rep);
    } else {
      ReplaceRunsCollapseAtRun(a, run, b, P, rep);
    }
  }

  lemma ReplaceRunsCollapseFront(run: string, b: string, P: char -> bool, rep: char)
    requires run != [] && AllSatisfy(run, P)
    ensures ReplaceRuns(run + b, P, rep) == [rep] + ReplaceRuns(b[Span(b, P)..], P, rep)
  {
    SpanAfterRun(run, b, P);
    assert (run + b)[0] == run[0];
    assert (run + b)[|run| + Span(b, P)..] == b[Span(b, P)..];
  }

  lemma {:induction false} ReplaceRunsCollapseAtOther(a: string, run: string, b: string, P: char -> bool, rep: char)
    requires run != [] && AllSatisfy(run, P) && a != [] && !P(a[0])
    ensures ReplaceRuns(a + run + b, P, rep) == ReplaceRuns(a + [run[0]] + b, P, rep)
    decreases |a|, 0
  {
    var s, t := a + run + b, a + [run[0]] + b;
    assert s[0] == a[0] && t[0] == a[0];
    assert s[1..] == a[1..] + run + b;
    assert t[1..] == a[1..] + [run[0]] + b;
    ReplaceRunsCollapse(a[1..], run, b, P, rep);
  }

  lemma {:induction false} ReplaceRunsCollapseAtRun(a: string, run: string, b: string, P: char -> bool, rep: char)
    requires run != [] && AllSatisfy(run, P) && a != [] && P(a[0])
    ensures ReplaceRuns(a + run + b, P, rep) == ReplaceRuns(a + [run[0]] + b, P, rep)
    decreases |a|, 0
  {
    var n := Span(a, P);
    if n < |a| {
      var s, t := a + (run + b), a + ([run[0]] + b);
      assert s == a + run + b && t == a + [run[0]] + b;
      SpanOfAppend(a, run + b, P);
      SpanOfAppend(a, [run[0]] + b, P);
      assert s[0] == a[0] && t[0] == a[0];
      assert s[n..] == a[n..] + run + b;
      assert t[n..] == a[n..] + [run[0]] + b;
      ReplaceRunsCollapse(a[n..], run, b, P, rep);
    } else {
      assert AllSatisfy(a + run, P);
      assert AllSatisfy(a + [run[0]], P);
      assert a + run + b == (a + run) + b;
      ReplaceRunsCollapseFront(a + run, b, P, rep);
      ReplaceRunsCollapseFront(a + [run[0]], b, P, rep);
    }
  }
}
