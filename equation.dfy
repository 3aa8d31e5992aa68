/**
 * The text the equation components hand to the math renderer
 * (components/content/Equation.tsx). The children of an equation are a React
 * node tree; `getTextContent` flattens it to the string of its text leaves,
 * and every rendering path of the three components uses that one string.
 */
module Equation {
  import opened Wrappers
  import opened JsText

  /** A React node, as far as `getTextContent` tells nodes apart. */
  datatype Node =
    | Str(s: string)
    | Num(n: int)
    | Elem(children: Node)   // a valid element; an absent `children` prop is `Undefined`
    | Arr(items: seq<Node>)
    | Null
    | Undefined
    | Bool(b: bool)

  // ---------------------------------------------------------------------------
  // `String(n)` for an integer

  function DigitChar(d: nat): (c: char)
    requires d < 10
    ensures '0' <= c <= '9' && c as int - '0' as int == d
  {
    (d + '0' as int) as char
  }

  predicate IsDigit(c: char) {
    '0' <= c <= '9'
  }

  /** The decimal digits of `n`, most significant first. */
  function Digits(n: nat): (r: string)
    ensures r != [] && AllSatisfy(r, IsDigit)
    ensures |r| > 1 ==> r[0] != '0'
    decreases n
  {
    if n < 10 then [DigitChar(n)] else Digits(n / 10) + [DigitChar(n % 10)]
  }

  /** `String(n)` for an integer `n`: an optional minus sign, then the decimal digits. */
  function IntToString(n: int): string {
    if n < 0 then "-" + Digits(-n) else Digits(n)
  }

  /** The value of a string of decimal digits. */
  function DigitsValue(s: string): nat
    requires AllSatisfy(s, IsDigit)
  {
    if s == [] then 0 else 10 * DigitsValue(s[..|s| - 1]) + (s[|s| - 1] as int - '0' as int)
  }

  /** Reads back what `IntToString` writes. */
  function ParseInt(s: string): Option<int> {
    if s != [] && s[0] == '-' && s[1..] != [] && AllSatisfy(s[1..], IsDigit) then Some(0 - DigitsValue(s[1..]) as int)
    else if s != [] && AllSatisfy(s, IsDigit) then Some(DigitsValue(s))
    else None
  }

  lemma {:induction false} DigitsRoundTrip(n: nat)
    ensures DigitsValue(Digits(n)) == n
    decreases n
  {
    if n >= 10 {
      var r := Digits(n);
      DigitsRoundTrip(n / 10);
      assert r[..|r| - 1] == Digits(n / 10);
    }
  }

  /** The decimal rendering of an integer reads back as that integer. */
  lemma IntToStringRoundTrip(n: int)
    ensures ParseInt(IntToString(n)) == Some(n)
  {
    if n < 0 {
      var s := IntToString(n);
      assert s[1..] == Digits(-n);
      DigitsRoundTrip(-n);
    } else {
      DigitsRoundTrip(n);
    }
  }

  /** The rendering is canonical: no leading zero, and a minus sign exactly for negative numbers. */
  lemma IntToStringCanonical(n: int)
    ensures var s := IntToString(n);
      && s != []
      && (s[0] == '-' <==> n < 0)
      && (n >= 0 ==> (s[0] == '0' <==> n == 0))
      && (n < 0 ==> |s| >= 2 && s[1] != '0')
  {
    var d := Digits(if n < 0 then -n else n);
    if n >= 0 && |d| == 1 && d[0] == '0' {
      assert DigitsValue(d) == DigitsValue(d[..0]) * 10 + 0;
      DigitsRoundTrip(n);
    }
    if n < 0 && |d| == 1 {
      assert d[0] != '0' by {
        DigitsRoundTrip(-n);
        assert DigitsValue(d) == DigitsValue(d[..0]) * 10 + (d[0] as int - '0' as int);
      }
    }
  }

  // ---------------------------------------------------------------------------
  // `getTextContent`

  /** `getTextContent`. */
  function TextContent(node: Node): string
    decreases node
  {
    match node
    case Str(s) => s
    case Num(n) => IntToString(n)
    case Elem(children) => TextContent(children)
    case Arr(items) => Concat(seq(|items|, i requires 0 <= i < |items| => TextContent(items[i])))
    case Null => []
    case Undefined => []
    case Bool(b) => if b then "true" else []
  }

  /** The texts of `items`, one per item. */
  function ItemTexts(items: seq<Node>): (r: seq<string>)
    ensures |r| == |items|
  {
    seq(|items|, i requires 0 <= i < |items| => TextContent(items[i]))
  }

  /** The text of an array is the concatenation of its items' texts, so it splits where the array splits. */
  lemma TextOfArrayAppend(a: seq<Node>, b: seq<Node>)
    ensures TextContent(Arr(a + b)) == TextContent(Arr(a)) + TextContent(Arr(b))
  {
    assert ItemTexts(a + b) == ItemTexts(a) + ItemTexts(b);
    ConcatAppend(ItemTexts(a), ItemTexts(b));
  }

  /** The text leaves of a tree, left to right: an independent statement of what `getTextContent` reads. */
  function Leaves(node: Node): seq<string>
    decreases node, 1
  {
    match node
    case Str(s) => [s]
    case Num(n) => [IntToString(n)]
    case Elem(children) => Leaves(children)
    case Arr(items) => LeavesOf(items)
    case Null => []
    case Undefined => []
    case Bool(b) => if b then ["true"] else []
  }

  function LeavesOf(items: seq<Node>): seq<string>
    decreases items, 0
  {
    if items == [] then [] else Leaves(items[0]) + LeavesOf(items[1..])
  }

  /** `getTextContent` is the concatenation of the tree's text leaves, in document order. */
  lemma {:induction false} TextIsLeaves(node: Node)
    ensures TextContent(node) == Concat(Leaves(node))
    decreases node, 1
  {
    match node
    case Str(s) =>
      assert Concat([s]) == s + Concat([]);
    case Num(n) =>
      assert Concat([IntToString(n)]) == IntToString(n) + Concat([]);
    case Elem(children) =>
      TextIsLeaves(children);
    case Arr(items) =>
      ItemsAreLeaves(items);
    case Null =>
    case Undefined =>
    case Bool(b) =>
      assert Concat(["true"]) == "true" + Concat([]);
  }

  lemma {:induction false} ItemsAreLeaves(items: seq<Node>)
    ensures Concat(ItemTexts(items)) == Concat(LeavesOf(items))
    decreases items, 0
  {
    if items != [] {
      TextIsLeaves(items[0]);
      ItemsAreLeaves(items[1..]);
      assert ItemTexts(items) == [TextContent(items[0])] + ItemTexts(items[1..]);
      ConcatAppend(Leaves(items[0]), LeavesOf(items[1..]));
    }
  }

  /** `node` wrapped in `depth` elements. */
  function Wrapped(node: Node, depth: nat): Node {
    if depth == 0 then node else Elem(Wrapped(node, depth - 1))
  }

  /** Element wrappers contribute nothing, however deeply they nest. */
  lemma {:induction false} WrappersAddNothing(node: Node, depth: nat)
    ensures TextContent(Wrapped(node, depth)) == TextContent(node)
  {
    if depth > 0 {
      WrappersAddNothing(node, depth - 1);
    }
  }

  /** Nested arrays read as the flat array of their items. */
  lemma NestedArrays(a: seq<Node>, b: seq<Node>)
    ensures TextContent(Arr([Arr(a), Arr(b)])) == TextContent(Arr(a + b))
  {
    TextOfArrayAppend(a, b);
    assert ItemTexts([Arr(a), Arr(b)]) == [TextContent(Arr(a)), TextContent(Arr(b))];
    assert Concat([TextContent(Arr(b))]) == TextContent(Arr(b));
  }

  // ---------------------------------------------------------------------------
  // Where the text goes

  /** The equation components. */
  datatype Component = Equation | StaticEquation | BlockEquation

  /** What a component asks the math renderer for: the source text and whether it is set on its own line. */
  datatype RenderCall = RenderCall(source: string, displayMode: bool)

  /** The call each component makes; `block` is its `block` prop (`BlockEquation` has none). */
  function RenderOf(component: Component, block: bool, children: Node): (r: RenderCall)
    ensures r.source == TextContent(children)
    ensures r.displayMode <==> (block || component == BlockEquation)
  {
    match component
    case Equation => RenderCall(TextContent(children), block)
    case StaticEquation => if block then RenderCall(TextContent(children), block) else RenderCall(TextContent(children), false)
    case BlockEquation => RenderCall(TextContent(children), true)
  }

  const CodeOpen: string := "<code class=\"font-mono text-sm bg-muted px-2 py-1 rounded\">"
  const CodeClose: string := "</code>"

  /** The markup `Equation` puts in place of the formula when rendering fails. */
  function ErrorFallback(children: Node): string {
    CodeOpen + TextContent(children) + CodeClose
  }

  /** The text inside a fallback `<code>` element. */
  function CodeContents(html: string): Option<string> {
    if |html| >= |CodeOpen| + |CodeClose| && html[..|CodeOpen|] == CodeOpen && html[|html| - |CodeClose|..] == CodeClose
    then Some(html[|CodeOpen|..|html| - |CodeClose|])
    else None
  }

  /** `Equation`'s error fallback (the only component with one) shows exactly the text it gave the renderer, in either mode. */
  lemma FallbackShowsSource(block: bool, children: Node)
    ensures CodeContents(ErrorFallback(children)) == Some(RenderOf(Equation, block, children).source)
  {
    var t := TextContent(children);
    var html := ErrorFallback(children);
    assert html[..|CodeOpen|] == CodeOpen;
    assert html[|html| - |CodeClose|..] == CodeClose;
    assert html[|CodeOpen|..|html| - |CodeClose|] == t;
  }

  /** What `BlockEquation` shows before its client render: the text the client render hands to the renderer. */
  function BlockPlaceholder(isClient: bool, children: Node): (r: Option<string>)
    ensures r.Some? <==> !isClient
    ensures r.Some? ==> r.value == RenderOf(BlockEquation, false, children).source
  {
    if isClient then None else Some(TextContent(children))
  }
}
