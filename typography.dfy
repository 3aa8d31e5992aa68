/**
 * The heading components of the site's MDX renderer
 * (components/content/Typography.tsx). Each of `H1` to `H6` gives its element
 * the `id` the author wrote, or, when there is none, an id generated from the
 * heading's children with the same chain the table of contents uses. The
 * sidebar finds a heading by the id of its table-of-contents entry, so the two
 * must agree.
 */
module Typography {
  import opened Wrappers
  import opened JsText
  import opened Slug
  import opened MdxUtils

  /** The children of a heading: one string, an array of strings, or nothing. */
  datatype HeadingChildren = Text(s: string) | Parts(parts: seq<string>) | NoChildren

  /** The text `generateHeadingId` reads: the string itself, or the array's items joined with no separator. */
  function ChildrenText(children: HeadingChildren): string {
    match children
    case Text(s) => s
    case Parts(parts) => Concat(parts)
    case NoChildren => []
  }

  /** `generateHeadingId`: the anchor id of the children's text. */
  function GenerateHeadingId(children: HeadingChildren): (r: string)
    ensures IsSlug(r)
    ensures r != [] <==> HasWordChar(ChildrenText(children))
  {
    var text := ChildrenText(children);
    SlugifyIsSlug(text);
    SlugifyNonEmptyIff(text);
    Slugify(text)
  }

  /**
   * The `id` that `H1` to `H6` put on the element: `id || generateHeadingId(children)`.
   * An absent id and an empty one are both falsy, so both fall back to the generated id.
   */
  function HeadingId(id: Option<string>, children: HeadingChildren): (r: string)
    ensures id.Some? && id.value != [] ==> r == id.value
    ensures id.None? || id.value == [] ==> r == GenerateHeadingId(children) && IsSlug(r)
  {
    if id.Some? && id.value != [] then id.value else GenerateHeadingId(children)
  }

  /** Array children contribute their items in order: splitting the array anywhere gives the same text. */
  lemma ChildrenTextAppend(a: seq<string>, b: seq<string>)
    ensures ChildrenText(Parts(a + b)) == ChildrenText(Parts(a)) + ChildrenText(Parts(b))
  {
    ConcatAppend(a, b);
  }

  /** An array of two slugs with a space between them renders as the two slugs joined by a hyphen. */
  lemma PartsJoinIds(x: string, y: string)
    requires IsSlug(x) && IsSlug(y) && x != [] && y != []
    ensures HeadingId(None, Parts([x, " ", y])) == x + "-" + y
  {
    assert Concat([x, " ", y]) == x + " " + y by {
      assert Concat([y]) == y;
      assert Concat([" ", y]) == " " + y;
    }
    SlugifyJoinsIds(x, y);
  }

  /** A generated id, used as the children of another heading, gives itself back. */
  lemma GeneratedIdIsFixed(children: HeadingChildren)
    ensures GenerateHeadingId(Text(GenerateHeadingId(children))) == GenerateHeadingId(children)
  {
    SlugifyFixesSlugs(GenerateHeadingId(children));
  }

  /**
   * Every table-of-contents entry names the id that a heading with the entry's
   * text as its string children renders with, whatever the heading's level.
   */
  lemma TocEntriesResolve(content: string, maxLevel: int)
    ensures forall e :: e in Outline(Lines(content), maxLevel) ==> HeadingId(None, Text(e.text)) == e.id
  {
    var toc := Outline(Lines(content), maxLevel);
    OutlineWellFormed(Lines(content), maxLevel);
    forall e | e in toc ensures HeadingId(None, Text(e.text)) == e.id {
      var k :| 0 <= k < |toc| && toc[k] == e;
      assert WellFormed(toc[k], maxLevel);
    }
  }

  /**
   * For a plain heading line the id in the table of contents is the id the
   * rendered heading carries, when its children are the line's text.
   */
  lemma PlainHeadingResolves(level: nat, text: string, maxLevel: int)
    requires 1 <= level <= 6 && level <= maxLevel
    requires text != [] && IsTrimmed(text) && NoTerminator(text)
    requires '*' !in text && '`' !in text && '[' !in text
    requires HasWordChar(text)
    ensures Entry(Hashes(level) + " " + text, maxLevel) == Some(TocItem(HeadingId(None, Text(text)), text, level))
  {
    assert HeadingId(None, Text(text)) == Slugify(text);
    PlainHeadingEntry(level, text, maxLevel);
  }
}
