# Headings, anchors, equations and the screenshot carousel

This project models the content core of a personal portfolio and blog site built
with Next.js and MDX. It covers four pieces of that site:

- **The table-of-contents extractor** (`extractHeadingsFromMDX`). It cuts a post's
  source into lines. Each trimmed line that matches the ATX heading pattern
  `^(#{1,6})\s+(.+)$`, whose level is within the caller's bound, and whose cleaned
  text holds a word character, gives one entry.
  The entry's text has its bold, italic, inline-code and link markup removed. Its id
  is the anchor slug of that text: lower-cased, stripped of characters outside
  `[\w\s-]`, white-space runs turned into one hyphen, hyphen runs collapsed, and one
  hyphen cut from each end.
- **The heading components** `H1` to `H6`. Each renders its `id` prop, or, when that
  is absent or empty, an id generated from its children by the same slug chain. The
  sidebar looks headings up by the ids of the table-of-contents entries.
- **The equation components** (`Equation`, `StaticEquation`, `BlockEquation`). They
  flatten their React children to a string with `getTextContent` and hand that
  string to the math renderer. `Equation` shows the string in a `<code>` element
  when rendering fails. `BlockEquation` shows the string as text before its client
  render.
- **The screenshot carousel**. It holds an index into a list of images. Its two arrow
  buttons step the index backwards and forwards, wrapping round at both ends. A row
  of dots marks the image on show.

## Modules

- `wrappers.dfy`: `Option`.
- `js_text.dfy`: the JavaScript string operations the core uses: `trim`,
  `split('\n')`, `join`, `toLowerCase` on ASCII, and global `replace` of a character
  class run (`/\s+/g`, `/-+/g`).
- `slug.dfy`: the anchor-id chain shared by the extractor and `generateHeadingId`.
- `mdx_utils.dfy`: heading matching, markup cleaning, entries and the extractor
  itself. The extractor is a method with the source's loop, proved against the
  `Outline` function.
- `typography.dfy`: `generateHeadingId`, the `id || generateHeadingId(children)`
  choice, and how heading ids agree with table-of-contents ids.
- `equation.dfy`: React nodes, `getTextContent`, `String(n)` for integers, and the
  text each component renders.
- `screenshot_carousel.dfy`: the index updaters, what is rendered, and a `Carousel`
  class whose `idx` field the buttons update.

## Model

| member | source | states |
|---|---|---|
| MdxUtils.ExtractHeadingsFromMDX | lib/mdx-utils.ts:8-49 | the returned headings are exactly the entries of the lines of `content`, split at `\n`, in line order |
| MdxUtils.OutlineStep | lib/mdx-utils.ts:12-45 | processing one more line appends that line's entry, if it has one, at the end and changes nothing before it |
| MdxUtils.OutlineAppend | lib/mdx-utils.ts:12-45 | lines are read independently: the outline of two blocks of lines is the first block's outline followed by the second's |
| MdxUtils.OutlineSingle | lib/mdx-utils.ts:12-45 | one line contributes its entry or nothing |
| MdxUtils.OutlineOfJoinedLines | lib/mdx-utils.ts:10 | splitting at `\n` gives back the newline-free lines a post was written as, so the outline of the joined text is the outline of those lines |
| MdxUtils.OutlineWellFormed | lib/mdx-utils.ts:16-44 | every entry has a level from 1 to 6 that is within the bound, a non-empty trimmed text, and a non-empty well-formed id equal to the slug of its text |
| MdxUtils.EntryWellFormed | lib/mdx-utils.ts:16-44 | the entry a line gives has a level within 1..6 and the bound, a non-empty trimmed text, and its text's well-formed, non-empty slug as id |
| MdxUtils.EntryIff | lib/mdx-utils.ts:16-44 | `Entry` models one iteration of the loop (lines 13-44); a line gives an entry if and only if it matches the heading pattern, its level is within the bound, and its cleaned text holds a `\w` character |
| MdxUtils.OutlineEmpty | lib/mdx-utils.ts:16-17 | lines none of which match the heading pattern give an empty outline |
| MdxUtils.MatchHeadingSound | lib/mdx-utils.ts:13-18 | `MatchHeading` models the regex match of the trimmed line; a match splits the trimmed line into 1 to 6 `#`, a non-empty white-space gap and a non-empty text without line terminators; the gap takes all the white space, so the text does not start with white space |
| MdxUtils.MatchHeadingComplete | lib/mdx-utils.ts:13-18 | every such split of the trimmed line is found: the level is the number of `#` and the text is what follows the whole white-space run |
| MdxUtils.NotHeadings | lib/mdx-utils.ts:13-16 | a trimmed line whose `#` run is followed by a character that is neither `#` nor white space, a line with seven or more leading `#`, and a line made only of `#` are not headings |
| MdxUtils.EntryLevelBound | lib/mdx-utils.ts:18-21 | lowering the level bound drops a line's entry exactly when its level exceeds the new bound, and keeps it unchanged otherwise |
| MdxUtils.OutlineLevelFilter | lib/mdx-utils.ts:18-21 | the outline under a lower bound is the outline under a higher bound with the entries deeper than the lower bound removed, order kept |
| MdxUtils.OutlineDefaultLevel | lib/mdx-utils.ts:8-21 | any bound of six or more gives the same outline as the default bound 6 |
| MdxUtils.OutlineBelowFirstLevel | lib/mdx-utils.ts:18-21 | a bound below 1 gives an empty outline |
| MdxUtils.UpToLevel | lib/mdx-utils.ts:21 | filtering by level keeps exactly the entries of the input whose level is at most the bound: an entry is in the result if and only if it is in the input with such a level |
| MdxUtils.PlainHeadingEntry | lib/mdx-utils.ts:13-44 | a line of `level` hashes, a space and a trimmed text without markup characters that holds a `\w` character gives the entry with that text, that level and the text's slug |
| MdxUtils.ExampleEntry | lib/mdx-utils.ts:13-44 | the line `## Hello, World! (v2)` with a depth bound of 6 gives the entry with id `hello-world-v2`, text `Hello, World! (v2)` and level 2 |
| MdxUtils.PlainHeadingMatch | lib/mdx-utils.ts:13-18 | such a line matches the heading pattern with that level and text |
| MdxUtils.EntryOfMatch | lib/mdx-utils.ts:17-44 | a matched heading within the bound whose text is already clean and has a non-empty slug gives exactly that entry |
| MdxUtils.FindCloses | lib/mdx-utils.ts:27-30 | a found closing delimiter really occurs at the reported position |
| MdxUtils.FindLeast | lib/mdx-utils.ts:27-30 | the lazy `.*?` finds a closing delimiter whenever one is reachable on the line, and takes the nearest one |
| MdxUtils.FindAfter | lib/mdx-utils.ts:27-30 | when the text before a delimiter holds neither its first character nor a line terminator, that delimiter is the one found |
| MdxUtils.StripPairsKeeps | lib/mdx-utils.ts:27-29 | text holding no delimiter character comes out of the bold, italic and inline-code replacements unchanged |
| MdxUtils.StripPairsPrefix | lib/mdx-utils.ts:27-29 | text before the first delimiter character passes through the replacement unchanged |
| MdxUtils.StripPairsWrapped | lib/mdx-utils.ts:27-29 | a delimited span `d x d` whose inside holds no delimiter character is replaced by its inside, and the rest is processed on |
| MdxUtils.StripPairsAtPair | lib/mdx-utils.ts:27-29 | where an opening delimiter has its closing partner after `x`, the pair is replaced by `x` |
| MdxUtils.StripLinksKeeps | lib/mdx-utils.ts:30 | text holding no `[` comes out of the link replacement unchanged |
| MdxUtils.StripLinksPrefix | lib/mdx-utils.ts:30 | text before the first `[` passes through the link replacement unchanged |
| MdxUtils.StripLinksWrapped | lib/mdx-utils.ts:30 | a link `[x](u)` is replaced by its text `x` |
| MdxUtils.LinkLeast | lib/mdx-utils.ts:30 | the link replacement takes the nearest `](` and then the nearest `)` |
| MdxUtils.CleanTextKeepsPlain | lib/mdx-utils.ts:26-31 | `CleanText` models the four markup removals and the `trim()`; a trimmed text without `*`, backquote or `[` is its own cleaned text |
| MdxUtils.Hashes | lib/mdx-utils.ts:16 | `level` hash signs |
| Slug.SlugifyIsSlug | lib/mdx-utils.ts:34-39 | `Slugify` models the five-step chain; every id is well formed: only `[a-z0-9_-]`, no hyphen at either end, no two hyphens in a row |
| Slug.SlugifyNonEmptyIff | lib/mdx-utils.ts:34-42 | the id is empty if and only if the text holds no `\w` character, so `if (text && id)` drops exactly the texts without one |
| Slug.SlugifyFixesSlugs | lib/mdx-utils.ts:34-39 | a well-formed id comes out of the chain unchanged |
| Slug.SlugifyIdempotent | lib/mdx-utils.ts:34-39 | slugifying an id a second time returns it unchanged |
| Slug.SlugifyIgnoresPunctuation | lib/mdx-utils.ts:36 | a character outside `[\w\s-]` does not affect the id, wherever it stands |
| Slug.SlugifyWhitespaceRun | lib/mdx-utils.ts:37 | a white-space run of any length gives the same id as its first character alone |
| Slug.SlugifyJoinsIds | lib/mdx-utils.ts:34-39 | two non-empty ids joined by a space slugify to the two ids joined by one hyphen |
| Slug.SlugifyJoinsThreeIds | lib/mdx-utils.ts:34-39 | three non-empty ids joined by single spaces slugify to the ids joined by hyphens |
| Slug.SlugifyOfLower | lib/mdx-utils.ts:35 | lower-casing the text first does not change its id |
| Slug.SlugifyExample | lib/mdx-utils.ts:34-39 | the id of `Hello, World! (v2)` is `hello-world-v2` |
| Slug.JoinedIdsAreSlug | lib/mdx-utils.ts:34-39 | two non-empty ids joined by a hyphen form a well-formed id |
| Slug.KeepSlugCharsChars | lib/mdx-utils.ts:36 | the filter outputs only characters of `[\w\s-]` taken from the input, keeps every such character, and leaves a string of them unchanged |
| Slug.KeepSlugCharsAppend | lib/mdx-utils.ts:36 | the global filter works piecewise |
| Slug.TrimEdgeHyphensChars | lib/mdx-utils.ts:39 | the result's characters all come from the input and every non-hyphen character of the input is kept; the trim keeps the no-double-hyphen property, leaves no hyphen at either end of such a string, and changes a string without edge hyphens not at all |
| Slug.TrimEdgeHyphensInfix | lib/mdx-utils.ts:39 | the edge trim returns the input with at most one hyphen removed at the start and at most one at the end, and nothing else removed |
| Slug.WordCharsThroughStages | lib/mdx-utils.ts:35-38 | after lower-casing, filtering and the two run replacements, the text holds a `\w` character exactly when the input does |
| Slug.WordCharsOfTrimEdge | lib/mdx-utils.ts:39 | the edge-trimmed text holds a `\w` character exactly when its input does |
| JsText.Trim | lib/mdx-utils.ts:13 | the result has no white space or line terminator at either end, and a string that has none there is unchanged |
| JsText.TrimInfix | lib/mdx-utils.ts:13 | the result of `trim()` is a middle stretch of the input, and what it drops before and after that stretch is all white space or line terminators |
| JsText.Lines | lib/mdx-utils.ts:10 | the pieces number at least one, hold no `\n`, and joined with `\n` give back the input |
| JsText.LinesOfJoin | lib/mdx-utils.ts:10 | splitting the `\n`-join of newline-free lines gives those lines back |
| JsText.Lower | lib/mdx-utils.ts:35 | lower-casing keeps the length and maps each character on its own |
| JsText.ToLower | lib/mdx-utils.ts:35 | the result is never an upper-case letter, is a `\w` or white-space character exactly when the input is, and any character that is not an ASCII upper-case letter is unchanged |
| JsText.ToLowerOfUpper | lib/mdx-utils.ts:35 | an ASCII upper-case letter becomes the lower-case letter at the same place in the alphabet |
| JsText.Span | lib/mdx-utils.ts:16 | the length of the longest prefix in a character class: all inside the class, and the next character outside it |
| JsText.ReplaceRunsChars | lib/mdx-utils.ts:37-38 | replacing runs outputs only the replacement or characters outside the class, and loses none of the latter |
| JsText.ReplaceRunsNoAdjacent | lib/mdx-utils.ts:37-38 | when the replacement belongs to the class, no two class characters are left side by side |
| JsText.ReplaceRunsIdentity | lib/mdx-utils.ts:37-38 | a string whose class characters are single replacement characters is unchanged |
| JsText.ReplaceRunsAppend | lib/mdx-utils.ts:37-38 | the replacement works piecewise where the seam is not inside a run |
| JsText.ReplaceRunsCollapse | lib/mdx-utils.ts:37-38 | a whole run is replaced exactly as its first character alone would be |
| JsText.ConcatAppend | components/content/Typography.tsx:8-9 | joining with no separator distributes over concatenation of the pieces |
| Typography.GenerateHeadingId | components/content/Typography.tsx:7-17 | the generated id is well formed, and it is non-empty if and only if the children's text holds a `\w` character |
| Typography.HeadingId | components/content/Typography.tsx:19-95 | each of `H1` to `H6` uses the given id when it is non-empty, and otherwise the generated, well-formed id |
| Typography.ChildrenTextAppend | components/content/Typography.tsx:8-9 | array children contribute their items in order, so splitting the array anywhere gives the same text |
| Typography.PartsJoinIds | components/content/Typography.tsx:7-17 | children `[x, " ", y]` of two non-empty ids generate `x-y` |
| Typography.GeneratedIdIsFixed | components/content/Typography.tsx:11-16 | a generated id, used as the text of another heading, generates itself |
| Typography.TocEntriesResolve | components/content/Typography.tsx:7-20 | every table-of-contents entry's id is the id a heading renders when its children are the entry's text and it has no `id` prop |
| Typography.PlainHeadingResolves | components/content/Typography.tsx:7-20 | for a plain heading line, the extracted entry carries the text, the level and the id the rendered heading with that text carries |
| Equation.TextIsLeaves | components/content/Equation.tsx:7-22 | `TextContent` models `getTextContent`; it is the concatenation of the tree's text leaves in document order (strings, numbers and `true`; elements are transparent; `null`, `undefined` and `false` give nothing) |
| Equation.TextOfArrayAppend | components/content/Equation.tsx:18-20 | the text of an array splits where the array splits |
| Equation.NestedArrays | components/content/Equation.tsx:18-20 | an array of two arrays reads as the flat array of their items |
| Equation.WrappersAddNothing | components/content/Equation.tsx:14-17 | element wrappers contribute nothing, however deeply they nest |
| Equation.IntToStringRoundTrip | components/content/Equation.tsx:11-13 | the decimal text of an integer reads back as that integer (matching `String` for integers within ±2^53) |
| Equation.IntToStringCanonical | components/content/Equation.tsx:11-13 | the decimal text is non-empty, has a minus sign exactly for negative numbers, and has no leading zero |
| Equation.Digits | components/content/Equation.tsx:11-13 | the digits of a natural number are non-empty, all decimal digits, and without a leading zero |
| Equation.RenderOf | components/content/Equation.tsx:30-183 | every component hands the renderer the text of its children; display mode is on exactly for `block` or for `BlockEquation` |
| Equation.FallbackShowsSource | components/content/Equation.tsx:57-61 | the `<code>` element of `Equation`'s error fallback holds exactly the text that component gave the renderer, in either mode |
| Equation.BlockPlaceholder | components/content/Equation.tsx:202-206 | `BlockEquation` shows a placeholder exactly before its client render, and the placeholder is the text the client render hands to the renderer |
| ScreenshotCarousel.NextIndex | components/ScreenshotCarousel.tsx:16 | the "next" updater keeps the index within the list |
| ScreenshotCarousel.PrevIndex | components/ScreenshotCarousel.tsx:15 | the "previous" updater keeps the index within the list |
| ScreenshotCarousel.NextIndexMod | components/ScreenshotCarousel.tsx:16 | "next" is a step forwards round the list: `(i + 1) mod n` |
| ScreenshotCarousel.PrevIndexMod | components/ScreenshotCarousel.tsx:15 | "previous" is a step backwards round the list: `(i + n - 1) mod n` |
| ScreenshotCarousel.PrevNextInverse | components/ScreenshotCarousel.tsx:15-16 | the two buttons undo each other |
| ScreenshotCarousel.NextTimes | components/ScreenshotCarousel.tsx:16 | any number of "next" presses keeps the index within the list |
| ScreenshotCarousel.NextTimesMod | components/ScreenshotCarousel.tsx:16 | `k` presses of "next" move the index `k` places round the list |
| ScreenshotCarousel.NextCycle | components/ScreenshotCarousel.tsx:16 | pressing "next" once per image returns to the image on show, and no fewer presses do |
| ScreenshotCarousel.Replay | components/ScreenshotCarousel.tsx:15-16 | any sequence of clicks keeps the index within the list |
| ScreenshotCarousel.ReplayPosition | components/ScreenshotCarousel.tsx:15-16 | whatever their order, clicks leave the index at the start plus the "next" clicks minus the "previous" clicks, round the list |
| ScreenshotCarousel.ViewOf | components/ScreenshotCarousel.tsx:13-66 | nothing is rendered exactly for an empty list; otherwise the current image's url and alt, priority exactly at index 0, arrows exactly for more than one image, the caption exactly when it is present and non-empty, and with more than one image one dot per image, highlighted exactly at the index |
| ScreenshotCarousel.OneDotHighlighted | components/ScreenshotCarousel.tsx:55-64 | with more than one image exactly one dot is highlighted |
| ScreenshotCarousel.Carousel.constructor | components/ScreenshotCarousel.tsx:11-13 | the index starts at 0 and a missing image list behaves as an empty one |
| ScreenshotCarousel.Carousel.Prev | components/ScreenshotCarousel.tsx:15 | the "previous" button sets the index to the "previous" updater of the old index and keeps it within the list |
| ScreenshotCarousel.Carousel.Next | components/ScreenshotCarousel.tsx:16 | the "next" button sets the index to the "next" updater of the old index and keeps it within the list |

## Left out

- The page routes that read `.mdx` files, strip their front matter and pass the body to the extractor are not part of this model. Only the extractor is.
- `JsText.ToLower`: `toLowerCase` is modelled on ASCII letters only. Non-ASCII letters whose lower case holds an ASCII letter, such as the Kelvin sign U+212A (lower case `k`) or U+0130 (lower case `i` plus a combining dot), keep their own character here. The source would keep that ASCII letter in the id, the model drops the character.
- Strings are sequences of Unicode characters, not UTF-16 code units. A character outside the Basic Multilingual Plane counts as one character here and as two code units in the source. No operation modelled depends on that difference.
- `Typography.GenerateHeadingId`: only string and array-of-string children are modelled. In the source, element children (inline code, emphasis, links) and objects join as `[object Object]`. Numbers join as their decimal text. As a result, a heading with inline markup renders an id different from its table-of-contents id; the model does not cover such headings.
- `Equation.TextContent`: numbers are integers only. Fractions, `NaN`, `Infinity`, `-0` and magnitudes of `1e21` and above (which `String` writes in exponent form) are not modelled, and neither are integers beyond ±2^53 (`Number.MAX_SAFE_INTEGER`), which a JavaScript number holds only as the nearest double, so `String` writes that double (`String(2**64)` is `18446744073709552000`) where `IntToString` writes the exact integer. Other React node kinds (portals, non-array iterables, plain objects) are not modelled either.
- The math renderer itself, its options and macros, the `console.error` logging, and the dynamic import in `BlockEquation` are outside the model. The model states which text and display mode each component hands over.
- The error fallback is modelled as the markup string the source builds. How the browser parses that `innerHTML` is not modelled, including text that itself contains markup.
- The React state and effect machinery is not modelled: batching of `setIdx` updates, effects re-running, and a change of the `images` prop between renders. When the list shrinks, the source does not reset the index; the model's class keeps its list fixed.
- Class names, styles, image sizes, labels and the other presentational components (`P`, `HR`, the lists, `A`) are left out. They compute nothing.
- `maxLevel` is an integer. The source accepts any JavaScript number, including fractions and `NaN`; those are not modelled.
- `ScreenshotCarousel.Carousel.View` states nothing of its own. It reads the object's state into `ViewOf`, which carries the contract.
