# XPath Finder: candidate generation, verified in Dafny

XPath Finder is a browser extension that shows, for the element under the
mouse, a ranked list of XPath expressions that select it. This project
models the core of its content script, `xpath_finder/content.js`:

- `escapeXPathString` turns any string into an XPath expression whose string
  value is that string. It uses a quoted literal when it can and a
  `concat(...)` call when the string holds both kinds of quote.
- `getElementXPath` builds the absolute path `/html/.../tag[i]` of an
  element. In strict mode it indexes every step; otherwise it leaves out the
  index of a step whose tag is unique among its siblings.
- `generateXPathAlternatives` builds the candidates in a fixed order:
  - by id (priorities 10 and 9);
  - by all classes (8) and by each class (6);
  - by text (7);
  - by attribute (5);
  - by full path (1).

  It then keeps the candidates that are non-empty and valid. When a tag
  filter is set and some candidate mentions it, those candidates get +100
  and the `tagFiltered` flag. Finally it sorts the list by priority, highest
  first.

  The filter test looks for `/` + filter anywhere in the expression. In
  `//*[@id=..]` the only `/` characters outside the id are the two
  leading ones, followed by `/` and `*`, and quoting the id adds no `/`.
  So for an id without `/`, no filter that is a tag name boosts that
  expression, while `//tag[@id=..]` is boosted by the filter `tag`. For
  `<div id="x" class="a b">` with filter `div`, `//div[@id='x']` (109) is
  flagged and comes before the unflagged `//*[@id='x']` (10)
  (`TagIdMatches`, `IdNotMatched`, `AlternativesFiltered`).
- The list of recent expressions: the hover handler records the best
  candidate in front, skips an expression that is already listed, and keeps at most
  `MAX_RECENT_XPATHS = 10` entries.

Files and modules:

| file | module | what it holds |
|---|---|---|
| `wrappers.dfy` | `Wrappers` | `Option` |
| `text.dfy` | `Text` | the JavaScript string operations the code relies on |
| `dom.dfy` | `Dom` | the element snapshot the generator reads |
| `xpath_literal.dfy` | `XPathLiteral` | the escaper, and a decoder that gives the string value of an XPath 1.0 string literal (section 3.7 of XPath 1.0) or of a `concat` call over literals (section 4.2) |
| `element_path.dfy` | `ElementPath` | the absolute path and a parser for it |
| `ranking.dfy` | `Ranking` | candidates, the validity filter, the tag boost and the stable sort |
| `alternatives.dfy` | `Alternatives` | the generator: one function per block of candidates, the source's loops as methods proved against those functions, and lemmas about the result |
| `recent.dfy` | `Recent` | the recent list, as a class whose `seq` field is updated in place |

The browser supplies the element, `isValidXPath`, `strictMode` and
`tagFilter`; the model takes them as parameters. The element is a value of
type `Dom.Element` that records:

- its tag name, id, class name, attributes and text;
- its position among the siblings with the same tag, and how many such
  siblings there are;
- its parent.

## Model

| member | source | states |
|---|---|---|
| XPathLiteral.EscapeXPathString | xpath_finder/content.js:225-278 | The method computes `Escape`: `''` for a non-string. It gives `'s'` when `s` has no quote, `"s"` when it has apostrophes only, and `'s'` when it has quotation marks only. Otherwise it gives `concat(...)`. The result's string value is the input. |
| XPathLiteral.ConcatArguments | xpath_finder/content.js:249-275 | The loop yields the `concat` arguments in order. A maximal quote-free run gives one `'run'`. Each apostrophe gives `"'"` and each quotation mark gives `'"'`. |
| XPathLiteral.EscapeRoundTrip | xpath_finder/content.js:225-278 | Decoding the escaped form gives back the string (the empty string for a non-string). The escaper never changes the value it quotes. |
| XPathLiteral.LiteralRoundTrip | xpath_finder/content.js:231-244 | For a string that lacks one kind of quote, the single literal decodes to the string. |
| XPathLiteral.ConcatRoundTrip | xpath_finder/content.js:246-278 | For a string with both quotes, the `concat` call decodes to the string. |
| XPathLiteral.EscapeSingleLiteral | xpath_finder/content.js:231-244 | For a string that lacks one kind of quote, the result is one literal. It is delimited by a quote the string lacks, so nothing inside can end it. |
| XPathLiteral.EscapeBothQuotes | xpath_finder/content.js:246-278 | For a string with both quotes, the result is `concat(` + arguments joined by `, ` + `)`. Every argument is a literal that does not contain its own delimiter. |
| XPathLiteral.SegmentsFlatten | xpath_finder/content.js:253-270 | The loop's pieces (quote-free runs and single quotes), put back together, are the input. |
| XPathLiteral.SegmentsWellFormed | xpath_finder/content.js:253-270 | Every piece is a non-empty quote-free run or a single quote, and no two runs are adjacent: a run is pushed only when a quote or the end closes it. |
| XPathLiteral.EscapeLacks | xpath_finder/content.js:225-278 | Escaping adds only quote characters and those of `concat(`, `, ` and `)`. A character outside these that the value lacks is missing from its escaped form too. |
| XPathLiteral.SegmentsKeepQuote | xpath_finder/content.js:253-270 | Each quote character the input holds is a piece of its own. |
| ElementPath.ElementXPath | xpath_finder/content.js:37-61 | A missing element gives `""`. An attached element gives a path that starts with `/html`. |
| ElementPath.StepOf | xpath_finder/content.js:44-60 | A step is the lower-cased tag. The index is omitted exactly when the tag is unique among its siblings and the mode is not strict. When present, the index is the 1-based position among same-tag siblings. |
| ElementPath.PathIsSteps | xpath_finder/content.js:37-61 | The path is `/html` followed by the rendered steps of the element's ancestors below `html`, outermost first, ending with the element's own step. |
| ElementPath.StepsIndices | xpath_finder/content.js:48-60 | Every index in the path satisfies 1 <= i <= (number of same-tag siblings). A step has no index exactly when its count is 1 and the mode is not strict. |
| ElementPath.PathRoundTrip | xpath_finder/content.js:37-61 | Parsing the path gives back exactly the steps, for tag names without `/` or `[`. |
| ElementPath.PathsDistinguish | xpath_finder/content.js:37-61 | Two elements whose step lists differ get different paths. |
| ElementPath.RenderSnoc | xpath_finder/content.js:53-60 | Appending a step appends `/tag` or `/tag[i]` to the path. |
| Text.Trim | xpath_finder/content.js:93-95 | `trim()`: the result is the slice of the input left after removing a leading and a trailing run of white space. It starts and ends with a non-space, and it is empty exactly when the input is all white space. |
| Text.SplitWs | xpath_finder/content.js:95 | `split(/\s+/)`: at least one field, none containing white space. |
| Text.SplitWsSpaced | xpath_finder/content.js:95 | The input is its fields joined by non-empty runs of white space. No field holds white space, and only the first and the last may be empty. |
| Text.SpacedIsSplit | xpath_finder/content.js:95 | Conversely, any fields that join the input in that way are the ones `split` yields: the split is unique. |
| Text.SplitTrimmedIsWords | xpath_finder/content.js:95 | Splitting a trimmed, non-blank class name gives non-empty class names only. |
| Text.IncludesIff | xpath_finder/content.js:199-203 | `includes` holds exactly when the substring occurs at some position. |
| Text.DecimalRoundTrip | xpath_finder/content.js:59-60 | The decimal text of an index reads back as the index. |
| Alternatives.ClassNames | xpath_finder/content.js:89-95 | There are classes exactly when the class name is a non-blank string. Every class is non-empty and free of white space. |
| Alternatives.ClassNamesAreWords | xpath_finder/content.js:95 | The classes are the words of the trimmed class name, in order: joined by runs of white space they give it back. |
| Alternatives.IdCandidatesSpec | xpath_finder/content.js:71-87 | A non-empty id gives `//*[@id=..]` (10) and `//tag[@id=..]` (9), each quoting the id so that it decodes back. An empty id gives neither. |
| Alternatives.ClassCandidatesSpec | xpath_finder/content.js:97-118 | There is one class candidate (6) per class, in class order, each quoting its class. The conjunction (8) exists exactly when there are two or more classes, and it quotes every class in order. |
| Alternatives.TextCandidatesSpec | xpath_finder/content.js:121-151 | The text candidate (7) exists exactly for a text tag whose trimmed text is non-empty and shorter than 50. It quotes that text. |
| Alternatives.AttributeCandidatesSpec | xpath_finder/content.js:154-180 | Each attribute candidate (5) comes from an attribute that is not `id` or `class`, has a non-empty value, and has a name among `name`, `type`, `data-*`, `placeholder`, `title` and `value`. It quotes the value after `@name=`. |
| Alternatives.UsedAttributesExactly | xpath_finder/content.js:155-167 | Exactly the qualifying attributes make candidates, each as often as it occurs. |
| Alternatives.UsedAttributesAppend | xpath_finder/content.js:155 | The qualifying attributes keep the attribute order: those of a concatenation are those of the first part, then those of the second. |
| Alternatives.GenerateXPathAlternatives | xpath_finder/content.js:64-222 | The method computes `Alternatives`. The result is sorted by descending priority, and every entry has a non-empty, valid expression. |
| Alternatives.IdXPaths | xpath_finder/content.js:71-87 | The method yields the two id candidates. |
| Alternatives.ClassXPaths | xpath_finder/content.js:89-119 | The method yields the conjunction block and the per-class block of the class names. |
| Alternatives.AllClassesXPath | xpath_finder/content.js:97-108 | The method yields the conjunction candidate. |
| Alternatives.ClassConditionsOf | xpath_finder/content.js:99-101 | The loop yields one `contains(@class, ..)` per class, in order. |
| Alternatives.EachClassXPaths | xpath_finder/content.js:110-118 | The loop yields one class candidate per class, in order. |
| Alternatives.TextXPaths | xpath_finder/content.js:121-151 | The method yields the text candidate or nothing. |
| Alternatives.AttributeXPaths | xpath_finder/content.js:154-180 | The loop yields the attribute candidates in attribute order. |
| Alternatives.RankCandidates | xpath_finder/content.js:195-221 | The method boosts the matching candidates by +100 and flags them, then sorts. With no active filter, or no match, it just sorts. |
| Alternatives.GeneratedBlocks | xpath_finder/content.js:64-188 | The generated list is the seven blocks in push order. |
| Alternatives.GeneratedByPriority | xpath_finder/content.js:64-188 | For each priority the generated list holds exactly one block: 10 the id, 9 the tag and id, 8 the conjunction, 6 the classes, 7 the text, 5 the attributes, 1 the full path. Any other priority holds nothing. Nothing is flagged. |
| Alternatives.RankKeepsUsable | xpath_finder/content.js:190-221 | Boosting and sorting keep every candidate usable. |
| Alternatives.ValidFresh | xpath_finder/content.js:190-193 | Every candidate kept by the validity filter is unflagged and has one of the generator's priorities. |
| Alternatives.AlternativesUnfiltered | xpath_finder/content.js:190-221 | Without an active filter that some candidate mentions, the result equals the result with no filter. It holds every usable candidate as often as generated and nothing else, and nothing is flagged. For each priority it lists that block's usable candidates in generated order. |
| Alternatives.IdFirst | xpath_finder/content.js:71-78 | Without filtering, a usable `//*[@id=..]` candidate is first. |
| Alternatives.TagIdMatches | xpath_finder/content.js:198-203 | A tag filter boosts the `//tag[@id=..]` candidate whose tag is the filter. |
| Alternatives.IdNotMatched | xpath_finder/content.js:198-203 | A tag filter that does not start with `/` or `*` never boosts `//*[@id=..]` when the id holds no `/`, whatever quoting the id needs. |
| Alternatives.FullPathLast | xpath_finder/content.js:182-188 | Without filtering, a usable full path is last. |
| Alternatives.AlternativesFiltered | xpath_finder/content.js:195-217 | With filtering, the result is a permutation of the matching candidates (boosted by 100 and flagged) and the others (untouched). A candidate is flagged exactly when its expression mentions the filter. Flagged candidates precede unflagged ones, and each priority keeps its order. |
| Ranking.SortByPriority | xpath_finder/content.js:216 | The sort yields a permutation sorted by descending priority. |
| Ranking.SortStable | xpath_finder/content.js:221 | The sort keeps the relative order of candidates of equal priority. |
| Ranking.KeepValid | xpath_finder/content.js:191-193 | Every kept candidate has a non-empty, valid expression. |
| Ranking.KeepValidExactly | xpath_finder/content.js:191-193 | The filter keeps exactly the usable candidates, each as often as it was generated. |
| Ranking.KeepValidWithPriority | xpath_finder/content.js:191-193 | Filtering keeps the generated order within every priority. |
| Ranking.MatchesIff | xpath_finder/content.js:199-203 | The filter test holds exactly when the expression contains `/` + filter; the `//` test adds nothing. |
| Ranking.Matching | xpath_finder/content.js:198-203 | The kept candidates all mention the filter, and they come from the input. |
| Ranking.NotMatching | xpath_finder/content.js:212-215 | The kept candidates do not mention the filter, and they come from the input. |
| Ranking.MatchingExactly | xpath_finder/content.js:198-203 | The filter keeps every candidate that mentions the filter, as often as it occurs, and nothing else. |
| Ranking.NotMatchingExactly | xpath_finder/content.js:212-215 | The filter keeps every candidate that does not mention the filter, as often as it occurs, and nothing else. |
| Ranking.MatchingAppend | xpath_finder/content.js:198-203 | The filter keeps the order: filtering a concatenation gives the filtered parts in order. |
| Ranking.NotMatchingAppend | xpath_finder/content.js:212-215 | The same holds for the candidates that do not match. |
| Ranking.BoostAll | xpath_finder/content.js:207-210 | Each candidate has its priority raised by 100 and its flag set. Nothing else changes. |
| Ranking.Rank | xpath_finder/content.js:195-221 | The result is sorted by descending priority. |
| Ranking.RankUnboosted | xpath_finder/content.js:195-221 | With no active filter or no match, the result is the unfiltered result. It is a permutation of the valid candidates and keeps each priority's order. |
| Ranking.RankBoosted | xpath_finder/content.js:195-217 | With matches, the result has the same length and is a permutation of the boosted and the other candidates. It is flagged exactly when matching, flagged first, and each priority keeps its order. |
| Recent.RecentAfter | xpath_finder/content.js:475-491 | The recorded expression is listed. A listed one changes nothing. Otherwise it goes in front, followed by the old list, minus its last entry when the list is full. It keeps the list free of duplicates and at most 10 long. |
| Recent.OlderKept | xpath_finder/content.js:479-487 | Recording keeps every older entry, except the oldest one when the list was full. |
| Recent.RecordTwice | xpath_finder/content.js:479 | Recording the same expression twice is recording it once. |
| Recent.RecentXPaths.constructor | xpath_finder/content.js:7-8 | The list starts empty. |
| Recent.RecentXPaths.Record | xpath_finder/content.js:475-491 | When there are candidates, the list becomes `RecentAfter` of the first candidate's expression; otherwise it is unchanged. The invariant (at most 10 entries, none twice) is kept. |

## Left out

- The browser is not modelled: the document, `document.evaluate`, the
  tooltip, the highlighting, the event handlers, messaging and
  `chrome.storage` (line 489).
- `isValidXPath` is a parameter. It depends on the browser's XPath engine
  and may be any predicate.
- The element is a snapshot. The model does not read the live DOM.
- `toLowerCase` is modelled for ASCII letters only.
- `text.length < 50` counts characters, where JavaScript counts UTF-16 code
  units.
- The `try`/`catch` around the text and attribute pushes is left out. It is
  dead code: the escaper never throws.
- `escapeXPathString` is called on a non-string (`Option.None`) only in its
  own model. The generator always passes strings.
- A class name that is not a string (an SVG element) is `None` and gives no
  class candidates, as the `typeof` test does.
- `Array.prototype.sort` is a library routine. It is modelled as a stable
  insertion sort on descending priority, matching the comparator
  `b.priority - a.priority`. ECMAScript 2019 requires the sort to be stable.
- The source boosts by mutating shared candidate objects, then drops the
  flagged ones from `validXPaths`. The model boosts copies and keeps the
  candidates that do not match. This gives the same list, because no
  generated candidate is flagged beforehand.
- The popup, the background script and the Python crawler are outside the
  core and are not part of this model.
- ElementPath.ElementXPath: requires the element to be attached: its chain
  of parents reaches an element whose tag lowers to `html`, and every
  position lies within its count. The source throws on a detached element
  when it reads `parentNode.children`. The model has no exceptions, so it
  excludes that input.
- Alternatives.GenerateXPathAlternatives: requires an attached element, for
  the same reason.
- ElementPath.PathRoundTrip: proved only for tag names without `/` or `[`.
  A name holding `[` makes the path ambiguous: tag `a[1]` without an index
  renders exactly like tag `a` at index 1. Names that conform to HTML never
  hold `/` or `[`.
