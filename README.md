# amp markdown parser, modelled in Dafny

This project models the parsing engine of `amp`, a small markdown-like document parser.
The engine is `lib/parser.ts` together with its two link helpers, `lib/splitLinkFromText.ts`
and `lib/parseLinkInTextBody.ts`. A document goes through these steps:

1. `split` cuts a `---`-fenced header off the trimmed input.
2. `parseFrontmatter` reads the header's `key: value` lines into a record.
3. `parseBlocks` reads the body block by block. At each step it tries seven recognisers in a
   fixed order (heading, quote, list, image, code, thematic break, paragraph) and continues on
   the trimmed rest.
4. Every text-bearing block builds its body the same way:
   - `parseTextBody` tokenizes inline styles (`**strong**`, `*italic*`, `_italic_`, `` `code` ``);
   - each plain run that holds a link `[label](url)` is split into text and link nodes.

Modules and files:

- `js_text.dfy`, module `JsText`: the JavaScript string semantics the parser relies on.
  - What `.` and `\s` match, and `String.prototype.trim`.
  - `split(/\n+/)` and `indexOf`.
  - The scans the regular expressions perform.
- `definition.dfy`, module `Definition`: the node and block shapes of `lib/definition.ts`.
  - It also holds `Result`, the value-or-thrown-error outcome.
- `text_style.dfy`, module `TextStyle`: `checkHeadStyle`, `parseTextBodyStyle` and `parseTextBody`.
- `link_split.dfy`, module `LinkSplit`: the link search `\[.+?\]\(.+?\)` and `splitLinkFromText`.
- `link_nodes.dfy`, module `LinkNodes`: `parseLinkInTextBody` with its greedy label and url captures.
- `inline_body.dfy`, module `InlineBody`: the "tokenize, then split links, then flatten" body of
  every text block.
- `block_parsers.dfy`, module `BlockParsers`: each block's regular expression as a prefix matcher.
  - Covers the heading, quote, image, code, thematic break and paragraph extractors.
- `list_block.dfy`, module `ListBlock`: the list recogniser, `parseListBlock` and `parseListItem`.
- `dispatcher.dfy`, module `Dispatcher`: `parseHeadBlock` and `parseBlocks`.
  - `parseHeadBlock` is a method whose `for` loop over the recogniser table becomes a `while` loop.
- `frontmatter.dfy`, module `Frontmatter`: `split` and `parseFrontmatter`.
  - `parseFrontmatter` is a method whose loop fills the record line by line, with later keys
    overriding earlier ones.
- `document.dfy`, module `Document`: `parse`.

A `throw new Error(m)` becomes `Err(m)`, which carries the source's own message.

Regular expressions are written as scans with JavaScript's rules:

- `.` matches anything but the four line terminators (`\n`, `\r`, U+2028, U+2029).
- `\s` and `trim` use the WhiteSpace and LineTerminator sets.
- A greedy operator takes the longest match, a lazy operator the shortest.
- The leftmost start wins.

Each matcher's contract is stated against a declarative match predicate: that the match exists
exactly when the pattern can match, and that it is the longest or shortest one the operator
demands. The repeated groups of the quote and list patterns are stated as a chain of whole
iterations that stops where no further iteration can start.

## Model

| member | source | states |
|---|---|---|
| JsText.SkipSpace | lib/parser.ts:23 | the first non-whitespace position at or after i, with only whitespace skipped |
| JsText.SkipSpaceBack | lib/parser.ts:23 | the end of the text with trailing whitespace removed, and only whitespace removed |
| JsText.Trim | lib/parser.ts:23 | `trim` returns a contiguous slice of the input, with whitespace only before and after it; the result starts and ends with non-whitespace; it is empty exactly when the input is all whitespace |
| JsText.TrimOfTrimmed | lib/parser.ts:26 | trimming text that is already trimmed changes nothing |
| JsText.TrimAround | lib/parser.ts:366 | trimming whitespace + t + whitespace gives t back, for trimmed t |
| JsText.TrimCut | lib/parser.ts:23 | the trimmed text sits at a position with only whitespace before it |
| JsText.TrimTail | lib/parser.ts:26 | slicing a trimmed text at n and trimming the rest gives text[..n], a whitespace gap, and the rest |
| JsText.LineRun | lib/parser.ts:60-67 | `.*` from i stops exactly at the next line terminator or at the end of the text |
| JsText.LineRunIs | lib/parser.ts:60-67 | any run of non-terminators that ends at a terminator or at the end is the `.*` run |
| JsText.CharRun | lib/parser.ts:60 | a run of c such as `#+` or `-+` is maximal |
| JsText.CharRunIs | lib/parser.ts:60 | a maximal run of c is the run CharRun measures |
| JsText.DigitRun | lib/parser.ts:62 | `\d+` is maximal |
| JsText.DigitRunIs | lib/parser.ts:62 | a maximal digit run is the run DigitRun measures |
| JsText.WordRun | lib/parser.ts:64 | `\w+` is maximal |
| JsText.IndexOf | lib/parser.ts:219 | `indexOf` returns the first occurrence of t at or after `from` |
| JsText.CharIndex | lib/parser.ts:40 | the first c at or after `from`, or the end of the text |
| JsText.CharIndexIs | lib/parser.ts:40 | any position with no c before it and c (or the end) at it is CharIndex |
| JsText.SplitLines | lib/parser.ts:40 | `split(/\n+/)` returns at least one piece, and no piece holds a newline |
| JsText.SplitLineEnd | lib/parser.ts:40 | a single line ended by a newline splits into the line and an empty piece |
| JsText.SplitJoinLines | lib/parser.ts:265 | splitting lines joined by newlines gives the same lines back, when none is empty or holds a newline |
| JsText.NonBlank | lib/parser.ts:265 | `filter(line => line.trim() !== '')` keeps a line exactly when it is in the input and not all whitespace |
| JsText.NonBlankAppend | lib/parser.ts:265 | the filter works line by line: filtering a + b is filtering a, then b, so kept lines stay in input order |
| JsText.NonBlankKeepsAll | lib/parser.ts:265 | the filter drops nothing when no line is blank |
| TextStyle.CheckHeadStyle | lib/parser.ts:169-188 | `**` is strong before `*` is italic; `_` is italic; a backtick is code; otherwise plain; two characters are stripped for strong, one for the others, none for plain; the returned text is always the suffix after the marker |
| TextStyle.ParseTextBodyStyle | lib/parser.ts:99-167 | the result only grows, and it grows when any text or an open span remains |
| TextStyle.ParseTextBody | lib/parser.ts:80-92 | the result is empty exactly for the empty input; no two adjacent runs are both plain |
| TextStyle.NoAdjacentPlainKept | lib/parser.ts:124-139 | a plain span is flushed only when a styled marker opens the next one, so two plain runs are never adjacent |
| TextStyle.Accumulates | lib/parser.ts:99-167 | the runs already closed are kept as a prefix of the result |
| TextStyle.MarkerFreeExtends | lib/parser.ts:124-163 | marker-free text is appended to the open span character by character |
| TextStyle.FlushBeforeMarker | lib/parser.ts:132-139 | an open plain span is flushed when a marker follows |
| TextStyle.PlainBeforeMarker | lib/parser.ts:118-139 | marker-free text before a marker becomes one plain run |
| TextStyle.PlainToEnd | lib/parser.ts:104-110 | marker-free text at the end becomes one plain run |
| TextStyle.MarkerStyle | lib/parser.ts:169-188 | every marker names a style other than plain, with the marker's length |
| TextStyle.HeadOfMarker | lib/parser.ts:169-188 | checkHeadStyle recognises a marker at the head and returns the text after it |
| TextStyle.OpenSpanAt | lib/parser.ts:117-123 | a marker with no span open opens a span of its style |
| TextStyle.CloseSpanAt | lib/parser.ts:143-155 | the same marker closes the open styled span and emits it |
| TextStyle.OpenSpan | lib/parser.ts:117-123 | a marker followed by marker-free text opens a span holding that text |
| TextStyle.ClosedSpan | lib/parser.ts:143-155 | `o x c` with matching styles emits one run of that style holding x |
| TextStyle.UnclosedSpan | lib/parser.ts:104-110 | an unclosed marker does not throw; its span keeps its style to the end of the input |
| TextStyle.PlainText | lib/parser.ts:80-110 | `parseTextBody('')` is `[]`; marker-free text is one plain run holding all of it |
| TextStyle.ClosedSpanAlone | lib/parser.ts:143-155 | `**x**`, `*x*`, `_x_` and `` `x` `` each give one run of their style holding x, with no marker left |
| TextStyle.Marker | lib/parser.ts:169-188 | every styled run has a marker that checkHeadStyle reads back as that style |
| TextStyle.RenderRoundTrip | lib/parser.ts:80-167 | tokenizing runs written out with their markers gives the same runs back |
| TextStyle.ForeignMarkerDropped | lib/parser.ts:156-163 | a different marker inside an open styled span is dropped, and the character after it joins the span |
| TextStyle.ItalicMarkersInterchangeable | lib/parser.ts:143-183 | for every non-empty marker-free text x, `*x_` and `_x*` each give one italic run holding x: either italic marker closes the other |
| LinkSplit.UrlClose | lib/splitLinkFromText.ts:1 | the lazy url `\(.+?\)` closes at the first `)` that leaves a non-empty url on the line |
| LinkSplit.LabelClose | lib/splitLinkFromText.ts:1 | the lazy label closes at the first `](` that admits a url; the url it returns is the shortest |
| LinkSplit.FindLink | lib/splitLinkFromText.ts:4 | the match of `\[.+?\]\(.+?\)`: the leftmost start, then the shortest label, then the shortest url; none when no link exists |
| LinkSplit.HasLink | lib/parseLinkInTextBody.ts:8 | `/\[.+\]\(.+\)/.test` holds exactly when some link span exists |
| LinkSplit.IndexOfMatch | lib/splitLinkFromText.ts:12 | `indexOf(link)` finds the match itself, not an earlier copy of its text |
| LinkSplit.LinkIndex | lib/splitLinkFromText.ts:12 | the start index `indexOf` gives for the matched link is the match's own start |
| LinkSplit.FirstLinkUnique | lib/splitLinkFromText.ts:4 | the leftmost-shortest match is unique |
| LinkSplit.MatchIsLink | lib/parseLinkInTextBody.ts:8 | the fragment cut out for a match passes the link test |
| LinkSplit.SplitLinkFromText | lib/splitLinkFromText.ts:3-17 | for non-empty input no fragment is empty; `''` gives `['']` |
| LinkSplit.SplitJoinsAll | lib/splitLinkFromText.ts:3-17 | concatenating the fragments gives the input back |
| LinkSplit.SplitNoLink | lib/splitLinkFromText.ts:6-8 | without a link the result is `[input]` |
| LinkSplit.DropEmpty | lib/splitLinkFromText.ts:16 | `filter(Boolean)` leaves no empty string |
| LinkSplit.DropEmptyKeeps | lib/splitLinkFromText.ts:16 | `filter(Boolean)` on strings keeps their concatenation |
| LinkSplit.SplitClassifiedAll | lib/splitLinkFromText.ts:3-17 | every fragment either is exactly one link or holds no link |
| LinkSplit.SingleLink | lib/splitLinkFromText.ts:3-17 | a lone link is one fragment |
| LinkSplit.SplitAtMatch | lib/splitLinkFromText.ts:12-16 | the input splits into the text before the match, the match, and the split of the rest, with empty pieces dropped |
| LinkSplit.NoCloseNoSplit | lib/splitLinkFromText.ts:6-8 | text with no `](` (no closing bracket for a link) stays one fragment |
| LinkSplit.EmptyLabelNoSplit | lib/splitLinkFromText.ts:1 | `[](url)` is no link and is not split |
| LinkSplit.EmptyUrlNoSplit | lib/splitLinkFromText.ts:1 | `[label]()` is no link and is not split |
| LinkSplit.NoOpenNoLink | lib/splitLinkFromText.ts:1 | text without `[` holds no link |
| LinkSplit.SplitAroundLink | lib/splitLinkFromText.ts:12-16 | with no `[` before it, `[l](u)` is the match and the text is split around it |
| LinkSplit.FindAfterPrefix | lib/splitLinkFromText.ts:4 | the match in p + `[l](u)` + t starts right after p |
| LinkSplit.LeadingLink | lib/splitLinkFromText.ts:16 | a link at the head comes out as the first fragment, followed by the split of the rest |
| LinkSplit.AdjacentLinks | lib/splitLinkFromText.ts:3-17 | two adjacent links come out as two fragments, in order |
| LinkSplit.SimpleLinkAlone | lib/splitLinkFromText.ts:3-17 | `[l](u)` alone is one fragment |
| LinkSplit.LinkBetweenText | lib/splitLinkFromText.ts:3-17 | text, link, text come out as three fragments, in input order |
| LinkNodes.LastBefore | lib/parseLinkInTextBody.ts:9-10 | the last occurrence of a character below a bound |
| LinkNodes.GreedyFrom | lib/parseLinkInTextBody.ts:9-10 | the match of `\[(.+)\]` (or `\((.+)\)`): the leftmost opening character with a close on its line, then the last such close |
| LinkNodes.Capture | lib/parseLinkInTextBody.ts:9-10 | the greedy capture is non-empty exactly when the text holds an opening character with a closing one after it on its line, and it holds no line terminator |
| LinkNodes.FragmentNode | lib/parseLinkInTextBody.ts:7-21 | a fragment becomes a text node exactly when it holds no link, carrying the run's style and the fragment verbatim; a link node has a non-empty label body and a non-empty, single-line url |
| LinkNodes.ParseLinkInTextBody | lib/parseLinkInTextBody.ts:5-23 | one node per fragment of splitLinkFromText, in order; a fragment becomes a link node exactly when it holds a link; text nodes carry the input's style and the fragment verbatim; link nodes come only from fragments that are one link |
| LinkNodes.NoLinkUnchanged | lib/parseLinkInTextBody.ts:5-23 | without a link the output is `[input]`, style kept |
| LinkNodes.LinkOnOneLine | lib/splitLinkFromText.ts:1 | a link fragment holds no line terminator |
| LinkNodes.LinkCaptures | lib/parseLinkInTextBody.ts:9-10 | the label is the text between the fragment's first `[` and its last `]`; the url is the text between its first `(` and its last `)` |
| LinkNodes.SimpleLinkIsLink | lib/splitLinkFromText.ts:1 | `[l](u)` with non-empty single-line parts is a link |
| LinkNodes.SimpleLinkFragment | lib/parseLinkInTextBody.ts:8-16 | the fragment `[l](u)` becomes a link whose body is l tokenized and whose url is u verbatim |
| LinkNodes.SimpleLinkNode | lib/parseLinkInTextBody.ts:5-23 | a run that is just `[l](u)` becomes one link node |
| LinkNodes.StrongLabel | lib/parseLinkInTextBody.ts:13 | `[**x**](u)` becomes a link whose body is `[strong x]` |
| LinkNodes.LinkBetweenTextNodes | lib/parseLinkInTextBody.ts:5-23 | text, link, text become a text node, a link node and a text node; the text nodes keep the run's style |
| LinkNodes.EmptyPartsStayText | lib/parseLinkInTextBody.ts:17-21 | `[](u)` and `[l]()` stay a single text node equal to the input |
| InlineBody.RunNodes | lib/parser.ts:71-76 | a run gives at least one node; its text nodes keep its style; a styled run, or a run without a link, stays one text node |
| InlineBody.Flatten | lib/parser.ts:71-77 | `.map(...).flat()` gives at least one node per run, and none for no runs |
| InlineBody.FlattenAppend | lib/parser.ts:71-77 | the flattened body of a + b is that of a followed by that of b |
| InlineBody.Body | lib/parser.ts:69-78 | a block body is empty exactly when its text is empty |
| InlineBody.FlattenLinkFree | lib/parser.ts:72-77 | when no plain run holds a link, the body is the runs as text nodes |
| InlineBody.PlainBody | lib/parser.ts:69-78 | the body of marker-free text is what parseLinkInTextBody makes of one plain run |
| InlineBody.RenderedBody | lib/parser.ts:69-92 | the body of rendered, link-free runs is those runs as text nodes |
| InlineBody.StyledLabelRuns | lib/parser.ts:80-167 | styles are tokenized before links: `[**x**](u)` gives the runs plain `[`, strong x, plain `](u)` |
| InlineBody.StyledLabelInBlock | lib/parser.ts:236-242 | in a block body, `[**x**](u)` is therefore not a link: it stays three text nodes |
| BlockParsers.MatchHeading | lib/parser.ts:60 | the match of `^(#{1,6})\s(.+)`: a match exists exactly when the pattern can match; its level is the only possible one, and its text is the longest |
| BlockParsers.HeadingLevel | lib/parser.ts:226-232 | the level of any match is the number of leading `#`; the text runs at most to the end of the line it starts on, which is the next line when the white space after the hashes is a newline |
| BlockParsers.ParseHeadingBlock | lib/parser.ts:226-244 | throws `Invalid heading block` exactly when the pattern fails; otherwise a heading whose level is the matched number of `#` |
| BlockParsers.HeadingRoundTrip | lib/parser.ts:226-244 | `#…# text` with k from 1 to 6 gives a heading of level k whose body is that of text |
| BlockParsers.HeadingMatchOf | lib/parser.ts:60 | the match of `#…# text` covers the whole line |
| BlockParsers.SevenHashes | lib/parser.ts:226-230 | seven `#` are no heading: the extractor throws |
| BlockParsers.MatchThematicBreak | lib/parser.ts:65 | `^-{3,}` matches exactly when the text starts with three dashes, and takes the whole run of dashes |
| BlockParsers.MatchParagraph | lib/parser.ts:67 | `^([\s\S]+?)(?:\n\|$)` matches every non-empty text, up to and including the first newline after the first character |
| BlockParsers.ParseParagraphBlock | lib/parser.ts:69-78 | a paragraph always results |
| BlockParsers.FenceFrom | lib/parser.ts:64 | the lazy code body ends at the first closing fence |
| BlockParsers.MatchCode | lib/parser.ts:64 | the match of ```` ^```(\w+)?\n([\s\S]*?)\n``` ````: the language is the only possible word run and the fence is the first one after the body starts; none exactly when the pattern cannot match |
| BlockParsers.ParseCodeBlock | lib/parser.ts:313-326 | throws `Invalid code block` exactly when the pattern fails; the language is absent rather than empty |
| BlockParsers.CodeRoundTrip | lib/parser.ts:313-326 | a fenced block gives back its language (absent when empty) and its code |
| BlockParsers.CodeMatchOf | lib/parser.ts:64 | the match of a fenced block ends at its closing fence |
| BlockParsers.FenceAfterCode | lib/parser.ts:64 | code without a fence is followed by the first fence |
| BlockParsers.Unparenthesize | lib/parser.ts:303 | `replace(/^\((.+)\)$/, '$1')` removes one pair of enclosing parentheses exactly when they hold at least one character, and otherwise leaves the text alone |
| BlockParsers.CaptionAfter | lib/parser.ts:303 | the caption is on the match's line, after the url |
| BlockParsers.ImageBelow | lib/parser.ts:63 | the greedy alt text `(.*)` before `](`: the last `](` that admits a url, then the shortest url |
| BlockParsers.MatchImage | lib/parser.ts:63 | the match of `^!\[(.*)\]\((.+?)\)(.*)`: the longest alt text, then the shortest url; none when the pattern fails |
| BlockParsers.ImageWithinLine | lib/parser.ts:63 | the alt text stays on the first line |
| BlockParsers.ParseImageBlock | lib/parser.ts:296-311 | throws `Invalid image block` exactly when the pattern fails; otherwise an image |
| BlockParsers.ImageRoundTrip | lib/parser.ts:296-311 | `![alt](url)(caption)` gives back url, alt text and caption, with the caption's parentheses removed |
| BlockParsers.ImageFields | lib/parser.ts:301-303 | the image's fields are the match's captures |
| BlockParsers.ImageCaption | lib/parser.ts:303 | a caption written in parentheses is read back without them |
| BlockParsers.ImageMatchOf | lib/parser.ts:63 | the match of `![alt](url)…` ends the url at its `)` |
| BlockParsers.QuoteLineEnd | lib/parser.ts:61 | one `>\s.*\n?` iteration ends within the text, after the marker |
| BlockParsers.QuoteLength | lib/parser.ts:61 | `^(?:>\s.*\n?)+` matches exactly when the text starts with `>` and whitespace; it takes a run of whole quote lines and stops where no quote line follows |
| BlockParsers.StripQuoteMarks | lib/parser.ts:251 | `replace(/\n>[ ]?/g, '\n')` never lengthens the text and leaves text without a newline unchanged |
| BlockParsers.StripFirstMark | lib/parser.ts:251 | `replace(/^>\s/, '')` drops two characters exactly when a quote marker starts the text, and otherwise nothing |
| BlockParsers.ParseQuoteBlock | lib/parser.ts:246-262 | throws `Invalid quote block` exactly when the pattern fails; otherwise a quote |
| BlockParsers.QuoteSource | lib/parser.ts:61 | written quote lines start with `> ` |
| BlockParsers.QuoteRoundTrip | lib/parser.ts:246-262 | lines written as `> line` give a quote whose body is that of the lines joined by newlines |
| BlockParsers.WholeQuote | lib/parser.ts:251 | a quote that spans the whole text has the body of the text with its markers removed |
| BlockParsers.QuoteLengthOfSource | lib/parser.ts:61 | the quote pattern covers every written quote line |
| BlockParsers.QuoteMarksOfSource | lib/parser.ts:251 | removing the `\n>` markers and the first `> ` from written lines gives the lines back |
| BlockParsers.NoNewlineKept | lib/parser.ts:251 | text without a newline is left alone by the marker removal |
| ListBlock.ItemMarker | lib/parser.ts:62 | an item marker is `-` or digits followed by `.` |
| ListBlock.ItemAt | lib/parser.ts:62 | one item of `(?:-\|\d+\.)\s(.+)\n?`: a marker, whitespace, then a non-empty rest of the line; the capture starts right after the whitespace and runs to the end of the line |
| ListBlock.ItemRun | lib/parser.ts:62 | the repeated item group is a chain of whole items that runs until no item follows |
| ListBlock.ListLength | lib/parser.ts:62 | the list pattern matches exactly when the text starts with an item; it takes a chain of whole items and stops where no item follows |
| ListBlock.ParseListItem | lib/parser.ts:277-294 | throws `Invalid list item` exactly when the line is no item |
| ListBlock.ListItems | lib/parser.ts:268 | one item per line, in order; fails with `Invalid list item` exactly when some line is no item |
| ListBlock.ParseListBlock | lib/parser.ts:264-275 | one item per non-blank line, item k being what parseListItem makes of line k; the list is ordered exactly when every line starts with digits and `.` |
| ListBlock.ItemLineRun | lib/parser.ts:264-268 | a written item line is one item, and numbered exactly when its marker is not `-` |
| ListBlock.ItemLineParsed | lib/parser.ts:277-294 | a written item line gives back the item whose body is that of its text |
| ListBlock.ListRoundTrip | lib/parser.ts:264-275 | lines written as `marker text` give a list of the texts' bodies, ordered exactly when no marker is `-` |
| ListBlock.ReadLines | lib/parser.ts:265 | splitting and filtering joined lines gives the lines back |
| Dispatcher.MatchLength | lib/parser.ts:342-350 | a recogniser that matches consumes a non-empty prefix |
| Dispatcher.Extract | lib/parser.ts:342-368 | the extractor of a kind gives a block of that kind or throws one of the extractor messages; the thematic-break and paragraph extractors never throw |
| Dispatcher.FirstMatchFrom | lib/parser.ts:360-362 | a match found has a length between 1 and the length of the input |
| Dispatcher.FirstMatchMeans | lib/parser.ts:360-362 | the match found is the first recogniser in table order that matches, with its match length; none is found only when no recogniser matches |
| Dispatcher.ParseHeadBlock | lib/parser.ts:352-374 | the loop over the table and the recursion compute HeadBlocks |
| Dispatcher.ParseBlocks | lib/parser.ts:332-340 | parseBlocks computes Blocks |
| Dispatcher.SomePatternMatches | lib/parser.ts:342-373 | the paragraph pattern matches any non-empty text, so `No matching block found` is never thrown |
| Dispatcher.OnlyExtractorErrors | lib/parser.ts:352-374 | every error comes from an extractor: invalid heading, quote, list item, image or code |
| Dispatcher.ResultKept | lib/parser.ts:366-369 | blocks already parsed stay a prefix of the result |
| Dispatcher.BlankHasNoBlocks | lib/parser.ts:333-335 | whitespace-only input gives no blocks |
| Dispatcher.FirstMatchIs | lib/parser.ts:360-362 | a recogniser that matches, after earlier ones that do not, is the one chosen |
| Dispatcher.HeadStep | lib/parser.ts:360-369 | a step appends the chosen block and continues on the trimmed rest |
| Dispatcher.HeadDone | lib/parser.ts:353-358 | whitespace-only input ends the recursion with the blocks so far |
| Dispatcher.BlocksFromHead | lib/parser.ts:332-340 | non-blank input is parsed from an empty result |
| Dispatcher.DashesNotEarlier | lib/parser.ts:342-347 | no recogniser before the thematic break matches text starting with dashes |
| Dispatcher.ThematicBreakFirst | lib/parser.ts:342-369 | three or more dashes are a thematic break, and parsing continues after them |
| Dispatcher.ShortDashes | lib/parser.ts:65-67 | `--` and `-` fall through to a paragraph |
| Dispatcher.BreakAlone | lib/parser.ts:328-374 | `---` alone is one thematic break |
| Dispatcher.WholeParagraph | lib/parser.ts:342-369 | text the paragraph pattern matches in full becomes one paragraph |
| Dispatcher.ParagraphExtract | lib/parser.ts:366-369 | the paragraph extractor receives the whole text and gives its body |
| Dispatcher.BlankHeadingThrows | lib/parser.ts:360-369 | `# ` followed by blank space matches when tested, but the trimmed match fails the heading pattern, so parsing throws `Invalid heading block` |
| Dispatcher.HeadingFirst | lib/parser.ts:342-369 | a heading line is parsed first, then the rest |
| Dispatcher.HeadingLineMatch | lib/parser.ts:60 | the heading pattern stops at the end of its line |
| Dispatcher.HeadingThenBreak | lib/parser.ts:352-374 | a heading followed by a line of dashes gives a heading and a thematic break |
| Dispatcher.DashesOnNextLine | lib/parser.ts:366 | the rest after a heading line is trimmed down to its dashes |
| Frontmatter.RuleFrom | lib/parser.ts:24 | the lazy `[\s\S]*?---` ends at the first rule |
| Frontmatter.HeadLength | lib/parser.ts:24-25 | a header is found exactly when the trimmed text starts with `---` and a newline and holds a later rule |
| Frontmatter.Split | lib/parser.ts:22-33 | the head is empty or a header closed by its first rule; the body is trimmed; the head is empty exactly when no header is found |
| Frontmatter.SplitKeepsText | lib/parser.ts:22-33 | the trimmed input is the head, a whitespace gap, then the body |
| Frontmatter.SplitWithoutHeader | lib/parser.ts:25-26 | without a `---` header the head is `''` and the body is the whole trimmed input |
| Frontmatter.SplitRoundTrip | lib/parser.ts:22-33 | a written header, blank space and a trimmed body split back into that header and that body |
| Frontmatter.WrittenHeader | lib/parser.ts:24 | a written header is a header |
| Frontmatter.HeaderLength | lib/parser.ts:24-25 | a header at the start of the text is what split cuts off |
| Frontmatter.LastRule | lib/parser.ts:35 | the last rule below a bound |
| Frontmatter.MatchAt | lib/parser.ts:35 | the match of `---\n+([\s\S]+)---` at a rule: the longest newline run, then the last closing rule |
| Frontmatter.MatchedRun | lib/parser.ts:35 | the newline run of any match is no longer than the maximal one |
| Frontmatter.MatchStart | lib/parser.ts:35 | the leftmost rule where the content pattern matches |
| Frontmatter.Content | lib/parser.ts:35-38 | the captured content is never empty |
| Frontmatter.HeaderContent | lib/parser.ts:35 | the content of a written header is the text between the opening line and the closing rule |
| Frontmatter.KeyEnd | lib/parser.ts:43 | the lazy key `(.+?):\s` ends at the first colon followed by whitespace |
| Frontmatter.Unquote | lib/parser.ts:52 | `replace(/^["']?(.+?)["']?$/, '$1')` removes at most one leading and one trailing character, each a quote, never empties the value, and leaves a value spanning lines alone |
| Frontmatter.QuotedValue | lib/parser.ts:52 | a value wrapped in quotes is read without them |
| Frontmatter.BareValue | lib/parser.ts:52 | a value without quotes at either end is kept |
| Frontmatter.EmptyQuotes | lib/parser.ts:52 | `""` becomes one quote character |
| Frontmatter.Entry | lib/parser.ts:43-53 | a line gives a field exactly when it matches `^(.+?):\s(.+)` |
| Frontmatter.EntryOf | lib/parser.ts:43-53 | `key: value` gives the trimmed key and the trimmed, unquoted value |
| Frontmatter.ParseFrontmatter | lib/parser.ts:34-58 | the loop fills the record that FrontmatterOf describes |
| Frontmatter.ReadFields | lib/parser.ts:41-55 | after the loop, the map holds the record of all the lines' entries |
| Frontmatter.RecordKeys | lib/parser.ts:54 | a key is in the record exactly when some line sets it |
| Frontmatter.RecordLast | lib/parser.ts:54 | the value of a key comes from the last line that sets it |
| Frontmatter.FrontmatterFields | lib/parser.ts:35-57 | a key is in the front matter exactly when some non-blank content line sets it |
| Frontmatter.NoRuleNoFields | lib/parser.ts:35-38 | text where `---\n+([\s\S]+)---` finds no match gives `{}` |
| Frontmatter.UnclosedHeader | lib/parser.ts:35-38 | an opening `---` line with no closing rule after it gives `{}` |
| Frontmatter.EmptyHeader | lib/parser.ts:35-38 | `---` directly followed by `---`, then text without a dash, gives `{}` |
| Frontmatter.OneField | lib/parser.ts:34-58 | a header with one `key: value` line gives the record of that one field |
| Document.ParseDocument | lib/parser.ts:15-20 | parse computes Parse |
| Document.ParseWithoutHeader | lib/parser.ts:15-20 | without a header the front matter is empty and the blocks are those of the trimmed input |
| Document.ParseWithHeader | lib/parser.ts:15-20 | a one-field header, blank space and a body give that field and the body's blocks |

## Left out

- Undefined characters: when the text ends right after a marker, `headText[0]` is `undefined`, and JavaScript would produce `undefined` or `"…undefined"` values. The model reads the empty string there (`TextStyle.First`).
- Strings are sequences of characters. JavaScript's UTF-16 code units and surrogate pairs are not modelled.
- The key order of the object `Object.fromEntries` builds is not modelled: the front matter is a map.
- `CustomBlock` and the extension API are not modelled. `lib/parser.ts` never produces a custom block, and `extend`/`Amp` are not part of this model.
- The unclosed-marker behaviour follows the code, not a design that makes unclosed markers plain and merges adjacent runs of one style. The code keeps the open span's style to the end and has no merge step.
- The Rust port under `src/parser/` is not modelled. `split.rs` and `parse_text_body_style.rs` are stubs, and `parse_frontmatter.rs` is unfinished.
- Test files and fixtures read from disk are not modelled.
- `LinkNodes.GreedyFrom`: stated for closing characters that are not line terminators, the only ones the parser uses (`]` and `)`).
- `TextStyle.ParseTextBodyStyle`: its own contract states only that the result grows. Its meaning is stated by the lemmas beside it: OpenSpan, ClosedSpan, UnclosedSpan, ForeignMarkerDropped, NoAdjacentPlainKept and RenderRoundTrip.
- `Frontmatter.OneField`: stated for a header of one field. RecordKeys, RecordLast and FrontmatterFields state the general case.
- `Document.ParseWithHeader`: stated for a header of one field, for the same reason.
- Scenario lemmas cover specific shapes only. Examples: a heading then a break, and text, a link, then text. Other shapes follow from the step lemmas (HeadStep, SplitAtMatch) rather than from a lemma of their own.
- `parseHeadBlock`'s `Invalid block` throw is not modelled as a reachable error. `test` and `exec` of the same non-global regular expression agree, so the branch cannot be taken.
