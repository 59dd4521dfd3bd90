# present: markdown to slides, modelled in Dafny

`present` is a terminal presentation tool. Its core is `present/markdown.py`. It turns a
markdown abstract syntax tree into a list of slides. Each slide holds elements
(headings, text, bullet lists, code blocks, scripted "codio" terminal sessions,
images and raw html blocks). Each element knows its height on screen (`size`) and
how it is drawn (`render`). A slide takes its colours and effect from a
`key=value` style directive written in an html block.

This project models that core in Dafny and proves properties of it:

- `failures.dfy`: `Option`, `Result` and the typed errors that stand in for the
  exceptions the source raises.
- `strings.dfy`: the Python string operations the core relies on (`splitlines`,
  `join`, `*`, `count` and `ljust`), with a round trip between `splitlines` and
  `"\n".join`.
- `bullet_list.dfy`: `List.walk`, `size` and `render`.
- `code_block.dfy`: `BlockCode.pad`, `size` and `render`.
- `codio.dfy`: `Codio.width`, `size` and `render` (the frame list).
- `html_style.dfy`: `BlockHtml.style`, the scan for `\w+=\w+` pairs and the dictionary in
  which a later key wins.
- `elements.dfy`: the element classes and their `size`/`render` dispatch.
- `slides.dfy`: `Slide.__init__`. It sets the flags, takes the style of the last html
  element, runs the checks in order and resolves the colours.
- `markdown.dfy`: `Markdown.parse`. It maps AST nodes to elements, fills the buffer and
  splits it into slides at thematic breaks.

The loops of the source are methods with loop invariants:
`BulletList.Walk`, `Codio.ComputeWidth`, `Codio.CountRows`,
`Codio.RenderFrames`, `Slides.ScanElements` (the loop of `Slides.NewSlide`),
`Markdown.Parse` and `Markdown.AppendChildren` (its inner loop over a
paragraph's children). `CodeBlock.Pad` keeps the list comprehensions and the
in-place `insert`/`append` of the source, as sequence comprehensions and
reassignments, without a loop. Each method is proved equal to a specification
function, and the properties are lemmas about those functions.

The terminal size is a parameter (`columns`, `rows`). So are the effect registry
and the colour table (`Slides.Registry`). The filesystem is one too: the set of
image paths that exist and the already-parsed codio scripts (`Markdown.Files`).

The flush at `present/markdown.py:339-341` exists to turn the buffer into the
last slide when the document ends. It runs only when the last AST node is
processed as content, that is, when it is neither a newline node nor a thematic
break that closes a slide. It runs even when that node adds nothing, and then flushes
whatever is pending. That is an empty slide when nothing is pending: a
one-paragraph document with no children, or an empty paragraph straight after a
closing break (`Markdown.EmptyLastParagraphFlushesEmptySlide`). A final thematic break closes
the buffer into a slide itself (`Markdown.TrailingBreakKeepsSlide`), or fails
when the buffer is empty. Only a trailing run of newline nodes loses the buffer.
The model follows the code (`Markdown.Deck`) and also gives the version that
flushes whatever non-empty buffer is left at the end (`Markdown.DeckFlushingTail`);
see Findings.

## Model

| member | source | states |
|---|---|---|
| Strings.SplitLines | present/markdown.py:90 | `str.splitlines`: no line it returns holds a line boundary, and the empty string (and only it) has no lines |
| Strings.Repeat | present/markdown.py:39 | `c * n` for a one-character string `c` is `n` characters long |
| Strings.RepeatChar | present/markdown.py:39 | every character of `c * n` is `c` |
| Strings.Count | present/markdown.py:137-138 | `str.count` of a character is at most the length, and 0 exactly when the character is absent |
| Strings.LJust | present/markdown.py:94 | `ljust` gives the width, or the string's own length when that is longer |
| Strings.LJustContents | present/markdown.py:94 | `ljust` keeps the string as a prefix and pads it with the fill character only |
| Strings.SplitJoin | present/markdown.py:79-80 | joining boundary-free rows with newlines and splitting the result again gives the rows back (when the last row is non-empty) |
| Strings.UnderlineSplits | present/markdown.py:39 | a non-empty text without line boundaries over a rule of dashes just as long splits back into exactly those two rows |
| BulletList.Walk | present/markdown.py:62-73 | the walk appends to the accumulator exactly the bullet lines of the node's children, depth first and in pre-order, and returns it |
| BulletList.DeeperIndents | present/markdown.py:68-71 | walking one level deeper gives the same number of lines, each indented by two more spaces |
| BulletList.ItemDeeperIndents | present/markdown.py:68-71 | the same for one item and its descendants |
| BulletList.LinesAreBullets | present/markdown.py:66-71 | every emitted line is `"  " * depth + "• " + text` for a depth at least the starting depth |
| BulletList.ItemLinesAreBullets | present/markdown.py:66-71 | the same for one item and its descendants |
| BulletList.FlatListLines | present/markdown.py:66-68 | a flat list whose items all carry text gives one top-level `"• " + text` line per item, in order |
| BulletList.LinesArePlain | present/markdown.py:68 | when no item text holds a line boundary, no emitted line does |
| BulletList.SizeIsRenderedLines | present/markdown.py:75-80 | `size` is the number of lines of `render` when no item text holds a line boundary |
| CodeBlock.MaxLength | present/markdown.py:91 | the longest line length bounds every line and is reached by one |
| CodeBlock.Rows | present/markdown.py:94-95 | one content row per line |
| CodeBlock.RowsAt | present/markdown.py:94-95 | the rows keep the order of the lines: row `i` is `" "` followed by line `i` justified to `max_len + 1` |
| CodeBlock.RowsAre | present/markdown.py:94-95 | the two comprehensions build exactly those rows: any sequence with the content row of each line, in order, is the row list |
| CodeBlock.Box | present/markdown.py:92-97 | the padded box has two rows more than the code |
| CodeBlock.BoxBorders | present/markdown.py:92-97 | the first and last rows of the box are `max_len + 2` spaces |
| CodeBlock.BoxRow | present/markdown.py:94-96 | row `i + 1` of the box is the content row of line `i` (the top border shifts the lines by one) |
| CodeBlock.BoxWidths | present/markdown.py:91-97 | every row of the box, borders included, is exactly `max_len + 2` wide |
| CodeBlock.Pad | present/markdown.py:88-99 | `pad` fails on text without lines (the `max` of nothing) and otherwise gives the box rows joined with newlines |
| CodeBlock.PaddedRowIsPlain | present/markdown.py:94-95 | a content row padded with spaces has no line boundary when the line has none |
| CodeBlock.BoxIsPlain | present/markdown.py:92-97 | no row of the box holds a line boundary |
| CodeBlock.RenderedRows | present/markdown.py:101-106 | `render` succeeds exactly when `size` > 0, and then it renders `size + 2` rows, which are the box rows |
| Codio.MaxLineWidth | present/markdown.py:123-139 | the running maximum bounds every line's candidate width and is 0 without lines |
| Codio.Width | present/markdown.py:118-141 | the width is at least 4, at least every line's candidate width plus 4 (a quarter of the terminal for a progress line), and exactly 4 without lines |
| Codio.WidthAttained | present/markdown.py:118-141 | with at least one line, the width is exactly some line's candidate width plus 4 |
| Codio.ComputeWidth | present/markdown.py:118-141 | the loop computes that width |
| Codio.PairedCount | present/markdown.py:147-151 | the number of lines with both input and output is at most the number of lines |
| Codio.CountRows | present/markdown.py:143-153 | the loop computes the footprint: lines, plus one per line with input and output, plus 2 |
| Codio.SizeCountsPairedLines | present/markdown.py:143-153 | the footprint is `len(lines) + 2 + #{i : line i has input and output}`, between `len(lines) + 2` and `2 * len(lines) + 2` |
| Codio.FrameOfLine | present/markdown.py:160-187 | a line yields no frame exactly when it is not a progress line and its prompt, input and output are empty; a progress line yields an unstyled bar of `progressChar` (default "█") `int(0.6 * width)` long; a line with only a prompt shows the prompt as output, with empty prompt and input; a line with input or output keeps prompt, input and output unchanged; every other frame carries the line's color, bold and underline |
| Codio.RenderFrames | present/markdown.py:155-191 | the loop builds the frame list line by line |
| Codio.FrameLinesOrdered | present/markdown.py:159-189 | the lines that yield a frame are listed in strictly increasing order, one per frame, so there are never more frames than lines |
| Codio.FramesFollowLines | present/markdown.py:159-189 | frame `k` is the frame of the `k`-th line that yields one: the frames keep the order of the lines |
| Codio.FrameLinesComplete | present/markdown.py:159-189 | every line that yields a frame is among those lines: no frame is skipped |
| Codio.FramesFit | present/markdown.py:133-187 | for a width covering every line, each styled frame's prompt, input and output fit the width minus the padding, and a one-character bar is no wider than the width |
| Codio.RenderedFramesFit | present/markdown.py:155-191 | every styled frame of `render` fits the width the script asks for |
| HtmlStyle.WordRun | present/markdown.py:222 | the greedy `\w+` at the start of the text: word characters up to the first non-word character |
| HtmlStyle.PairsOccur | present/markdown.py:222 | every pair found has a key and a value made of word characters, and `key=value` occurs in the text |
| HtmlStyle.LaterKeyWins | present/markdown.py:223 | the style holds exactly the keys of the pairs, each with the value of the last pair with that key |
| HtmlStyle.WordRunIs | present/markdown.py:222 | the greedy `\w+` is exactly `n` long when the first `n` characters are word characters and the next one is not |
| HtmlStyle.ScanToken | present/markdown.py:222 | scanning `key=value` followed by nothing or a non-word character finds that pair first and then continues after it |
| HtmlStyle.DirectiveStep | present/markdown.py:222 | scanning a directive finds its first pair and then the pairs of the rest |
| HtmlStyle.DirectiveRoundTrip | present/markdown.py:220-223 | a directive written from word pairs scans back to those pairs, so its style is their dictionary |
| HtmlStyle.SkipsNonWords | present/markdown.py:222 | text without word characters in front of the markup adds no match: the pairs found are those of the rest |
| HtmlStyle.DirectiveThen | present/markdown.py:222 | a directive followed by text without word characters scans to exactly the directive's pairs |
| HtmlStyle.DirectiveInMarkup | present/markdown.py:220-223 | a directive wrapped in markup without word characters (an html comment `<!-- fg=red -->`) gives exactly its pairs, and the style is their dictionary |
| Elements.RuledHeadingRows | present/markdown.py:27-39 | a level-2 heading with non-empty text without line boundaries renders as its text over a dash rule of the same length, which splits into 2 rows, its size |
| Elements.PlainHeadingRows | present/markdown.py:27-41 | a heading of level 3 or more with non-empty text without line boundaries renders as its text, 1 row, its size |
| Elements.TextAndHeadingValues | present/markdown.py:16-56 | for any text: a text renders unchanged with size 1; a level-1 heading renders the banner, sized by its lines; a level-2 heading renders its text over a dash rule as long, size 2; any other heading renders its text, size 1 |
| Elements.SizeDiffersFromRows | present/markdown.py:16-56 | size and rendered rows disagree for texts that are empty or hold a newline: `Text("")` renders 0 rows against size 1, an empty level-2 heading renders `"\n"` (1 row) against 2, `Text("a\nb")` renders 2 rows against 1 |
| Elements.SizeMatchesRender | present/markdown.py:16-226 | for elements with non-empty text without line boundaries: heading, text and list render on exactly `size` rows; a code block renders `size + 2` rows and fails exactly when it has no lines; a codio session plays fewer frames than its size; image and html do not render |
| Slides.SlideOf | present/markdown.py:229-231 | a built slide holds the given elements, in order |
| Slides.SlideOfRules | present/markdown.py:229-288 | the slide is built exactly when the style passes all checks; the checks run in order and the first that fails decides the error: an unknown effect, then an unknown `fg` (reported with its name), then an unknown `bg`, then an effect together with a colour, then an effect on a slide with code; each error occurs only when its condition holds; flags hold exactly when an element of that type exists; colours default to 0/7, follow the colour table, and an effect forces 7/0 |
| Slides.ScanElements | present/markdown.py:245-257 | the loop sets each flag exactly when an element of that type exists and keeps the style of the last html element |
| Slides.NewSlide | present/markdown.py:229-288 | the constructor's loop and checks compute that slide or error |
| Slides.HasTypeSnoc | present/markdown.py:245-257 | appending an element adds its type to the types present |
| Slides.StyleOfLastHtml | present/markdown.py:245-248 | the slide's style is empty without html elements, and otherwise is the style of an html element after which no html element follows |
| Markdown.Adapt | present/markdown.py:329-335 | an unsupported type is reported with the slide number given |
| Markdown.AdaptRules | present/markdown.py:329-337 | exactly headings, texts, lists, code blocks, html blocks and images whose file exists map to an element; the element's type is that of the class the node's type names (`block_code` gives "code", `block_html` "html"); a missing image fails with its path; any other failure is the node's type, unsupported on the given slide |
| Markdown.AdaptChild | present/markdown.py:316-328 | an unsupported child type is reported with the slide number given |
| Markdown.AdaptChildRules | present/markdown.py:316-328 | a paragraph child that is an image with alt "codio" becomes the codio session of the script at its path, or fails with that path when there is none; any other child is dispatched as a top-level node |
| Markdown.AdaptChildren | present/markdown.py:315-328 | all children map to one element each, or the parse fails with the slide number given |
| Markdown.NodeElements | present/markdown.py:314-337 | a paragraph adds one element per child, any other node adds one |
| Markdown.ChildrenFailEarly | present/markdown.py:315-328 | a failure among the first children stops the whole paragraph with that failure |
| Markdown.AppendChildren | present/markdown.py:315-328 | the loop over a paragraph's children appends the element of each child to the buffer, or stops with the first child's failure |
| Markdown.Parse | present/markdown.py:298-343 | the loop over the AST computes the deck of the source |
| Markdown.ChildrenIgnoreSlideNumber | present/markdown.py:315-328 | whether a paragraph's children map, and to what, does not depend on the slide number |
| Markdown.NodeIgnoresSlideNumber | present/markdown.py:314-337 | the same for any node |
| Markdown.FlattenSnoc | present/markdown.py:309 | appending a slide appends its elements |
| Markdown.ParseKeepsElements | present/markdown.py:304-341 | no element is duplicated or reordered: the slides' elements are a prefix of the elements of the document, and all of them when the tail is flushed |
| Markdown.ParseAppendsSlides | present/markdown.py:304-341 | slides are only appended, and every slide closed at a break is non-empty |
| Markdown.FlushedDeckKeepsElements | present/markdown.py:298-343 | with the tail flushed, the slides hold exactly the document's elements in order, and no slide is empty |
| Markdown.DeckKeepsElementOrder | present/markdown.py:298-343 | the source's slides hold a prefix of the document's elements |
| Markdown.FlushAgreesFrom | present/markdown.py:339-341 | from any point, a document ending with a node that adds elements parses the same with and without the tail flush |
| Markdown.DeckAgreesWhenLastIsContent | present/markdown.py:339-343 | the source's deck is the tail-flushing deck when the last node adds elements |
| Markdown.TrailingNewlineDropsLastSlide | present/markdown.py:339-341 | a paragraph followed by a newline node yields no slide, while flushing the tail yields one slide holding the paragraph's text |
| Markdown.EmptyLastParagraphFlushesEmptySlide | present/markdown.py:314-341 | a document that is one paragraph without children gives one slide with no elements, while the tail-flushing deck gives no slide |
| Markdown.TrailingBreakKeepsSlide | present/markdown.py:308-312 | a paragraph of one text followed by a final thematic break gives one slide holding that text |
| Markdown.ContentThenBreak | present/markdown.py:304-312 | a node with content followed by a thematic break gives exactly one slide, built from that node's elements |
| Markdown.NextBreak | present/markdown.py:308 | the first thematic break at or after a node, or the end of the document, with no break skipped |
| Markdown.TailStart | present/markdown.py:308-312 | where the nodes after the last thematic break start, right after a break, with no break after it |
| Markdown.PiecesOverNode | present/markdown.py:314-337 | a node other than a break adds its elements to the slide being gathered |
| Markdown.PiecesAtBreak | present/markdown.py:308-312 | a thematic break closes the elements gathered so far into one slide |
| Markdown.SlidesFollowBreaks | present/markdown.py:304-341 | with the tail flushed, slide `k` holds exactly the elements of the nodes between thematic break `k - 1` and break `k`, and a last slide holds what follows the last break when that is not empty |
| Markdown.SourceSlidesFollowBreaks | present/markdown.py:298-343 | the source's deck is cut the same way when the document ends with a node that has content |
| Markdown.PieceCount | present/markdown.py:308-341 | the document cuts into one piece per thematic break, plus one when content follows the last break |
| Markdown.DeckSlideCount | present/markdown.py:298-343 | the tail-flushing deck has one slide per thematic break, plus one when content follows the last break (two breaks and trailing content give 3 slides) |
| Markdown.UnsupportedSlideNumber | present/markdown.py:326-336 | bounds the slide number of an unsupported-type error: at least one more than the slides built so far, and at most that plus the thematic breaks still ahead (the exact value is `Markdown.UnsupportedNode`'s) |
| Markdown.UnsupportedNode | present/markdown.py:304-336 | an unsupported-type failure happens at a node the loop reaches without stopping and processes as content; that node's type, or for a paragraph one child's type, has no class, and the error carries exactly one more than the number of slides built before that node |
| Markdown.FailsOverNewline | present/markdown.py:305-306 | a failure after a newline node is the failure from the newline on |
| Markdown.FailsOverBreak | present/markdown.py:308-312 | a failure after a thematic break that closes a slide is the failure from the break on, the closed slide counted |
| Markdown.FailsOverNode | present/markdown.py:314-337 | a failure after a node that adds elements is the failure from that node on |
| Markdown.BreakOnEmptyBufferFails | present/markdown.py:308-336 | a thematic break meeting an empty buffer fails as unsupported on the next slide's number |
| Markdown.LeadingBreakFails | present/markdown.py:308-336 | a document starting (after newlines) with a thematic break fails on slide 1 |
| Markdown.DoubleBreakFails | present/markdown.py:308-336 | two thematic breaks with only newlines between them fail on the slide after the one the first break closes |
| Markdown.SkipNewlines | present/markdown.py:305-306 | over any run of newline nodes the loop keeps its slides and buffer: parsing from the start of the run is parsing from its end |

## Left out

- Level-1 headings are drawn with the pyfiglet banner font. The font is a function parameter (`Elements.Screen.banner`), and the size is the banner's line count; the font itself is not modelled.
- The markdown tokenizer (the vendored mistune) is not part of this model. The AST is the input, a `Markdown.Node` value.
- Reading and YAML-parsing codio scripts is replaced by a map from path to already-parsed `Codio.Script` (`Markdown.Files.scripts`). A missing path is `MissingAsset`; YAML syntax errors and scripts of the wrong shape are not modelled.
- `os.path.exists` for images is replaced by a set of existing paths (`Markdown.Files.images`).
- `shutil.get_terminal_size` is replaced by explicit `columns` and `rows` parameters.
- The `eval` dispatch on class names is a closed mapping over `Markdown.Node`; `Other(kind)` stands for every type without a class, and every `Other` is reported as unsupported. The model does not constrain `kind`. In the source, an `Other("newline")` would be skipped and an `Other("thematic_break")` would close a slide (or fail on an empty buffer, as `Markdown.BreakOnEmptyBufferFails` shows for `ThematicBreak`), by the parse loop itself (`present/markdown.py:305-312`). An `Other` whose kind names an element class ("text", "heading", ...), the kind "codio" (which title-cases to the class `Codio`), or a mixed-case kind such as "HEADING" that `str.title` maps onto a class would be built by that class. A type whose name happens to resolve to some other class (`Slide`, `Markdown`, `Figlet`) would raise a different error in the source. Inputs are meant to use the dedicated constructor for every such kind.
- The contents of `EFFECTS` and `COLORMAP` are not shown; they are the parameter `Slides.Registry`.
- Error messages are typed values (`Failures.Error`). `UnsupportedElement` carries the node's type string rather than the class name derived from it, and it carries the slide number.
- `Image.render`, `BlockHtml.size` and `BlockHtml.render` only raise `NotImplementedError`. They are the error `NotImplemented`.
- `re.findall` is modelled by a direct scanner for `\w+=\w+`, with `\w` restricted to ASCII letters, digits and underscore; Unicode word characters are left out.
- HtmlStyle.LaterKeyWins: stated for the dictionary built from the pairs; the regex engine's own semantics beyond this scanner are not modelled.
- Codio.FrameOfLine: the bar length `int(0.6 * width)` is modelled as the integer `(3 * width) / 5`; floating-point rounding for very large widths is not modelled.
- A truthy non-boolean `progress` value in a script is modelled as a boolean flag; other YAML values (numbers, strings) are not distinguished.
- `Codio.speed` is carried in the script but not used by the modelled operations.
- `Slide.__repr__` is not modelled.
- A heading whose first child carries no text fails in the source with a missing-key error; the model takes the heading's text directly.
- Elements.SizeMatchesRender: the rows-equal-size clause is stated for non-empty text without line boundaries only. `Elements.SizeDiffersFromRows` exhibits the other cases: an empty text renders no row against a size of 1, an empty level-2 heading renders one row against 2, and a text holding a newline renders more rows than its size.
- BulletList.SizeIsRenderedLines: needs item texts without line boundaries; an item text with an embedded newline makes `render` show more lines than `size`, and this is not stated.
- Markdown.DeckKeepsElementOrder: the source's own deck is only shown to keep a prefix of the elements; which elements it drops is stated by the comparison lemmas with the tail-flushing deck.

## Findings

| source | as written | input that shows it | evidently intended | confidence | as-written member | corrected member |
|---|---|---|---|---|---|---|
| present/markdown.py:339-341 | the buffer becomes the trailing slide only when the last AST node is processed as content; a last newline node skips that step, so a document ending in newline nodes drops the elements after its last thematic break (and a last node that adds nothing still flushes whatever is pending, which is an empty slide when nothing is pending, as for a one-paragraph document with no children or an empty paragraph straight after a closing break) | an AST that is a paragraph with one text child followed by a newline node (a document ending in a blank line) gives no slides at all | a non-empty buffer left at the end of the document becomes the last slide | medium, not executed | Markdown.TrailingNewlineDropsLastSlide | Markdown.FlushedDeckKeepsElements |
