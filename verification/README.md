# A Dafny model of the blog's core logic

The blog (ja3nyc/john-blog) is mostly page components and content-loading glue.
This project models the parts of it that are real logic, as pure functions over
immutable data, and proves properties about them:

- **Code diff** (`LineDiff`, `DiffAnimation`, `CodeDiffView`). The `CodeDiff`
  component has these parts:
  - a greedy two-cursor line matcher with a three-line lookahead;
  - one animation step per removed or added line;
  - a before/animating/after state machine, driven by the Play, Reset and Final
    buttons and by animation frames (one step per 200 ms);
  - the projection from animation state to the displayed lines.
- **Highlighter bookkeeping** (`SyntaxHighlight`). `highlightCode` splits the
  source text and the highlighter's output into lines and zips them.
  `getLanguageDisplayName` looks up a language name, ignoring case.
- **Posts** (`Posts`). From `markdown.server.ts`:
  - the post index, newest first;
  - slug lookup, where `.mdx` wins over `.md`;
  - the sorted set of all tags.
- **Tag filter** (`TagFilter`). From the blog index page:
  - the OR filter;
  - the tag toggle and "clear filters";
  - the summary sentence;
  - which of "post list", "No posts found" and "Coming Soon" the list area shows.
- **Metric table** (`MetricTable`): the sort column and direction, the row
  comparator, and the header arrows.
- **File tree** (`FileTree`): the `├── `/`└── ` connector prefixes built
  recursively, the status badges, the file icons chosen by extension, and the
  expand/collapse toggle.
- **Reading time** (`ReadingTime`): the word count and the "n min read" label.
- **Site URL** (`SiteUrl`): the site URL, with the environment passed in, and
  absolute URLs built from it.
- **Sandbox embed** (`Sandbox`): the query parameters of the StackBlitz and
  CodeSandbox embed URLs, the StackBlitz SDK options, and the provider,
  loading and error state.

Some modules hold helpers shared by the others:

- `Wrappers`: `Option`.
- `Text`: JavaScript's `split` and `join` on one character, ASCII case mapping,
  string `<` as lexicographic order on UTF-16 code units, and decimal
  rendering.
- `Sorting`: sorting by a comparator. The result is proved to be a permutation
  of the input, and ordered under a strict weak order.

External inputs are parameters:

- A directory is its listing of file names with parsed front matter.
- The highlighter is its output string, or `None` when it throws.
- The environment variables are optional strings.
- Whether the code runs in a browser, and the page origin there, form a
  `Runtime` or `Environment` value.
- Animation frames arrive as a sequence of timestamps, in fractional
  milliseconds (`real`).

## Model

| member | source | states |
|---|---|---|
| LineDiff.ScanAhead | apps/blog/src/components/mdx/CodeDiff.tsx:52-84 | the scan finds the first offset 1..3 where the target line occurs, stopping at the end of the list; it finds nothing only when no offset in the window matches |
| LineDiff.NextMove | apps/blog/src/components/mdx/CodeDiff.tsx:22-101 | one loop iteration keeps both cursors in bounds and advances at least one of them, so the loop terminates |
| LineDiff.ComputeDiff | apps/blog/src/components/mdx/CodeDiff.tsx:17-104 | the removed and unchanged entries, in order, carrying their before numbers, are exactly the before lines numbered 1..n; likewise the added and unchanged entries for the after lines |
| LineDiff.Reconstruction | apps/blog/src/components/mdx/CodeDiff.tsx:17-104 | the contents of the removed+unchanged entries are the before lines, and those of the added+unchanged entries are the after lines |
| LineDiff.LineNumbersExact | apps/blog/src/components/mdx/CodeDiff.tsx:26-99 | the before numbers of the before-side entries are exactly 1..\|before\| in order, and the after numbers likewise |
| LineDiff.EntriesMatchInputs | apps/blog/src/components/mdx/CodeDiff.tsx:26-99 | every entry's line number points into its input, and the line there is the entry's content |
| LineDiff.ComputeDiffConsecutive | apps/blog/src/components/mdx/CodeDiff.tsx:26-99 | each entry's number is one more than the count of same-side entries before it |
| LineDiff.IdenticalInputsAllUnchanged | apps/blog/src/components/mdx/CodeDiff.tsx:40-48 | identical inputs give only unchanged entries, line i numbered i on both sides |
| LineDiff.EmptyBeforeAllAdded | apps/blog/src/components/mdx/CodeDiff.tsx:26-32 | an empty before gives only added entries, one per after line |
| LineDiff.EmptyAfterAllRemoved | apps/blog/src/components/mdx/CodeDiff.tsx:33-39 | an empty after gives only removed entries, one per before line |
| LineDiff.LookaheadBeforeFirst | apps/blog/src/components/mdx/CodeDiff.tsx:54-67 | on a mismatch, the before-side scan is tried first; a hit at offset k removes the k lines in between (1 to 3 lines, all removals) and leaves the after cursor in place |
| LineDiff.LookaheadAfterSecond | apps/blog/src/components/mdx/CodeDiff.tsx:69-84 | only when the before-side scan finds nothing, a hit at offset k on the after side adds the k lines in between (1 to 3, all additions) |
| LineDiff.LookaheadSubstitution | apps/blog/src/components/mdx/CodeDiff.tsx:86-99 | when neither scan matches, exactly one removed and then one added entry are emitted, and both cursors advance by one |
| LineDiff.ScanLoop | apps/blog/src/components/mdx/CodeDiff.tsx:54-67 | the bounded for-loop with `break` finds what the scan specification says |
| LineDiff.EmitRemoved | apps/blog/src/components/mdx/CodeDiff.tsx:56-62 | the inner loop emits the removed run, numbered from the cursor |
| LineDiff.EmitAdded | apps/blog/src/components/mdx/CodeDiff.tsx:72-78 | the inner loop emits the added run, numbered from the cursor |
| LineDiff.Iterate | apps/blog/src/components/mdx/CodeDiff.tsx:23-100 | the loop body as statements computes the same step as the functional definition |
| LineDiff.ComputeDiffLoop | apps/blog/src/components/mdx/CodeDiff.tsx:17-104 | the while loop computes the diff, and both inputs can be rebuilt from its result |
| LineDiff.ExampleSubstitution | apps/blog/src/components/mdx/CodeDiff.tsx:86-99 | a b c against a x c gives one removed/added pair between two unchanged lines |
| LineDiff.ExampleDeletion | apps/blog/src/components/mdx/CodeDiff.tsx:54-67 | a deleted line is found by the lookahead, and the later lines keep their numbers on both sides |
| DiffAnimation.BuildSteps | apps/blog/src/components/mdx/CodeDiff.tsx:124-133 | there is one step per removed/added entry, in diff order, with step indices 0,1,2,… and kind matching the entry |
| DiffAnimation.StepIndexInjective | apps/blog/src/components/mdx/CodeDiff.tsx:124-133 | a later change entry always has a larger step index |
| DiffAnimation.Press | apps/blog/src/components/mdx/CodeDiff.tsx:174-196 | Play starts animating at step 0 (and is a no-op while animating, the button being disabled); Reset gives before, step 0; Final gives after, step 0 |
| DiffAnimation.Tick | apps/blog/src/components/mdx/CodeDiff.tsx:136-158 | after 200 ms the step advances by one, or the state becomes after/0 if that would reach the step count; before 200 ms, phase and step are unchanged; frames outside the animation change nothing |
| DiffAnimation.ControlsKeepValid | apps/blog/src/components/mdx/CodeDiff.tsx:148-156 | buttons and frames keep the step a valid index while animating, and 0 otherwise |
| DiffAnimation.ResetIdempotent | apps/blog/src/components/mdx/CodeDiff.tsx:180-196 | Reset twice is Reset once; Final gives the after phase at step 0 |
| DiffAnimation.FramesPrefix | apps/blog/src/components/mdx/CodeDiff.tsx:136-172 | with frames at least 200 ms apart, frame m after Play shows step m, and the frame after the last step ends in the after phase |
| DiffAnimation.PlayVisitsEveryStep | apps/blog/src/components/mdx/CodeDiff.tsx:136-172 | Play then steady frames pass through every step in order and end in the after phase |
| DiffAnimation.WalkMatchesReference | apps/blog/src/components/mdx/CodeDiff.tsx:220-274 | the animating walk with its running line counters equals the entry-by-entry reference: unchanged lines normal; a removed line omitted iff its step < current and removing iff = current; an added line shown iff its step ≤ current and adding iff = current |
| DiffAnimation.ReferenceHidden | apps/blog/src/components/mdx/CodeDiff.tsx:247-271 | an entry hidden at the current step contributes no display line |
| DiffAnimation.ReferenceShown | apps/blog/src/components/mdx/CodeDiff.tsx:236-271 | an entry shown at the current step contributes one line, with its content and its status |
| DiffAnimation.OneMarkedLinePerStep | apps/blog/src/components/mdx/CodeDiff.tsx:232-272 | at most one displayed line is removing/adding, and exactly one while the step is below the step count |
| DiffAnimation.AnimationEndpoints | apps/blog/src/components/mdx/CodeDiff.tsx:220-274 | at step 0 the lines not being added read as the before text; at the step count the display reads as the after text |
| CodeDiffView.Diff | apps/blog/src/components/mdx/CodeDiff.tsx:119-121 | the corrected diff rebuilds exactly the listing lines of both texts |
| CodeDiffView.DiffFitsListings | apps/blog/src/components/mdx/CodeDiff.tsx:119-121 | the corrected diff is consecutively numbered, every number points into its listing, and the texts agree |
| CodeDiffView.DisplayIsTotal | apps/blog/src/components/mdx/CodeDiff.tsx:199-275 | the corrected display never reads outside a listing; while animating it is the reference display, with at most one marked line, and exactly one before the end |
| CodeDiffView.ListingTexts | apps/blog/src/components/mdx/CodeDiff.tsx:200-218 | the before and after states list their texts' lines in order, numbered from 1, each with its own highlighting and status normal |
| CodeDiffView.AnimationConnectsListings | apps/blog/src/components/mdx/CodeDiff.tsx:174-275 | the display goes from the before text (initial, and Play's first frame without additions) to the after text (last step, and Final) |
| CodeDiffView.WalkAtStartReadsBeforeSide | apps/blog/src/components/mdx/CodeDiff.tsx:232-258 | at step 0 a successful walk reads one listing line per before-side entry |
| CodeDiffView.PlayFailsOnTrailingNewline | apps/blog/src/components/mdx/CodeDiff.tsx:119-121 | as written, Play fails for a before text that is empty or ends in a newline |
| CodeDiffView.TrailingNewlineExample | apps/blog/src/components/mdx/CodeDiff.tsx:119-121 | "a\n" against "a\n" displays at first, but fails once Play is pressed |
| CodeDiffView.AsWrittenAgreesWithoutTrailingNewline | apps/blog/src/components/mdx/CodeDiff.tsx:119-121 | for non-empty texts without a trailing newline, as written and corrected agree in every state |
| SyntaxHighlight.SourceLines | apps/blog/src/lib/syntax-highlight.ts:60-65 | no line contains a newline |
| SyntaxHighlight.SourceLinesRoundTrip | apps/blog/src/lib/syntax-highlight.ts:60-65 | joining the lines with newlines gives back the text, plus the one dropped empty line when the text is empty or ends in a newline |
| SyntaxHighlight.LastPartEmptyMeansNewline | apps/blog/src/lib/syntax-highlight.ts:60-65 | the last part of the split is empty iff the text is empty or ends in a newline |
| SyntaxHighlight.SourceLinesExamples | apps/blog/src/lib/syntax-highlight.ts:60-65 | "" has no lines, "a\n" one, "a\nb" two |
| SyntaxHighlight.HighlightCode | apps/blog/src/lib/syntax-highlight.ts:87-91 | one entry per source line whatever the highlighter returned; entry i is numbered i+1 and carries raw line i |
| SyntaxHighlight.HighlightedFallback | apps/blog/src/lib/syntax-highlight.ts:80-91 | the highlighted form is the highlighter's line i, or the raw line when that line is missing or empty; a highlighter that returns the code unchanged leaves every line as written |
| SyntaxHighlight.HighlightFailureIsPlain | apps/blog/src/lib/syntax-highlight.ts:69-91 | when highlighting throws, every highlighted form is the raw line |
| SyntaxHighlight.LanguageDisplayNameIgnoresCase | apps/blog/src/lib/syntax-highlight.ts:94-123 | names equal up to ASCII case get the same display name |
| SyntaxHighlight.UnknownLanguageUpperCased | apps/blog/src/lib/syntax-highlight.ts:122 | a name outside the table is shown upper-cased |
| SyntaxHighlight.JavaScriptAliases | apps/blog/src/lib/syntax-highlight.ts:96-98 | js, jsx, javascript and JSX all display as JavaScript |
| SyntaxHighlight.ShellAliases | apps/blog/src/lib/syntax-highlight.ts:112-113 | sh and shell display as Shell |
| Text.Split | apps/blog/src/lib/syntax-highlight.ts:60 | `split` on one character always gives at least one part, and no part contains the separator |
| Text.JoinSplit | apps/blog/src/lib/syntax-highlight.ts:60 | joining the parts of a split with the separator gives back the text |
| Text.SplitJoin | apps/blog/src/lib/syntax-highlight.ts:60 | splitting parts that are free of the separator, once joined, gives back the parts |
| Text.NatToStringRoundTrip | apps/blog/src/utils/reading-time.ts:22 | the decimal rendering of a number reads back as that number |
| Text.CodeUnitsInjective | apps/blog/src/utils/markdown.server.ts:164 | two strings with the same UTF-16 code units are the same string |
| Text.LexLessExamples | apps/blog/src/utils/markdown.server.ts:164 | strings compare by UTF-16 code unit: U+1F680 comes before U+FF46, a proper prefix comes first, and `Z` comes before `a` |
| Text.LexLessTransitive | apps/blog/src/utils/markdown.server.ts:82 | string `<` is transitive |
| Text.LexLessTotal | apps/blog/src/utils/markdown.server.ts:82 | of two different strings, one is `<` the other |
| Sorting.Sort | apps/blog/src/components/mdx/MetricTable.tsx:29 | the sorted copy is a permutation of the input |
| Sorting.SortSorted | apps/blog/src/utils/markdown.server.ts:81-87 | under a strict weak order, no element of the result goes strictly before an earlier one |
| Sorting.SortKeepsDistinct | apps/blog/src/utils/markdown.server.ts:164 | sorting a duplicate-free list gives a duplicate-free list |
| Sorting.SortOfSorted | apps/blog/src/utils/markdown.server.ts:164 | an already ordered input comes back unchanged |
| Sorting.SortStable | apps/blog/src/components/mdx/MetricTable.tsx:29-45 | under a strict weak order the sort is stable: the elements tied with any given element come out in their input order |
| Sorting.InsertTies | apps/blog/src/components/mdx/MetricTable.tsx:29 | inserting into a sorted list puts the element after every element it is tied with |
| Posts.Summary | apps/blog/src/utils/markdown.server.ts:48-77 | the slug plus the directory's extension is the file name, and the type is that of the directory |
| Posts.CollectMembers | apps/blog/src/utils/markdown.server.ts:44-78 | the collected summaries are exactly those of the listing's files that have the extension, and there are as many as such files |
| Posts.CollectCount | apps/blog/src/utils/markdown.server.ts:47-50 | from any position on, one summary is collected per file with the extension |
| Posts.AllPosts | apps/blog/src/utils/markdown.server.ts:81-87 | the sorted index is a permutation of the collected summaries |
| Posts.AllPostsNewestFirst | apps/blog/src/utils/markdown.server.ts:81-87 | the index is non-increasing by date string |
| Posts.AllPostsListsEveryFile | apps/blog/src/utils/markdown.server.ts:44-78 | a post is listed iff it summarizes a .md file of the blog directory or a .mdx file of the MDX directory; the index has one entry per such file |
| Posts.MissingDirectoriesGiveNoPosts | apps/blog/src/utils/markdown.server.ts:44-45 | a missing directory contributes no posts |
| Posts.SummaryTags | apps/blog/src/utils/markdown.server.ts:54-76 | missing front-matter tags become the empty list; given tags are kept |
| Posts.Find | apps/blog/src/utils/markdown.server.ts:96-103 | the file found has the name; nothing is found iff no file has it |
| Posts.PostBySlugPrecedence | apps/blog/src/utils/markdown.server.ts:95-106 | `<slug>.mdx` wins, `<slug>.md` is used only without it, and with neither the result is null; the found post has the slug |
| Posts.PostBySlugIsListed | apps/blog/src/utils/markdown.server.ts:90-152 | a post found by slug is in the index (slugs being plain file names, see Left out) |
| Posts.ListedPostsAreFound | apps/blog/src/utils/markdown.server.ts:90-106 | with unique file names, an indexed MDX post is found by its slug, and an indexed .md post is found iff no .mdx file shadows it |
| Posts.AllTagsMembers | apps/blog/src/utils/markdown.server.ts:156-162 | the gathered tags are exactly the tags of some post |
| Posts.Dedup | apps/blog/src/utils/markdown.server.ts:156-162 | the tag set has no repeats and the same members as its input |
| Posts.UniqueTagsMembers | apps/blog/src/utils/markdown.server.ts:154-165 | a tag is in the result iff some post carries it |
| Posts.UniqueTagsAscending | apps/blog/src/utils/markdown.server.ts:164 | the result is strictly ascending in `sort()`'s order (by UTF-16 code unit), so every tag appears exactly once |
| TagFilter.FilterPostsSpec | apps/blog/src/routes/blog.index.tsx:47-54 | an empty selection returns all posts; otherwise a post is kept iff it has a selected tag; the result is an order-preserving subsequence |
| TagFilter.SelectingMoreShowsMore | apps/blog/src/routes/blog.index.tsx:51-53 | growing a non-empty selection never hides a shown post |
| TagFilter.RemoveSpec | apps/blog/src/routes/blog.index.tsx:60 | removing a tag drops exactly that tag, and keeps a duplicate-free selection duplicate-free |
| TagFilter.RemoveConcat | apps/blog/src/routes/blog.index.tsx:60 | removal works piece by piece and keeps the order of the remaining tags |
| TagFilter.ToggleSpec | apps/blog/src/routes/blog.index.tsx:56-65 | a click flips whether the tag is selected, leaves the other tags alone, and preserves duplicate-freedom; an unselected tag goes at the end |
| TagFilter.ToggleTwiceRestores | apps/blog/src/routes/blog.index.tsx:56-65 | clicking an unselected tag twice restores the selection |
| TagFilter.ClearShowsAll | apps/blog/src/routes/blog.index.tsx:67-69 | after clearing, every post is shown |
| TagFilter.SpansFromPhrase | apps/blog/src/routes/blog.index.tsx:118-122 | the per-tag separators (", " between, " or " before the last, nothing after it) build the English list |
| TagFilter.SummaryLineReads | apps/blog/src/routes/blog.index.tsx:116-123 | the summary appears iff tags are selected, and reads "Showing n post(s) tagged with" the list |
| TagFilter.SummaryLineExamples | apps/blog/src/routes/blog.index.tsx:120 | one, two and three tags are listed as "a"; "a" or "b"; "a", "b" or "c" |
| TagFilter.ListAreaCases | apps/blog/src/routes/blog.index.tsx:129-205 | "Coming Soon" appears iff the index is empty and nothing is selected; "No posts found" only under a selection no post matches |
| MetricTable.HandleSort | apps/blog/src/components/mdx/MetricTable.tsx:20-27 | the clicked column becomes the sort column |
| MetricTable.HandleSortSpec | apps/blog/src/components/mdx/MetricTable.tsx:20-27 | the current column flips direction and another starts ascending; two clicks on the current column restore the state |
| MetricTable.CompareSpec | apps/blog/src/components/mdx/MetricTable.tsx:29-45 | numbers compare by value, other cells by lower-cased text; descending is ascending negated; the comparator is antisymmetric and returns 0 iff the text keys are equal |
| MetricTable.GoesBeforeIsStrictWeakOrder | apps/blog/src/components/mdx/MetricTable.tsx:29-45 | the comparator is a consistent (strict weak) order for every column and direction |
| MetricTable.SortedRows | apps/blog/src/components/mdx/MetricTable.tsx:29 | the sorted rows are a permutation of the data; the data itself is not reordered |
| MetricTable.SortedRowsStable | apps/blog/src/components/mdx/MetricTable.tsx:29-45 | rows the comparator calls equal (it returns 0) keep their order from the data, as `Array.prototype.sort` is stable |
| MetricTable.SortedRowsOrdered | apps/blog/src/components/mdx/MetricTable.tsx:29-45 | numeric columns come out non-decreasing (asc) or non-increasing (desc); text columns are ordered by lower-cased value |
| MetricTable.SortIconSpec | apps/blog/src/components/mdx/MetricTable.tsx:47-50 | only the sort column shows an arrow: ↑ for ascending, ↓ for descending; other columns show ↕️ |
| FileTree.StatusIconsDistinct | apps/blog/src/components/mdx/FileTree.tsx:37-44 | added, modified and deleted show +, ~ and -, one distinct character each |
| FileTree.Extension | apps/blog/src/components/mdx/FileTree.tsx:51 | the extension contains no dot |
| FileTree.ExtensionSpec | apps/blog/src/components/mdx/FileTree.tsx:51 | the extension is the lower-cased text after the last dot, or the whole lower-cased name when there is no dot |
| FileTree.SplitLastPart | apps/blog/src/components/mdx/FileTree.tsx:51 | a name with a dot splits into at least two parts, and the last part is what follows the last dot |
| FileTree.FileIconByExtension | apps/blog/src/components/mdx/FileTree.tsx:46-102 | a file gets the script glyph iff its extension is js, jsx, ts or tsx in any case; every other file gets the plain glyph |
| FileTree.FileIconExample | apps/blog/src/components/mdx/FileTree.tsx:56-58 | App.TSX gets the script glyph |
| FileTree.Rows | apps/blog/src/components/mdx/FileTree.tsx:113-158 | every node draws at least its own row |
| FileTree.RowsIndent | apps/blog/src/components/mdx/FileTree.tsx:104-105 | every row below the root has a prefix of exactly 4·depth characters; the root has none; a node's connector is └── if it is last and ├── otherwise, after the inherited prefix |
| FileTree.ChildRowsIndent | apps/blog/src/components/mdx/FileTree.tsx:146-157 | the same indentation holds for every row of a list of children |
| FileTree.ChildRowsHead | apps/blog/src/components/mdx/FileTree.tsx:148-155 | each child's own row opens its part of the list, and only the final child is drawn as last |
| FileTree.DescendantsContinueGuide | apps/blog/src/components/mdx/FileTree.tsx:105 | the rows below a node extend its prefix by four spaces if it is last, and by │ and three spaces otherwise |
| FileTree.RowsExtend | apps/blog/src/components/mdx/FileTree.tsx:104-105 | every row of a subtree starts with the prefix its root inherited |
| FileTree.ChildRowsExtend | apps/blog/src/components/mdx/FileTree.tsx:146-157 | every row of a list of children starts with the prefix they inherited |
| FileTree.FullyExpandedRowCount | apps/blog/src/components/mdx/FileTree.tsx:146-157 | with nothing collapsed, the tree draws one row per node |
| FileTree.CollapsedShowsOneRow | apps/blog/src/components/mdx/FileTree.tsx:146 | a collapsed node draws only its own row, with the collapsed arrow and aria-expanded false |
| FileTree.HandleToggleSpec | apps/blog/src/components/mdx/FileTree.tsx:107-111 | a toggle flips expansion only for a directory with children; a collapse resets every node below it to expanded; no other node changes |
| FileTree.ToggleTwice | apps/blog/src/components/mdx/FileTree.tsx:107-111 | two toggles restore the state when nothing below was collapsed; otherwise the nodes below come back expanded |
| FileTree.ToggleKeepsAllMounted | apps/blog/src/components/mdx/FileTree.tsx:146-158 | clicking a visible node keeps every collapsed node on screen |
| FileTree.ReopenedSubtreeIsExpanded | apps/blog/src/components/mdx/FileTree.tsx:26 | collapsing src, then the root, then opening the root shows all three rows again |
| ReadingTime.StripFormatting | apps/blog/src/utils/reading-time.ts:8 | no #, *, _ or ~ is left |
| ReadingTime.StripFormattingKeepsText | apps/blog/src/utils/reading-time.ts:8 | exactly the formatting characters are deleted; a text without them is unchanged |
| ReadingTime.StripFormattingIdempotent | apps/blog/src/utils/reading-time.ts:8 | stripping twice is stripping once |
| ReadingTime.Trim | apps/blog/src/utils/reading-time.ts:9 | the result neither starts nor ends with whitespace |
| ReadingTime.Words | apps/blog/src/utils/reading-time.ts:11 | every word is a non-empty run of non-whitespace |
| ReadingTime.WordsSplitAtSpace | apps/blog/src/utils/reading-time.ts:11 | a whitespace character separates words: the words of x, whitespace, y are those of x followed by those of y |
| ReadingTime.WordsOfUnwords | apps/blog/src/utils/reading-time.ts:11 | cutting words joined by spaces gives the words back |
| ReadingTime.WordsIgnoreTrim | apps/blog/src/utils/reading-time.ts:9-11 | trimming does not change the words |
| ReadingTime.Minutes | apps/blog/src/utils/reading-time.ts:16 | the minutes are the ceiling of words/225: 225·(m−1) < w ≤ 225·m, and 0 exactly for 0 words |
| ReadingTime.MinutesMonotone | apps/blog/src/utils/reading-time.ts:16 | more words never give fewer minutes |
| ReadingTime.MinutesUnique | apps/blog/src/utils/reading-time.ts:16 | the ceiling is the only count that fits its bounds |
| ReadingTime.MinutesExamples | apps/blog/src/utils/reading-time.ts:16 | 0 words give 0 minutes, 1 and 225 words give 1, 226 words give 2 |
| ReadingTime.LabelReadsBack | apps/blog/src/utils/reading-time.ts:18-22 | the "1 min read" special case equals the general format, and the count reads back from the label |
| ReadingTime.ReadingTimeSpec | apps/blog/src/utils/reading-time.ts:3-22 | the label is "⌈w/225⌉ min read" for the number w of words left after the formatting characters go |
| ReadingTime.NoWordsReadsInZero | apps/blog/src/utils/reading-time.ts:11-22 | a text without words reads "0 min read" |
| ReadingTime.ReadingTimeExamples | apps/blog/src/utils/reading-time.ts:8-22 | an empty text, and one holding only formatting, read "0 min read" |
| ReadingTime.EmphasisExample | apps/blog/src/utils/reading-time.ts:8-11 | "#a \*b\*" counts the words a and b |
| ReadingTime.LoneMarkExample | apps/blog/src/utils/reading-time.ts:8-11 | a lone ~ between two words is not a word |
| SiteUrl.GetSiteUrl | src/utils/url.ts:3-11 | on the server the site URL is never empty |
| SiteUrl.ServerSiteUrlPrecedence | src/utils/url.ts:10 | SITE_URL wins when non-empty, then VITE_SITE_URL, then http://localhost:3000; an empty variable counts as unset |
| SiteUrl.RootedPath | src/utils/url.ts:15 | the path comes out starting with /, either as given or with one / in front |
| SiteUrl.AbsoluteUrl | src/utils/url.ts:13-16 | the URL is the site URL followed by a string beginning with / |
| SiteUrl.GetAbsoluteUrl | src/utils/url.ts:13-16 | the absolute URL starts with the environment's site URL |
| SiteUrl.AbsoluteUrlJoin | src/utils/url.ts:15 | a path starting with / is appended unchanged; another gets exactly one / inserted; the path reads back |
| SiteUrl.RelativeAndRootedAgree | src/utils/url.ts:15 | a path without a leading / and the same path with one give the same URL |
| SiteUrl.RootedPathIdempotent | src/utils/url.ts:15 | rooting a path twice adds nothing |
| SiteUrl.AbsoluteUrlExamples | src/utils/url.ts:13-16 | "x" and "/x" both give site + "/x"; with no variables set, the local address is used |
| Sandbox.WithDefaultsSpec | apps/blog/src/components/mdx/Sandbox.tsx:38-45 | given props are kept; absent ones become dark, preview and stackblitz |
| Sandbox.StackBlitzViewSpec | apps/blog/src/components/mdx/Sandbox.tsx:160 | split becomes both for StackBlitz; other views pass through |
| Sandbox.BuildSandboxUrl | apps/blog/src/components/mdx/Sandbox.tsx:151-181 | the URL names the repository |
| Sandbox.LookupDistinct | apps/blog/src/components/mdx/Sandbox.tsx:154-178 | with no repeated key, each parameter is found under its key |
| Sandbox.StackBlitzUrlSpec | apps/blog/src/components/mdx/Sandbox.tsx:153-166 | distinct keys; the view is renamed; devtools are hidden iff the view is preview; the file is given or the default list; the origin is present iff running in a browser |
| Sandbox.CodeSandboxUrlSpec | apps/blog/src/components/mdx/Sandbox.tsx:168-179 | every provider other than stackblitz, auto included, builds the same CodeSandbox URL: raw view, devtools hidden iff preview, the file or /src/App.js, no origin |
| Sandbox.CodeSandboxParamsSpec | apps/blog/src/components/mdx/Sandbox.tsx:170-178 | the CodeSandbox parameters carry the view, devtools flag, module and theme under distinct keys |
| Sandbox.StackBlitzOptions | apps/blog/src/components/mdx/Sandbox.tsx:100-108 | the SDK options always hide navigation, force the embed layout and load without a click |
| Sandbox.StackBlitzOptionsSpec | apps/blog/src/components/mdx/Sandbox.tsx:100-108 | a given file is opened as a one-element list and none is named otherwise; the SDK is asked for the same view, theme and devtools setting as the StackBlitz URL carries |
| Sandbox.Initial | apps/blog/src/components/mdx/Sandbox.tsx:46-48 | the component mounts on the requested provider, loading |
| Sandbox.HandleIframeError | apps/blog/src/components/mdx/Sandbox.tsx:193-203 | after an error, either loading continues or the error is shown |
| Sandbox.HandleIframeErrorSpec | apps/blog/src/components/mdx/Sandbox.tsx:193-203 | stackblitz requested as auto falls back to codesandbox with loading on and no error; otherwise loading stops and the error is shown; the fallback happens at most once; an error from the drawn iframe is never recovered |
| Sandbox.RetryClearsError | apps/blog/src/components/mdx/Sandbox.tsx:193-224 | switch and refresh both set loading and clear the error; refresh keeps the provider and is idempotent; after an error without fallback, refresh gives what it gave before |
| Sandbox.EmbedSettled | apps/blog/src/components/mdx/Sandbox.tsx:110-121 | once the SDK call settles, the loading overlay is gone and the provider is unchanged |
| Sandbox.HandleIframeLoadAsWritten | apps/blog/src/components/mdx/Sandbox.tsx:186-191 | a load event never changes the provider |
| Sandbox.AutoLoadKeepsOverlay | apps/blog/src/components/mdx/Sandbox.tsx:186-191 | with provider auto the iframe is drawn from the start, yet its load leaves the loading overlay up |
| Sandbox.HandleIframeLoadSpec | apps/blog/src/components/mdx/Sandbox.tsx:186-191 | corrected: loading the drawn iframe removes the overlay and any error; the SDK container ignores it; it agrees with the code whenever the provider is not auto |

## Left out

- Rendering is not modelled: JSX, CSS classes, hooks and effect wiring in every component and route. Only the values that rendering reads are modelled.
- Scheduling of animation frames (`requestAnimationFrame`, `cancelAnimationFrame`) is not modelled. Frames are an explicit timestamp sequence fed to `Tick`. With zero steps the source requests no further frame and stays in the animating phase; `Tick` would move such a state to after on its first late frame. That difference is a scheduling artefact.
- SyntaxHighlight.LanguageDisplayName: only the table's own entries are looked up. The source indexes a plain object, so the inherited names `constructor` and `__proto__` give `Object` members there, where the model shows them upper-cased.
- Case mapping is ASCII only (`Text.ToLower`, `Text.ToUpper`). `toLowerCase` and `toUpperCase` map all of Unicode, so `SyntaxHighlight.LanguageDisplayName`, `MetricTable.TextKey` and `FileTree.Extension` differ from the source on non-ASCII letters (U+212A, the Kelvin sign, lower-cases to `k`; `ñ` upper-cases to `Ñ`).
- Strings cannot hold lone surrogates. JavaScript strings can, but the compared strings (dates, tags, table cells) come from parsed text.
- highlight.js is not modelled. Its output is a parameter, and `None` stands for "it threw". The coercion of a React node to a string is left out too.
- I/O in the post index is not modelled: `fs`, gray-matter, remark and MDX serialization. A directory is its listing with parsed front matter. A post's rendered body (`content`, `mdxSource`) is not modelled, and neither is the `catch` that turns processing errors into `null`.
- Posts.NewerFirst: dates are compared as strings. gray-matter may parse an unquoted YAML date into a `Date` object, whose comparison is not modelled.
- Posts.PostBySlug: slugs are taken as plain file names. The source builds the path with `path.join` and asks `fs.existsSync`, so a slug such as `../blog/x` can reach a file outside the directory's listing; the model looks the name up in the listing only.
- Posts.AllPosts: the order of posts with equal dates is not stated. The comparator never returns 0, so that order is left to the engine. The model keeps listing order.
- MetricTable.SortedRows: numbers are `int` rather than JavaScript doubles (no NaN, no fractions).
- The "unit" cell's rendering and the table layout are not modelled.
- Only these parts of the post list are modelled: which list area shows, and the summary sentence. The per-post tag chips (the first two tags and "+N more") and the relative dates are not.
- `getStatusColor` in the file tree only picks CSS classes, so it is not modelled. The keyboard handler calls the same toggle as a click. The per-node `useState` expansion is modelled as a set of collapsed paths. Every node starts expanded, and collapsing a directory drops the state of every node below it, as unmounting does. React keys children by name and position, the model by position; the two agree while the `tree` prop stays the same.
- The regular-expression cleanups in reading-time are not modelled: HTML tags, code fences, inline code, and links replaced by their text. `ReadingTime.ReadingTime` takes the text those steps leave behind.
- `window` detection and `process.env` are parameters: `SiteUrl.Environment` and `Sandbox.Runtime`.
- The following sandbox machinery is not modelled:
  - loading the SDK script and the `sdkLoaded` effect;
  - the 15-second timeout;
  - percent-encoding by `URLSearchParams`;
  - clearing the container DOM;
  - the `height` prop.

  Embed URLs are kept as base, repository and ordered key/value pairs. `file` is typed as a string, so the `Array.isArray(file)` branch never applies and is not modelled.

## Findings

| source | as written | input that shows it | evidently intended | confidence | as-written member | corrected member |
|---|---|---|---|---|---|---|
| apps/blog/src/components/mdx/CodeDiff.tsx:119-121 | The diff is computed over `before.split('\n')`, but the display indexes `highlightCode`'s lines, which drop one trailing empty line. For an empty text, or one ending in a newline, the animating walk reads a listing line that does not exist, and the `.content` access throws. | before = after = "a\n", then press Play | compute the diff over the same lines the listings hold, so that every line number the walk reads exists | not executed | CodeDiffView.PlayFailsOnTrailingNewline | CodeDiffView.DisplayIsTotal |
| apps/blog/src/components/mdx/Sandbox.tsx:186-191 | `handleIframeLoad` clears the loading flag only when the current provider is literally `'codesandbox'`. With `provider="auto"` the current provider starts as `'auto'` and the CodeSandbox iframe is drawn, but its load leaves "Loading sandbox..." over it. The 15-second timeout runs only for StackBlitz, so nothing ever clears the overlay. | provider = auto; the iframe fires `load` | any provider drawn as the iframe stops loading when it loads | not executed | Sandbox.AutoLoadKeepsOverlay | Sandbox.HandleIframeLoadSpec |
