# mdutils, modelled in Dafny

mdutils is a set of small tools for Markdown books built with mdBook:

- a library (`mdutil-lib`, and its tree-sitter variant `mdutils`) that finds
  the destination of every link in a Markdown text and rewrites the
  destinations a caller-supplied decision accepts;
- two mdBook preprocessors built on it: `mdbook-regexreplace`, which rewrites
  destinations with a table of `(regex, replacement)` rules, and
  `mdbook-replace`, which also has rules for local links resolved against the
  book root;
- `mdmove`, which moves files or directories inside a book and rewrites every
  relative link that points into what moved;
- `mdsummary`, which builds a book's `SUMMARY.md` from its directory tree;
- `mdbook-mathml`, which replaces every LaTeX formula with MathML.

The model keeps the tools' own algorithms and error paths. Parsers, the
regex engine, the LaTeX converter and the file system become function
parameters or plain values. Texts are sequences of Unicode scalar values, so
offsets count characters; they equal the source's byte offsets only for ASCII
text. Every failure of the modelled code is kept, apart from the I/O errors
listed under "## Left out", and the model tells the two kinds apart:

- `Panic` is an `unwrap`, an `expect`, a `panic!` or a slice out of order;
- `Error` is an `anyhow` error propagated with `?`.

Modules:

- `Base`: results, `Cow` and the string trimming of Rust's `str`.
- `Splice`: spans, edits, and what it means to splice replacements into a
  text.
- `MdastLinks` models `get_links` over the Markdown syntax tree: the three
  patterns from the CommonMark 0.30 sections on inline links, autolinks and
  link labels, and the pre-order walk.
- `Rewrite` models `replace_links`, the cursor loop that splices the
  accepted destinations.
- `Rules` models the rule-table rewrites.
- `TsLinks` models the tree-sitter variant, which sorts its captures.
- `Headings` models `get_title`.
- `Paths` models `normalize_path`.
- `MdMove` covers mdmove's move list, path mapping and per-file rewrite.
- `Summary` models mdsummary's directory walk and rendering.
- `Preprocess` covers the two preprocessors' configuration and runs.
- `MathMl` models mdbook-mathml, and `MathMlExample` holds its test.

## Model

| member | source | states |
|---|---|---|
| Base.TrimStartMatchesShape | mdutil-lib/src/headings.rs:15 | `trim_start_matches(c)` keeps a suffix, drops only `c`, and what is left does not start with `c` |
| Base.TrimEndMatchesShape | mdbook-mathml/src/main.rs:98-100 | `trim_end_matches(c)` keeps a prefix, drops only `c`, and what is left does not end with `c` |
| Base.TrimShape | mdutil-lib/src/headings.rs:16 | `trim` keeps a middle part, everything around it is whitespace, and the part has no whitespace at either end |
| Base.TrimIdempotent | mdutil-lib/src/headings.rs:16 | trimming twice gives the same text as trimming once |
| Base.IndexOf | mdmove/src/main.rs:180-183 | the first position of the character, with no earlier occurrence; `None` exactly when it does not occur |
| Base.LastIndexOf | mdmove/src/main.rs:157 | the last position of the character, with no later occurrence; `None` exactly when it does not occur |
| Splice.SplicedFinish | mdutil-lib/src/links.rs:80-82 | the text built so far, followed by the rest of the original after the cursor, is the original with every accepted edit applied |
| Splice.SplicedKeepsOutside | mdutil-lib/src/links.rs:69-85 | a splice leaves the text before the first edit and after the last edit unchanged |
| Splice.SplicedIdentity | mdutil-lib/src/links.rs:69-85 | edits that put back the text they cover leave the text unchanged |
| Splice.SplicedPrepend | mdbook-mathml/src/main.rs:108-111 | applying an edit to a text whose later edits are already applied gives the same text as applying all the edits to the original |
| Splice.ChainedSuffix | mdbook-mathml/src/main.rs:108-111 | the edits after any edit of an ordered list are still ordered, starting from that edit's end |
| MdastLinks.InlineLinkCapture | mdutil-lib/src/links.rs:14-15 | the inline-link pattern matches exactly a text that starts with `[`, ends with `)` and holds `](`; the capture ends just before the final `)` and starts after the last `](`, or after one `<` preceded only by whitespace |
| MdastLinks.AutolinkCapture | mdutil-lib/src/links.rs:16-17 | the autolink pattern matches exactly `<…>`, and the capture is everything between the angle brackets |
| MdastLinks.LinkLabelCapture | mdutil-lib/src/links.rs:18-19 | the link-label pattern matches exactly a text that starts with `[` and holds `]:`; the capture runs to the end and starts after the whitespace that follows the last `]:` |
| MdastLinks.NodeSpan | mdutil-lib/src/links.rs:21-35 | the destination of a link node lies inside the node's own range and inside the text; a node without a position, or a text no pattern matches, is a panic |
| MdastLinks.NodeSpanShape | mdutil-lib/src/links.rs:37-53 | an autolink's destination is its range without the angle brackets; an inline link's destination ends before its `)`; a definition's destination runs to its end |
| MdastLinks.NodeSpanUnmatched | mdutil-lib/src/links.rs:27-29 | when no pattern matches, the panic message quotes the link's text |
| MdastLinks.GetLinks | mdutil-lib/src/links.rs:12-61 | every destination found lies inside the text, and any failure is a panic |
| MdastLinks.SpansOfMeaning | mdutil-lib/src/links.rs:37-59 | the destinations of a list of link nodes are each node's destination, in order; on failure, the first node that fails gives the error |
| MdastLinks.SpansOfAppend | mdutil-lib/src/links.rs:55-59 | the destinations of two lists of nodes are the first list's destinations, then the second's |
| MdastLinks.GetLinksIsPreorder | mdutil-lib/src/links.rs:12-61 | `get_links` visits the link and definition nodes of the tree in pre-order: a node before its children, the children left to right |
| MdastLinks.ExampleLinks | mdutil-lib/src/links.rs:112-124 | in the test's input, the destinations are `bar.md`, `https://bbc.co.uk` and `./foo.md`, in that order |
| MdastLinks.ChapterLinks | mdbook-replace/src/preprocessor.rs:127-183 | in the preprocessor test's chapter, the destinations are those of its inline link and its autolink |
| Rewrite.Run | mdutil-lib/src/links.rs:69-79 | the loop's accepted edits are ordered, each one ends before the next starts, and all lie inside the text |
| Rewrite.SpliceDecisions | mdutil-lib/src/links.rs:69-85 | the cursor loop computes what the spliced-edit specification says |
| Rewrite.RunStep | mdutil-lib/src/links.rs:70-78 | one more destination: an error stops the loop, a decline keeps the edits, an accept appends an edit, and an accept before the cursor is the slice panic |
| Rewrite.RunKeepsFault | mdutil-lib/src/links.rs:72 | once the loop has failed, later destinations do not change the failure |
| Rewrite.BorrowedIffAllDeclined | mdutil-lib/src/links.rs:80-85 | the text comes back borrowed exactly when the decision declines every destination |
| Rewrite.AcceptedFromSpans | mdutil-lib/src/links.rs:72-77 | every accepted edit is a destination that the decision accepted, with the decision's text |
| Rewrite.AscendingRewrite | mdutil-lib/src/links.rs:63-86 | when the destinations come in ascending order and the decision answers every one, the result is the original text with exactly the accepted edits applied, or borrowed when there are none |
| Rewrite.FirstErrorAborts | mdutil-lib/src/links.rs:72 | the first destination the decision fails on makes the whole rewrite fail with that error |
| Rewrite.AscendingErrorIsDecision | mdutil-lib/src/links.rs:63 | with ascending destinations, the rewrite errs only with an error of the decision itself |
| Rewrite.RunErrorSource | mdutil-lib/src/links.rs:72-75 | any failure of the loop is either a decision's error or the slice panic |
| Rewrite.AcceptedAll | mdutil-lib/src/links.rs:72-77 | a decision that accepts every destination with the same text accepts each destination, in order |
| Rewrite.ReplaceLinks | mdutil-lib/src/links.rs:63-86 | `replace_links` is `get_links` followed by the splice loop |
| Rewrite.ReplacedBorrowedIff | mdutil-lib/src/links.rs:80-85 | the text is borrowed exactly when locating succeeds and every destination is declined |
| Rules.FirstReplacement | mdutil-lib/src/links.rs:93-101 | there is no replacement exactly when no rule matches |
| Rules.FirstReplacementAt | mdutil-lib/src/links.rs:94-98 | the first rule, in table order, that rewrites decides the result |
| Rules.FirstRewrite | mdbook-regexreplace/src/md_utils.rs:71-82 | the inner loop stops at the first rule that rewrites and returns that rewrite |
| Rules.RegexReplaceLinks | mdutil-lib/src/links.rs:88-104 | the result is the generic rewrite with the first-match decision, and it can fail only by panicking |
| Rules.RuleSpliceOnlyPanics | mdutil-lib/src/links.rs:102-103 | with a rule table, the only error of the splice is the slice panic |
| Rules.ReplaceLinksWithRules | mdbook-regexreplace/src/md_utils.rs:64-90 | the nested-loop version computes the same result as the generic rewrite with the first-match decision |
| Rules.SpliceRules | mdbook-regexreplace/src/md_utils.rs:69-89 | the span loop with the rule loop inside computes the spliced-edit specification |
| Rules.ExampleCatchAll | mdutil-lib/src/links.rs:112-124 | when `.*` rewrites each of the test's three destinations to `https://hugom.uk`, those three, and only they, are replaced |
| TsLinks.CaptureSpan | mdutils/src/links.rs:37-50 | a destination capture is kept as it is; an autolink capture loses its two angle brackets |
| TsLinks.TsGetLinks | mdutils/src/links.rs:8-52 | the captures of the block tree come first, then those of the inline tree, each mapped to its destination |
| TsLinks.AutolinkAgrees | mdutils/src/links.rs:44-49 | stripping an autolink capture gives the same destination as the autolink pattern of the syntax-tree variant |
| TsLinks.TsLinksIn | mdutils/src/links.rs:8-52 | every destination lies inside the text |
| TsLinks.SortSpec | mdutils/src/links.rs:61 | sorting by start gives a sorted permutation of the destinations |
| TsLinks.SortNonOverlapping | mdutils/src/links.rs:61 | sorting keeps destinations that do not overlap apart |
| TsLinks.SortAscending | mdutils/src/links.rs:61 | non-empty destinations that do not overlap are in ascending order once sorted (tree-sitter never captures an empty destination) |
| TsLinks.InsertStable | mdutils/src/links.rs:61 | inserting a span puts it before every span with the same start and keeps their order |
| TsLinks.SortStable | mdutils/src/links.rs:61 | the sort is stable: destinations with the same start keep their order, as with `sort_by_key` |
| TsLinks.PermutedDeclined | mdutils/src/links.rs:61 | reordering the destinations does not change whether every one is declined |
| TsLinks.TsReplaceLinks | mdutils/src/links.rs:54-78 | `replace_links` sorts the destinations, then runs the splice loop on them |
| TsLinks.TsBorrowedIff | mdutils/src/links.rs:72-77 | the text comes back borrowed exactly when every destination is declined |
| TsLinks.TsRewriteAccepted | mdutils/src/links.rs:54-78 | with non-empty, non-overlapping destinations (as tree-sitter reports them), the result is the text with exactly the accepted edits applied, and any error is a decision's own |
| TsLinks.TsRegexReplaceLinks | mdutils/src/links.rs:80-92 | the rule-table rewrite of this variant can only fail with the slice panic |
| TsLinks.TsRegexNeverFails | mdutils/src/links.rs:88-91 | with non-empty, non-overlapping destinations (as tree-sitter reports them) the rule-table rewrite never fails, so its `unwrap` is safe |
| TsLinks.ExampleTsLinks | mdutils/src/links.rs:99-109 | in the test's input, the definition comes first and sorting puts the three destinations in text order |
| TsLinks.ExampleTsCatchAll | mdutils/src/links.rs:99-109 | when `.*` rewrites each of the test's three destinations to `https://hugom.uk`, the output is the test's expected text |
| Headings.TitleIn | mdutil-lib/src/headings.rs:6-20 | finding the title fails only by panicking |
| Headings.NoTitleIff | mdutil-lib/src/headings.rs:6-21 | there is no title exactly when no top-level child is a positioned level-1 heading |
| Headings.FirstTitleWins | mdutil-lib/src/headings.rs:7-18 | the first top-level level-1 heading gives the title, and a range outside the text panics |
| Headings.TitleShape | mdutil-lib/src/headings.rs:13-16 | the title is the heading's text without its leading `#`s and the whitespace around the rest |
| Headings.NestedHeadingIgnored | mdutil-lib/src/headings.rs:6-7 | for every tree: when no direct child of the root is a level-1 heading there is no title, whatever headings lie deeper |
| Headings.NestedExampleIgnored | mdutil-lib/src/headings.rs:6-7 | a level-1 heading one level down is not a title |
| Headings.SimpleTitle | mdutil-lib/src/headings.rs:5-22 | `# Hello  ` has the title `Hello` |
| Paths.NormalizePath | mdmove/src/main.rs:228-253 | the component loop computes the normal form of the path |
| Paths.NormalHasNoDots | mdmove/src/main.rs:237-251 | a normal path has no `.` and no `..` |
| Paths.NormalizeIsNormal | mdmove/src/main.rs:228-253 | every path normalizes to a normal path |
| Paths.NormalFixed | mdmove/src/main.rs:228-253 | a normal path is its own normal form |
| Paths.NormalizeIdempotent | mdmove/src/main.rs:228-253 | normalizing twice is normalizing once |
| Paths.NormalizeKeepsHead | mdmove/src/main.rs:229-242 | an absolute path stays absolute and keeps its prefix |
| Paths.ParentOfRoot | mdmove/src/main.rs:244-246 | `..` right after the root is dropped |
| Paths.NamesKept | mdmove/src/main.rs:243-249 | without `..`, normalizing keeps every name, in order |
| MdMove.Join | mdmove/src/main.rs:24 | joining onto an absolute path gives that path; otherwise the components are appended |
| MdMove.PathAfterMoveSpec | mdmove/src/main.rs:20-30 | there is no new place exactly when no source is a prefix of the path; otherwise some entry whose source is a prefix maps it |
| MdMove.PathAfterMoveFirst | mdmove/src/main.rs:21-28 | the first entry, in table order, whose source is a prefix decides the new place |
| MdMove.GetPathAfterMove | mdmove/src/main.rs:20-30 | the loop computes the table-order lookup, and the new path is normal |
| MdMove.Parent | mdmove/src/main.rs:165-166 | a parent is the path without its last component; there is none exactly when the path is empty or ends at a root or prefix |
| MdMove.Extension | mdmove/src/main.rs:156-161 | the extension is what follows the last `.` of the file name, when that dot does not start it; there is none when there is no file name or no `.` after its first character |
| MdMove.SplitFragment | mdmove/src/main.rs:180-183 | the link splits at its first `#` into a path and a fragment; with no `#` it is all path |
| MdMove.LinkTarget | mdmove/src/main.rs:186-213 | a web link has no new target; a new target is given only for a path that exists; failures are the two `unwrap` panics |
| MdMove.Decide | mdmove/src/main.rs:171-219 | `replacement` fails only by a panic, and rewrites only a link with a non-empty path whose target it finds |
| MdMove.FragmentOnlyKept | mdmove/src/main.rs:184-186 | an empty path, such as a fragment-only link, is left alone |
| MdMove.WebLinkKept | mdmove/src/main.rs:191 | an `http` or `https` link is left alone |
| MdMove.MissingTargetKept | mdmove/src/main.rs:196-203 | a link to a path that does not exist is left alone |
| MdMove.FragmentReattached | mdmove/src/main.rs:214-218 | a rewritten link keeps its fragment after the new path |
| MdMove.RelativeLinkFollowsFile | mdmove/src/main.rs:174-212 | for a file in an absolute directory whose new directory is normal, a relative link is resolved against the file's old directory and mapped through the moves; it is rewritten as the `diff_paths` result, which leads from the file's new directory to that place |
| MdMove.RootLinkStaysRooted | mdmove/src/main.rs:192-213 | a link from the book root stays rooted, and it points at the target's place after the moves |
| MdMove.ChangeOf | mdmove/src/main.rs:221-223 | a file is listed for change exactly when its rewrite is not borrowed, and the change goes to its new path |
| MdMove.ChangeFile | mdmove/src/main.rs:154-225 | the method computes the per-file change specification |
| MdMove.FileChangeIff | mdmove/src/main.rs:154-225 | a non-Markdown file never changes; a Markdown file changes exactly when some link is rewritten, and its change goes to its path after the moves |
| MdMove.MovesIntoSpec | mdmove/src/main.rs:118-133 | every source is in the move list, each maps to the destination joined with its file name, and nothing else is listed |
| MdMove.GetMoveList | mdmove/src/main.rs:100-134 | a single canonical source maps into an existing destination, or to the destination itself when it does not exist; a failed canonicalisation is passed on and a missing file name panics; several sources need a directory (`Target … not a directory`) and are then moved into it by `MovesInto` |
| Summary.ExtensionDot | mdsummary/src/main.rs:60 | the extension dot is a `.` that is neither the first character nor followed by another `.`; there is none when no `.` follows the first character |
| Summary.FileStem | mdsummary/src/main.rs:120 | the file stem followed by `.` and the extension is the file name; with no extension, the stem is the whole name |
| Summary.TitleFromFile | mdsummary/src/main.rs:114-125 | the title of a Markdown file fails only by a panic |
| Summary.TitleFromStem | mdsummary/src/main.rs:117-123 | a file without a top-level level-1 heading is titled by its file stem |
| Summary.TitleFromHeading | mdsummary/src/main.rs:117-118 | otherwise the first top-level level-1 heading gives the title, without its `#`s and surrounding whitespace |
| Summary.AddChild | mdsummary/src/main.rs:41-43 | adding a child makes the list present, keeps the earlier children in order and puts the child last |
| Summary.FromDir | mdsummary/src/main.rs:26-51 | the entry loop computes the directory-node specification |
| Summary.FromEntry | mdsummary/src/main.rs:53-70 | a directory gives a node, a Markdown file other than `SUMMARY.md` gives a leaf, anything else gives nothing |
| Summary.FoldAfterIndex | mdsummary/src/main.rs:33-36 | once an index is found, the loop succeeds only if no other index follows, and the title and the index path stay |
| Summary.FoldOneIndex | mdsummary/src/main.rs:34-36 | a successful walk met at most one index |
| Summary.DirNodeIndex | mdsummary/src/main.rs:26-51 | without an index the node has no path and the directory's name as its title; with one, its path and title are the index file's |
| Summary.FoldNoChildren | mdsummary/src/main.rs:29-44 | the child list stays absent while no entry yields a node |
| Summary.FoldChildren | mdsummary/src/main.rs:29-44 | the loop appends to the child list exactly the nodes of the non-index entries, in entry order |
| Summary.DirNodeChildren | mdsummary/src/main.rs:26-51 | a directory node's children are the nodes of its non-index entries, in entry order; with none, there is no child list |
| Summary.FoldKeepsChildren | mdsummary/src/main.rs:40-44 | once present, the child list keeps every child in order |
| Summary.SummaryFromDir | mdsummary/src/main.rs:95-103 | the loop computes the top-level node specification |
| Summary.SummaryFoldKeeps | mdsummary/src/main.rs:97-101 | the nodes already collected stay first, and each entry adds at most one node |
| Summary.SummaryFoldOrder | mdsummary/src/main.rs:97-101 | the loop appends exactly the nodes the entries yield, in entry order |
| Summary.SummaryNodesOrder | mdsummary/src/main.rs:95-103 | the summary's top-level nodes are those the root's entries yield, in entry order |
| Summary.Indent | mdsummary/src/main.rs:80 | the indent is two spaces per level |
| Summary.RenderNode | mdsummary/src/main.rs:72-89 | `render_to_md` appends the node's rendering to the output |
| Summary.RenderChildren | mdsummary/src/main.rs:84-86 | the child loop appends each child's rendering one level deeper, in order |
| Summary.RenderedLines | mdsummary/src/main.rs:72-89 | the rendering has one line per node, plus one empty line per child list |
| Summary.RenderedListLines | mdsummary/src/main.rs:107-109 | a list of nodes renders to as many line ends as nodes and child lists together |
| Summary.RenderSummary | mdsummary/src/main.rs:105-111 | the summary is the header followed by each top-level node's rendering |
| Preprocess.ElementRule | mdbook-regexreplace/src/preprocessor.rs:38-48 | a rule comes from a table whose `regex` and `replacement` are strings, and its pattern compiles |
| Preprocess.GetReplacements | mdbook-regexreplace/src/preprocessor.rs:18-50 | the loop computes the configuration's rule list |
| Preprocess.RulesFoldOk | mdbook-regexreplace/src/preprocessor.rs:38-49 | the loop succeeds exactly when every element is a valid rule, and then gives one rule per element, in order |
| Preprocess.RulesFoldError | mdbook-regexreplace/src/preprocessor.rs:38-48 | a failing loop reports the first invalid element's error |
| Preprocess.ReplacementsMeaning | mdbook-regexreplace/src/preprocessor.rs:23-50 | a missing key gives no rules; a value that is not an array is the "expects array of tables" error; an array gives its rules or its first error |
| Preprocess.ForEachListShape | mdbook-regexreplace/src/preprocessor.rs:74 | updating every item, chapter by chapter, keeps the book's structure when each update changes only content |
| Preprocess.UpdateContent | mdbook-regexreplace/src/preprocessor.rs:70-72 | a chapter is updated only in its content: a borrowed rewrite keeps it, an owned rewrite becomes the content, and a failed rewrite is a panic |
| Preprocess.ReplaceFnOutcome | mdbook-replace/src/preprocessor.rs:77-104 | the decision errs exactly when making a local link relative fails; a local rule that rewrites wins; otherwise the first global rule decides; a link is kept only when no applicable rule rewrites |
| Preprocess.ReplaceChapter | mdbook-replace/src/preprocessor.rs:67-112 | items that are not chapters are kept; a chapter's content becomes the rewrite of its links by `replace_fn`, and a failed rewrite is a panic |
| Preprocess.ReplaceFn | mdbook-replace/src/preprocessor.rs:77-104 | the decision errs, with the `relative_to` error, exactly when making a local link relative fails; for a URL or a chapter without a path only the global rules decide |
| Preprocess.ReplaceChapterFailure | mdbook-replace/src/preprocessor.rs:106-111 | a chapter fails only by the `unwrap` panic on a failed `relative_to`, or by the rewrite's own panic |
| Preprocess.RunReplace | mdbook-replace/src/preprocessor.rs:59-116 | the run computes the preprocessor's specification |
| Preprocess.ReplaceRunShape | mdbook-replace/src/preprocessor.rs:59-116 | with no configuration the book is unchanged; a successful run keeps the book's structure; once both rule tables are read, a failing run is a panic |
| Preprocess.RunRegexReplace | mdbook-regexreplace/src/preprocessor.rs:58-77 | the run computes the preprocessor's specification |
| Preprocess.RegexChapter | mdbook-regexreplace/src/preprocessor.rs:64-73 | items that are not chapters are kept; a chapter's content becomes the rule-table rewrite of its links |
| Preprocess.RegexChapterOnlyPanics | mdbook-regexreplace/src/preprocessor.rs:64-73 | a chapter fails only with the rewrite's own panic |
| Preprocess.RegexReplaceRunShape | mdbook-regexreplace/src/preprocessor.rs:58-77 | with no configuration the book is unchanged; a successful run keeps the book's structure; once the rule table is read, a failing run is a panic |
| Preprocess.ReplaceTest | mdbook-replace/src/preprocessor.rs:127-183 | when `.*` rewrites both destinations of the test chapter to `https://hugom.uk`, the catch-all configuration gives the expected book |
| Preprocess.RegexReplaceTest | mdbook-regexreplace/src/preprocessor.rs:88-144 | when `.*` rewrites both destinations of the test chapter to `https://hugom.uk`, the catch-all configuration gives the expected book |
| MathMl.SnippetShape | mdbook-mathml/src/main.rs:98-100 | the formula is the event's text without the `$` signs at either end, and it neither starts nor ends with `$` |
| MathMl.Collect | mdbook-mathml/src/main.rs:91-103 | the collect loop fails only with a propagated error |
| MathMl.MathEvents | mdbook-mathml/src/main.rs:92-97 | only inline and display math events are converted, each inside the text |
| MathMl.EditsOfMeaning | mdbook-mathml/src/main.rs:98-102 | each math event becomes one replacement of its range by its MathML, in order |
| MathMl.CollectMeaning | mdbook-mathml/src/main.rs:91-103 | collecting succeeds exactly when every formula converts, and then gives one replacement per formula, in order |
| MathMl.ConvertingMeaning | mdbook-mathml/src/main.rs:101 | the formulas before the first failing one all convert |
| MathMl.CollectError | mdbook-mathml/src/main.rs:101 | a failing collect reports the error of the first formula that does not convert |
| MathMl.CollectChained | mdbook-mathml/src/main.rs:91-103 | the collected replacements are ordered and lie inside the text |
| MathMl.ReplaceLatex | mdbook-mathml/src/main.rs:85-113 | the function computes its specification |
| MathMl.CollectLatex | mdbook-mathml/src/main.rs:91-103 | the loop computes the collect specification |
| MathMl.SpliceBackwards | mdbook-mathml/src/main.rs:108-111 | applying the replacements from last to first gives the original with all of them applied |
| MathMl.BorrowedIffNoMath | mdbook-mathml/src/main.rs:104-106 | a successful result is borrowed exactly when the text holds no math |
| MathMl.ConversionErrorAborts | mdbook-mathml/src/main.rs:101 | the function fails exactly when some formula does not convert, and then with the first such formula's error |
| MathMl.ReplacedLatexMeaning | mdbook-mathml/src/main.rs:85-113 | when every formula converts and there is one, the result is the text with each formula replaced by its MathML |
| MathMl.MathChapter | mdbook-mathml/src/main.rs:66-78 | items that are not chapters are kept; a chapter's content becomes its LaTeX-to-MathML rewrite, and a conversion error becomes a panic |
| MathMl.MathRunShape | mdbook-mathml/src/main.rs:66-78 | a successful run keeps the book's structure; a failing run is a panic |
| MathMlExample.ExampleEventsChained | mdbook-mathml/src/main.rs:120-144 | the test's events are ordered and lie inside the text |
| MathMlExample.ExampleMathEvents | mdbook-mathml/src/main.rs:120-144 | the test text holds three formulas: one inline, two display |
| MathMlExample.MathTest | mdbook-mathml/src/main.rs:120-144 | with the converter's three MathML outputs, the test text becomes the expected text |

## Left out

- The Markdown parsers are not part of this model: markdown-rs's `to_mdast`, tree-sitter-md and pulldown-cmark's event stream. Their outputs are inputs of the model: a syntax tree, lists of captures, and a list of events with ranges.
- What the parsers guarantee is stated as preconditions. Ranges lie inside the text: `AllInText` in `TsLinks`. Math events come in order: `MathChained` in `MathMl`. The tree-sitter captures are non-empty (`AllNonEmpty`) and do not overlap, conditions of `SortAscending`, `TsRewriteAccepted` and `TsRegexNeverFails`.
- TsRewriteAccepted: holds only for non-empty destinations; an empty capture at the start of another would be sorted before or after it by input order, which tree-sitter-md never produces.
- TsRegexNeverFails: holds only for non-empty, non-overlapping destinations, as tree-sitter-md reports them.
- The regex engine is a `Replacer` parameter. `Regex::new` is a `Compiler` parameter that returns an error text or nothing.
- latex2mathml is a `Converter` parameter.
- Several functions from other crates are parameters: `url::Url::parse`, `relative_path`'s `relative_to` and `normalize`, `pathdiff::diff_paths`, `canonicalize`, and `Path::components`. `RelativeLinkFollowsFile` assumes one property of `diff_paths`, as `DiffPathsInverts`: between two paths in normal form, its result joined to the base and normalised gives the path back. It does not hold for paths that still contain `.` or `..`, and the lemma does not need it there.
- The file system is a value. A directory is a list of entries with their contents, and mdmove's world is a set of functions.
- Symbolic links are left out, so mdsummary's `resolve_links` is not part of this model.
- I/O errors other than those the model names are left out. The model names mdsummary's error for an index that is a directory.
- Offsets are character offsets, not UTF-8 byte offsets. For text with multi-byte characters, the ranges the parsers report and the slice panics on a byte that is not a character boundary are not modelled.
- mdsummary's `file_stem` cannot fail on UTF-8, because text here is already characters.
- mdmove's `get_change_list` walk and the writing of files are not part of this model. Neither are the `main` functions, the command-line parsing, or mdBook's JSON protocol.
- Printing and warnings are left out.
- Panic messages are kept as reasons, but not always with the source's exact wording.
- mdBook's `for_each_mut` updates the book in place. The model works on book values and returns the new book.
- mdmove's `MoveList` is a `HashMap` whose iteration order is unspecified. The model is a list searched in order, so the first entry whose source is a prefix wins.
- The tree-sitter variant sorts with the standard library's stable `sort_by_key`. The model sorts by insertion by start, which is stable too (`SortStable`), so the two give the same order.
- Join: follows Unix path semantics, where a tail with a root replaces the whole base; on Windows a rooted tail without a prefix would keep the base's drive prefix.
- `Summary.RenderChildren` is the child loop of `render_to_md`, written as its own method.
- `MathMl.CollectLatex` and `MathMl.SpliceBackwards` are the two loops of `replace_latex`, written as their own methods.
- mdbook-replace's comment says `replace_fn` always returns `Ok`, but a failing `relative_to` makes it err, and the `unwrap` then panics. `Preprocess.ReplaceChapterFailure` states this outcome.
