# strip-html, modelled in Dafny

strip-html is a command-line filter that reduces an HTML document to its
skeleton. It parses the text into a DOM tree and drops every `<script>` and
`<style>` element with everything inside it. It empties the attribute map of
every other element and serialises the tree again. Unless whitespace is to be
kept, it then runs three regex replacements over the serialised string.

This project models the two parts of `src/index.ts` that hold logic:

- **The tree cleaner** (`stripAndClean`). It is a recursive `filter` over a
  list of sibling nodes. `Dom.Node` has one variant per node kind of the DOM
  handler: `Document`, the element kinds `Tag`, `Script` and `Style`, `CData`,
  `Text`, `Comment` and `Directive`. `TreeCleaner.Clean` drops script and style
  siblings. `TreeCleaner.CleanNode` empties a tag's attributes and cleans the
  children of every node that has a `children` field.
- **The whitespace normaliser** (the `replace` chain in `processHtml`). Each
  replacement is a left-to-right, greedy, non-overlapping scan over a string:
  `CollapseRuns` for `/\s{2,}/g → ' '`, `StripTagGaps` for `/>\s+</g → '><'` and
  `DropNewlines` for `/\n/g → ''`. `Whitespace.IsWs` lists the code points of
  the ECMAScript `\s` class.

`StripHtml.ProcessHtml` wires the two together, as `processHtml` does. It
cleans the children of the parsed root, not the root itself. It serialises the
tree, then normalises the string unless `keepWhitespace` is set. The parser and
the serialiser are external libraries. They are function-valued parameters, so
every property of `ProcessHtml` holds whatever they do.

What is proved:

- After cleaning, no script or style node is left at any depth, and every tag
  at any depth has an empty attribute map.
- The cleaned siblings are exactly the input siblings that are neither script
  nor style. They keep their input order, and there are as many of them as
  such siblings.
- In document order, the cleaned tree is the input tree with the script and
  style subtrees cut out: the same tag names, the same texts and comments, in
  the same order. This is a subsequence of the input's document order.
- Text, comment and directive nodes come out unchanged. Only `attribs` and
  `children` are rewritten.
- A forest is a fixed point of the cleaner exactly when it is already
  stripped, so cleaning twice is the same as cleaning once.
- With `keepWhitespace` the string is unchanged. Without it, the result has no
  line feed, no two adjacent whitespace characters, and no `>` followed by
  whitespace and then `<`.
- In every case the result is the input with some whitespace characters
  deleted and some replaced by a space (`WsEdit`). Every other character is
  kept, in order, and the string never grows. The second and third
  replacements only delete whitespace characters (`WsDelete`): every character
  they keep is kept as it was.
- Each replacement does exactly what its regex does, stated step by step for
  every position of the scan. A non-whitespace character is copied. A maximal
  run of two or more whitespace characters becomes one space, and a lone one
  is kept. A `>`,
  a whitespace run and a `<` become `><`. Exactly the line feeds are deleted.
  A string the replacements have nothing to match in is left as it is, and
  the three together leave a string unchanged exactly when it has no line
  feed, no adjacent whitespace and no tag gap.

The DOM handler gives Document, element and CDATA nodes a `children` field.
The code tests `'children' in node` (src/index.ts:18), so CDATA children are
cleaned too.

## Model

| member | source | states |
|---|---|---|
| `TreeCleaner.Clean` | src/index.ts:9-24 | the cleaned sibling list is never longer than the input |
| `TreeCleaner.CleanNode` | src/index.ts:14-22 | a surviving node keeps its kind, name and text; a tag's attributes become empty; a node with children gets exactly its cleaned children (`Clean` of its own children, so sibling order and nesting are pinned at every depth); a node without children is returned unchanged |
| `TreeCleaner.CleanIsStripped` | src/index.ts:11-20 | after cleaning, no script or style node is left and no tag has attributes, at any depth |
| `TreeCleaner.CleanNodeIsStripped` | src/index.ts:14-20 | a cleaned surviving node is stripped throughout its subtree |
| `TreeCleaner.StrippedIsUnchanged` | src/index.ts:9-24 | a forest with no script, style or attribute anywhere is returned unchanged |
| `TreeCleaner.StrippedNodeIsUnchanged` | src/index.ts:14-20 | a stripped node is returned unchanged |
| `TreeCleaner.CleanFixedPoints` | src/index.ts:9-24 | `Clean(ns) == ns` exactly when `ns` is stripped at every depth |
| `TreeCleaner.CleanIdempotent` | src/index.ts:9-24 | cleaning twice gives the same result as cleaning once |
| `TreeCleaner.CleanAppend` | src/index.ts:10-23 | the cleaner is a filter: cleaning a concatenation cleans each part |
| `TreeCleaner.Survivors` | src/index.ts:10-13 | the positions of the non-script, non-style siblings, strictly increasing, covering every such sibling |
| `TreeCleaner.CleanKeepsSurvivorsInOrder` | src/index.ts:10-22 | the j-th cleaned sibling is the cleaned j-th surviving input sibling, and nothing else is in the result |
| `TreeCleaner.CleanLast` | src/index.ts:10-23 | cleaning a list is cleaning all but its last node, then that node |
| `TreeCleaner.CleanCount` | src/index.ts:10-13 | the result has as many nodes as the input has siblings that are neither script nor style (none for an empty input) |
| `TreeCleaner.CleanOutline` | src/index.ts:9-24 | in document order the cleaned forest lists the same tags, texts and comments as the input with script and style subtrees removed |
| `TreeCleaner.VisibleOutlineIsSubsequence` | src/index.ts:10-20 | the input's document order with script and style subtrees cut out is a subsequence of the full document order |
| `TreeCleaner.CleanKeepsDocumentOrder` | src/index.ts:9-24 | the cleaned forest, in document order, is an order-preserving subsequence of the input |
| `Whitespace.CollapseRuns` | src/index.ts:35 | collapsing never lengthens the string, empties only the empty string, and keeps whether the first character is whitespace |
| `Whitespace.CollapseRunsNoAdjacentWs` | src/index.ts:35 | after collapsing, no two adjacent characters are both whitespace |
| `Whitespace.CollapseRunsKeepsText` | src/index.ts:35 | collapsing keeps every non-whitespace character, in order |
| `Whitespace.CollapseRunsWsEdit` | src/index.ts:35 | collapsing only deletes whitespace characters or replaces them with a space |
| `Whitespace.CollapseRunsRun` | src/index.ts:35 | a maximal whitespace run becomes a single space when it has two or more characters and is kept as it is when it has one; the scan then carries on after the run |
| `Whitespace.CollapseRunsText` | src/index.ts:35 | a non-whitespace character is copied and the scan carries on after it, so with `CollapseRunsRun` every step of the scan is stated |
| `Whitespace.CollapseRunsNoWsPrefix` | src/index.ts:35 | a prefix without whitespace is copied unchanged, wherever the string goes on |
| `Whitespace.CollapseRunsFixed` | src/index.ts:35 | a string with no two adjacent whitespace characters is left unchanged |
| `Whitespace.StripTagGaps` | src/index.ts:36 | stripping never lengthens the string and keeps its first character |
| `Whitespace.StripTagGapsNoTagGap` | src/index.ts:36 | after stripping, no `>` is followed by one or more whitespace characters and then `<` |
| `Whitespace.StripTagGapsKeepsNoAdjacentWs` | src/index.ts:35-36 | stripping cannot make two whitespace characters adjacent |
| `Whitespace.StripTagGapsKeepsText` | src/index.ts:36 | stripping keeps every non-whitespace character, in order |
| `Whitespace.StripTagGapsWsDelete` | src/index.ts:36 | stripping only deletes whitespace characters: every kept character is kept as it was, in order |
| `Whitespace.StripTagGapsWsEdit` | src/index.ts:36 | stripping is a whitespace edit, so it composes with the other two replacements |
| `Whitespace.StripTagGapsNoGap` | src/index.ts:36 | where no gap starts, the first character is copied and the scan goes on with the rest |
| `Whitespace.StripTagGapsPlainPrefix` | src/index.ts:36 | a prefix without `>` starts no gap and is copied unchanged |
| `Whitespace.StripTagGapsGap` | src/index.ts:36 | `>`, one or more whitespace characters and `<` become `><`, and the scan resumes after the `<` |
| `Whitespace.StripTagGapsWsPrefix` | src/index.ts:36 | whitespace in front of any string is copied unchanged, since a match must start with `>` |
| `Whitespace.StripTagGapsLeadingRun` | src/index.ts:36 | the leading whitespace run of a string is copied unchanged, and the rest is stripped on its own |
| `Whitespace.SkipWsStripTagGaps` | src/index.ts:36 | stripping commutes with removing the leading whitespace run |
| `Whitespace.StripTagGapsFixed` | src/index.ts:36 | a string with no `>`, whitespace, `<` gap is left unchanged |
| `Whitespace.DropNewlines` | src/index.ts:37 | the result contains no line feed, is never longer than the input, and starts with the input's first character when that is not a line feed |
| `Whitespace.DropNewlinesAppend` | src/index.ts:37 | deleting line feeds distributes over concatenation |
| `Whitespace.DropNewlinesOnlyLineFeeds` | src/index.ts:37 | the result holds every character other than a line feed exactly as often as the input does, and no line feed |
| `Whitespace.DropNewlinesWsDelete` | src/index.ts:37 | deleting line feeds only deletes whitespace characters: every kept character is kept as it was, in order (with `DropNewlinesOnlyLineFeeds`, exactly the line feeds go) |
| `Whitespace.DropNewlinesWsEdit` | src/index.ts:37 | deleting line feeds is a whitespace edit, so it composes with the other two replacements |
| `Whitespace.DropNewlinesLeadingRun` | src/index.ts:37 | the leading whitespace run loses its line feeds and nothing else, and the rest is handled on its own |
| `Whitespace.SkipWsDropNewlines` | src/index.ts:37 | deleting line feeds commutes with removing the leading whitespace run |
| `Whitespace.DropNewlinesKeepsNoAdjacentWs` | src/index.ts:35-37 | deleting line feeds cannot make two whitespace characters adjacent |
| `Whitespace.DropNewlinesKeepsNoTagGap` | src/index.ts:36-37 | deleting line feeds cannot create a `>`, whitespace, `<` gap |
| `Whitespace.DropNewlinesKeepsText` | src/index.ts:37 | deleting line feeds keeps every non-whitespace character, in order |
| `Whitespace.DropNewlinesFixed` | src/index.ts:37 | a string without line feeds is left unchanged |
| `Whitespace.WsDeleteIsWsEdit` | src/index.ts:36-37 | deleting whitespace characters is a whitespace edit |
| `Whitespace.WsEditRefl` | src/index.ts:32-33 | keeping every character is a whitespace edit (the `keepWhitespace` branch) |
| `Whitespace.WsEditTrans` | src/index.ts:34-37 | two whitespace edits in a row are one whitespace edit, so the chain of replacements is one |
| `Whitespace.ReplacementsFixedPoints` | src/index.ts:34-37 | the three replacements leave a string unchanged exactly when it has no line feed, no adjacent whitespace and no tag gap |
| `Whitespace.Normalize` | src/index.ts:32-37 | identity when whitespace is kept; otherwise no line feed, no adjacent whitespace and no gap between `>` and `<`, and unchanged exactly when the input already has those three properties; always a whitespace edit of the input, with the same non-whitespace characters, never longer |
| `StripHtml.CleanDocument` | src/index.ts:28 | the root is kept and its children become exactly `Clean` of its children, stripped at every depth, with the document order of the input minus script and style subtrees, a subsequence of the input's document order |
| `StripHtml.ProcessHtml` | src/index.ts:26-38 | the whole filter: the cleaned document's serialisation, unchanged when whitespace is kept, otherwise normalised with the three guarantees above and unchanged exactly when it already has them; always a whitespace edit of the serialisation, never longer |
| `Scenarios.ScriptInsideDiv` | src/index.ts:9-24 | `<div class="a"><script>…</script><p id="x">Hi</p></div>` cleans to `<div><p>Hi</p></div>` |
| `Scenarios.LeadingStyle` | src/index.ts:9-24 | `<style>…</style><span>text</span>` cleans to `<span>text</span>` |
| `Scenarios.JoinedTags` | src/index.ts:36-37 | text without `>` or line feed, then `>`, a whitespace run, `<` and a gap-free rest without line feeds (such as `</p>\n</div>`) becomes the same with the run removed (`</p></div>`) |
| `Scenarios.StripJoined` | src/index.ts:36 | text without `>`, then `>`, a whitespace run, `<` and a gap-free rest, is stripped to the same with the run removed |
| `Scenarios.CollapsePaddedWord` | src/index.ts:35 | an opening tag, two spaces, a word, two spaces and a closing tag, none holding other whitespace (such as `<p>  Hi  </p>`), collapse to the same with single spaces (`<p> Hi </p>`) |

## Left out

- HTML parsing (`parseDocument`, src/index.ts:27) and serialisation (`DomSerializer.default`, src/index.ts:30) are external libraries. They are parameters of `ProcessHtml`, so nothing is claimed about the serialised text beyond what the normaliser guarantees. Parse or serialise failures are not modelled, because the source has no error branch of its own there.
- The default `keepWhitespace = false` of `processHtml` (src/index.ts:26) is not modelled: `ProcessHtml` takes the flag as an explicit parameter.
- `readStdin`, `readFile`, `writeFile` (src/index.ts:40-55) are stream and filesystem I/O.
- `main` (src/index.ts:57-90) is command-line parsing, terminal detection, process exit and error logging. The `package.json` import and the module entry guard are left out with it.
- The source mutates nodes in place (`attribs = {}`, `node.children = …`). The model rebuilds them instead. That is the same for an exclusively owned tree; a node shared between two parents is not modelled.
- `IsWs` lists the code points of the ECMAScript `\s` class rather than modelling the regex engine. JavaScript strings are UTF-16 code units and Dafny strings are Unicode scalar values. Every `\s` member lies in the Basic Multilingual Plane and no surrogate half is whitespace, so the replacements see the same matches.
