# devbar in Dafny

A model of the core of devbar, a React developer toolbar, together with the
markdown renderers of its documentation site and demo app. The project
proves properties of each part.

- `Toolbar` (`toolbar.dfy`) covers the `DevToolbar` widget of `src/index.tsx`:
  - its five pieces of UI state (collapsed, active tab, visible, pane height,
    resizing);
  - one transition per event: mount, toggle button, close button, tab button,
    resize handle, document mouse move and mouse up, Escape key;
  - what is rendered, described as data (`View`): the button's anchor and
    inset, the panel's size, the handle, the tab bar with its highlight, and
    the active tab's content;
  - `useDevToolbarTab`.

  The class `DevToolbar` holds the state in fields. Each of its methods is
  proved to perform the matching transition and to keep the invariant.
- The two `renderMarkdown` copies of the documentation site
  (`docs-site/app/docs-client.tsx` and `docs-site/pages/index.tsx`) share
  their passes. They differ only in the class strings of lists, headers and
  paragraphs (`MarkdownRender.Style`).
  - `MarkdownList`: the line-by-line list pass.
  - `MarkdownHeaders`: the four multiline header replacements.
  - `MarkdownCode`: code-fence extraction into numbered placeholders, and the
    final interleaving of markup runs with code components.
  - `MarkdownTable`: the escaped-pipe cell splitter, the blank-edge cell
    filter and the th/td row builder.
  - `MarkdownParagraphs`: the blank-line paragraph pass.
  - `MarkdownRender`: the whole pipeline.
- `DocsClient` covers the client page's sections and content lookup, and the
  server page's `loadDocs`. `DocsPage` covers the pages-router page's sections
  and its request to `/api/docs`. `DocsApi` covers that handler.
- `DemoDocs` covers the demo app's documentation page:
  - its one-block-per-line classifier;
  - the previous/next footer;
  - the active document and mobile-menu state, as the class `DocsNav`.
- `JsText` holds the JavaScript string operations the sources rely on:
  - `trim` with the `\s` class;
  - `split` and `join`;
  - `indexOf` with a clamped start;
  - `substring` with clamping and swapped bounds;
  - the `^`/`$` line boundaries of a multiline regex.

The environment is passed in as parameters:

- the file read (`string -> Option<string>`, `None` when it throws);
- `typeof window` and `NODE_ENV` (`isClient`, `nodeEnv`);
- `window.innerHeight` and the pointer's `clientY`;
- the inline passes that run between code extraction and paragraphs
  (`inlinePasses`).

## Model

| member | source | states |
|---|---|---|
| `JsText.Trim` | docs-site/app/docs-client.tsx:144 | The result is a slice `s[i..j]` of the input whose dropped prefix `s[..i]` and suffix `s[j..]` are all whitespace. It is empty exactly when the input is all whitespace, and otherwise starts and ends with a non-space. |
| `JsText.TrimStart` | docs-site/app/docs-client.tsx:265 | The result is a suffix of the input, all of the dropped prefix is whitespace, and the result starts with a non-space. |
| `JsText.TrimEnd` | docs-site/app/docs-client.tsx:265 | The result is a prefix of the input, all of the dropped suffix is whitespace, and the result ends with a non-space. |
| `JsText.TrimAll` | demo-app/app/docs/page.tsx:512 | Each cell is shown trimmed, one result per cell, in order, so each result has the guarantees of `JsText.Trim` and is stable under `JsText.TrimIdempotent`. |
| `JsText.TrimIdempotent` | docs-site/app/docs-client.tsx:265 | Trimming twice is trimming once. |
| `JsText.IndexOf` | demo-app/app/docs/page.tsx:475 | The result is -1 or the first occurrence at or after the clamped start. No occurrence lies between the start and the result. |
| `JsText.Substring` | demo-app/app/docs/page.tsx:476 | Both bounds are clamped into `[0, n]`, and the result is the slice between the smaller and the larger clamped bound. In particular a negative end gives the prefix up to the start. |
| `JsText.Clamp` | demo-app/app/docs/page.tsx:476 | An index is clamped into `[0, n]`: left alone inside, 0 below, `n` above. |
| `JsText.Split` | docs-site/app/docs-client.tsx:131 | `split` always yields at least one piece. |
| `JsText.SplitLeftmost` | docs-site/app/docs-client.tsx:308 | `split` cuts at the leftmost occurrence of the separator (the one `indexOf` finds): the first piece is the text before it and the rest is the split of the text after it. With no occurrence the text is the only piece. |
| `JsText.IndexOfFirst` | demo-app/app/docs/page.tsx:475 | An occurrence at or after the start with none before it is the one `indexOf` returns. |
| `JsText.JoinSplit` | docs-site/app/docs-client.tsx:131-161 | Joining the pieces of a split with the same separator gives back the text. |
| `JsText.SplitHeadIsPrefix` | docs-site/app/docs-client.tsx:207 | The first piece of a split is a prefix of the text. |
| `JsText.SplitPiecesAvoidSeparator` | docs-site/app/docs-client.tsx:308 | No piece of a split contains the separator. |
| `JsText.DecimalString` | docs-site/app/docs-client.tsx:176 | A block number prints as a non-empty run of digits. |
| `JsText.LeadingDigits` | docs-site/app/docs-client.tsx:323 | The result is the length of the longest run of digits at the start. |
| `JsText.LeadingDigitsOfNumber` | docs-site/app/docs-client.tsx:323 | The run of digits at the start of digits-then-non-digit ends at the non-digit. |
| `Toolbar.FindTabIndex` | src/index.tsx:194 | `tabs.find` by id finds the first tab with that id, and finds none exactly when no tab has it. |
| `Toolbar.InitialRendersNothing` | src/index.tsx:38-42 | The first render is collapsed, not resizing and invisible, so it renders nothing. |
| `Toolbar.MountVisibility` | src/index.tsx:45-49 | After mount the widget renders exactly when `hideInProduction` is off, or it runs in a browser in development. Nothing else in the state changes. |
| `Toolbar.ToggleTwiceRestores` | src/index.tsx:200 | The button flips `collapsed` and nothing else, so two clicks restore the state. |
| `Toolbar.CloseIdempotent` | src/index.tsx:281 | The close button collapses, touches nothing else, and a second click changes nothing. |
| `Toolbar.MouseMoveBounds` | src/index.tsx:52-62 | A move while not resizing changes nothing. A move only ever changes the pane height. While resizing, a height `innerHeight - clientY` in `[100, 0.8·innerHeight]` becomes the new pane height, and one outside that range leaves the state as it was. |
| `Toolbar.MouseUpEndsResizing` | src/index.tsx:64-76 | Mouse up ends resizing and touches nothing else. |
| `Toolbar.EscapeOnlyClosesOpenPane` | src/index.tsx:79-90 | A key changes the state exactly when it is Escape, the position is pane and the panel is open, and then it acts as the close button. |
| `Toolbar.InitialTabExists` | src/index.tsx:39 | When the tabs are non-empty and `defaultTab` is absent, empty or names a tab, the initial active tab is a tab's id. |
| `Toolbar.StepPreservesInvariant` | src/index.tsx:38-90 | Every enabled event keeps the invariant: only the pane resizes, accepted heights are at least 100, and the active tab exists. |
| `Toolbar.RunPreservesInvariant` | src/index.tsx:38-90 | Any feasible sequence of events keeps the invariant. |
| `Toolbar.ReachableInvariant` | src/index.tsx:38-90 | Every state reachable from the first render satisfies the invariant. |
| `Toolbar.TabClickSelects` | src/index.tsx:295-316 | A tab button makes its own tab active, and `find` then finds it. Nothing else changes. |
| `Toolbar.TabButtons` | src/index.tsx:295-320 | There is one button per tab, in order. A button is highlighted exactly when its id is the active tab; `Toolbar.HighlightMatchesContent` ties the highlight to the content shown. |
| `Toolbar.View` | src/index.tsx:93-300 | The widget renders nothing exactly when invisible, and the panel exactly when not collapsed. The tab bar is shown exactly when there is more than one tab, and the handle exactly in pane mode. The pane is 100% wide at the dragged height; a corner panel uses `width` and `maxHeight`. Every theme but light is dark. |
| `Toolbar.HighlightMatchesContent` | src/index.tsx:194-340 | With distinct ids, an existing active tab and more than one tab (`\|tabs\| > 1`, so the tab bar is shown), exactly one tab button is highlighted, and the panel shows that tab's content. |
| `Toolbar.ContentShown` | src/index.tsx:194-340 | With the panel open, the content is the first tab whose id is the active tab, its content called when it is a producer. With no such tab there is no content. This holds for any number of tabs. |
| `Toolbar.UseDevToolbarTab` | src/index.tsx:350-357 | The hook's tab carries the given id, label and icon, and displays the given content, which `Toolbar.ContentShown` then shows when the tab is active. |
| `Toolbar.DevToolbar.constructor` | src/index.tsx:38-42 | The fields start as the initial state, which satisfies the invariant. |
| `Toolbar.DevToolbar.OnMount` | src/index.tsx:45-49 | The fields become the mount transition of the old state, and the invariant holds. |
| `Toolbar.DevToolbar.OnToggleClick` | src/index.tsx:200 | The fields become the toggle transition of the old state, and the invariant holds. |
| `Toolbar.DevToolbar.OnCloseClick` | src/index.tsx:281 | The fields become the close transition of the old state, and the invariant holds. |
| `Toolbar.DevToolbar.OnTabClick` | src/index.tsx:300 | The fields become the tab-click transition of the old state, and the invariant holds. |
| `Toolbar.DevToolbar.OnHandlePress` | src/index.tsx:244 | The fields become the handle-press transition of the old state, and the invariant holds. |
| `Toolbar.DevToolbar.OnMouseMove` | src/index.tsx:55-63 | The fields become the mouse-move transition of the old state, and the invariant holds. |
| `Toolbar.DevToolbar.OnMouseUp` | src/index.tsx:65-67 | The fields become the mouse-up transition of the old state, and the invariant holds. |
| `Toolbar.DevToolbar.OnKeyDown` | src/index.tsx:83-87 | The fields become the key transition of the old state, and the invariant holds. |
| `MarkdownList.RenderAll` | docs-site/app/docs-client.tsx:140-159 | Each emitted event renders to exactly one output line, in order. |
| `MarkdownList.EmitLine` | docs-site/app/docs-client.tsx:137-154 | One loop iteration appends an opener before an item that starts a list, or `</ul>` before a blank line that ends one, then the (rewritten) line. It returns the new in-list flag. |
| `MarkdownList.WrapLists` | docs-site/app/docs-client.tsx:128-161 | The list pass's output is the rendering of the event sequence of the input's lines, joined by newlines. |
| `MarkdownList.LinesPreserved` | docs-site/app/docs-client.tsx:134-155 | Every input line appears in the output once, in order. The pass only inserts `<ul>`/`</ul>` and rewrites items. |
| `MarkdownList.EventsNested` | docs-site/app/docs-client.tsx:140-159 | Openers and `</ul>` alternate, starting with an opener, and every opened list is closed by the end. |
| `MarkdownList.OpenAndCloseSites` | docs-site/app/docs-client.tsx:140-147 | An opener is always followed by an item. A `</ul>` is always followed by a blank non-item line, or ends the text. |
| `MarkdownList.RenderLine` | docs-site/app/docs-client.tsx:140-154 | A line renders as the opener (if it is an item outside a list) or `</ul>` (if it is a blank non-item inside one), then its rewritten text. |
| `MarkdownList.BulletItemLine` | docs-site/app/docs-client.tsx:138-150 | `- x` and `* x`, with any whitespace after the marker, are items rendered as `<li>x</li>`. |
| `MarkdownList.NumberedItemLine` | docs-site/app/docs-client.tsx:138-151 | `12. x` is an item rendered as `<li>x</li>`. |
| `MarkdownHeaders.LineEnd` | docs-site/app/docs-client.tsx:166 | `.*$` in multiline mode stops at the first line terminator or at the end of the text. |
| `MarkdownHeaders.HeadersPerLine` | docs-site/app/docs-client.tsx:165-169 | With single-line tags, the four global passes act as one per-line rewrite applying the `####`, `###`, `##` and `#` rules in that order. |
| `MarkdownHeaders.MapLinesCompose` | docs-site/app/docs-client.tsx:165-169 | Two per-line passes in a row equal one pass with both rule lists, when the first keeps lines single. |
| `MarkdownHeaders.ApplyKeepsSingleLine` | docs-site/app/docs-client.tsx:166-169 | Rewriting a line with single-line tags never creates a new line. |
| `MarkdownHeaders.HeaderLevels` | docs-site/app/docs-client.tsx:165-169 | A line starting `# `, `## `, `### ` or `#### ` becomes that level's tag around the rest of the line. Any other line is unchanged. |
| `MarkdownHeaders.NoHeaderPrefix` | docs-site/app/docs-client.tsx:166-169 | A line that does not start with `#` is never rewritten. |
| `MarkdownCode.WordRun` | docs-site/app/docs-client.tsx:175 | `(\w+)?` takes the longest run of word characters. |
| `MarkdownCode.FenceAt` | docs-site/app/docs-client.tsx:175 | A match covers exactly fence, language, newline, body and fence. The language is word characters. The lazy body holds no earlier closing fence. |
| `MarkdownCode.FenceFound` | docs-site/app/docs-client.tsx:175 | Conversely, fence, word-character language, newline, a body with no closing fence inside, fence: the regex matches there, with that language and body and spanning exactly those characters. |
| `MarkdownCode.FirstClose` | docs-site/app/docs-client.tsx:175 | The closing fence is the first one after the opening line. |
| `MarkdownCode.Extract` | docs-site/app/docs-client.tsx:175-184 | The global replace leaves one more text run than it finds fences; the lemmas below say which fences it finds. |
| `MarkdownCode.ExtractNoEarlierFence` | docs-site/app/docs-client.tsx:175 | No match starts inside the text before the first fence: the global replace takes the leftmost match. |
| `MarkdownCode.ExtractFirstFence` | docs-site/app/docs-client.tsx:175 | When a fence is found, the match starts right after the first text run and is the first fence found. |
| `MarkdownCode.ExtractScanResumes` | docs-site/app/docs-client.tsx:175-184 | After a match the scan starts over right after it, so the later runs and fences are the extraction of the remaining text. |
| `MarkdownCode.ExtractWithoutFence` | docs-site/app/docs-client.tsx:175-184 | When no fence is found, the text comes back as the only run, unchanged. |
| `MarkdownCode.ExtractLossless` | docs-site/app/docs-client.tsx:175-184 | The text runs interleaved with the matched fences give back the input: nothing is lost or reordered. |
| `MarkdownCode.ExtractHeadIsPrefix` | docs-site/app/docs-client.tsx:175 | The text before the first fence is a prefix of the input. |
| `MarkdownCode.ExtractTextsAvoidMarker` | docs-site/app/docs-client.tsx:176 | Without `__CODE_BLOCK_` in the input, no text run contains it. |
| `MarkdownCode.Blocks` | docs-site/app/docs-client.tsx:176-182 | Block `k` carries number `k`, the fence's language (or `javascript`) and the trimmed body; `MarkdownCode.ExtractThenInterleave` shows each block once, in this order. |
| `MarkdownCode.SplitPlaceholders` | docs-site/app/docs-client.tsx:323 | `split(/__CODE_BLOCK_\d+__/)` yields at least one part. |
| `MarkdownCode.PlaceholderMatches` | docs-site/app/docs-client.tsx:323 | Every placeholder the extraction writes matches the split pattern. |
| `MarkdownCode.SplitAssembled` | docs-site/app/docs-client.tsx:323 | Splitting text runs joined by placeholders gives back exactly the runs. |
| `MarkdownCode.Interleave` | docs-site/app/docs-client.tsx:324-331 | The loop's elements are, for each part, the part when non-empty, then the code block of the same number while one is left. |
| `MarkdownCode.InterleavedOrder` | docs-site/app/docs-client.tsx:326-331 | With one more part than blocks, the elements hold every block once, in order, and every non-empty part, in order. |
| `MarkdownCode.ExtractThenInterleave` | docs-site/app/docs-client.tsx:175-334 | Extracting then splitting gives back the text runs, and the interleaving shows every block in order between the non-empty runs. |
| `MarkdownTable.SplitCells` | docs-site/app/docs-client.tsx:216-243 | The character loop yields the cells of the recursive scan. |
| `MarkdownTable.FirstCellNotBlank` | docs-site/app/docs-client.tsx:230 | A pipe before any content opens no cell, so the first cell is never blank. |
| `MarkdownTable.ScanEscaped` | docs-site/app/docs-client.tsx:225-228 | Scanning a run where every `\|` is written `\\|` adds the run to the current cell unsplit. |
| `MarkdownTable.SplitRowText` | docs-site/app/docs-client.tsx:217-248 | A row written from cells (first not blank, pipes escaped) splits back into those cells. When the last cell is not blank, the filter keeps them all. |
| `MarkdownTable.PipeAfterEscapeKept` | docs-site/app/docs-client.tsx:225-229 | A pipe right after an escaped pipe is kept in the cell, not taken as a separator (`\|a\\\|\|b\|` gives one cell `a\|\|b`). |
| `MarkdownTable.FilterDropsBlankEdges` | docs-site/app/docs-client.tsx:246-248 | The filter keeps every interior cell and drops only a blank first and a blank last cell. |
| `MarkdownTable.BuildRows` | docs-site/app/docs-client.tsx:210-300 | The `forEach` loop yields the rows of the row specification. |
| `MarkdownTable.BuildTable` | docs-site/app/docs-client.tsx:206-214 | The table is built from the trimmed match's lines. |
| `MarkdownTable.KeptFromRows` | docs-site/app/docs-client.tsx:214-250 | Every kept row is an input row and not a separator. |
| `MarkdownTable.HeaderOnlyFirst` | docs-site/app/docs-client.tsx:214-299 | There is one table row per kept row. Only the first kept row is a header (th). Each row's cells are its filtered, trimmed cells. |
| `MarkdownParagraphs.ChunkAll` | docs-site/app/docs-client.tsx:307-319 | Every paragraph is mapped on its own, in order, by the chunk rule that `MarkdownParagraphs.ChunkCases` characterises. |
| `MarkdownParagraphs.ChunkCases` | docs-site/app/docs-client.tsx:310-317 | Markup and placeholder chunks are kept. Other non-blank chunks are wrapped in the paragraph tag. A chunk disappears exactly when it is empty, or blank and neither markup nor placeholder. |
| `MarkdownParagraphs.ChunkIdempotent` | docs-site/app/docs-client.tsx:310-317 | Wrapping a chunk twice is wrapping it once. |
| `MarkdownParagraphs.ParagraphsKeepText` | docs-site/app/docs-client.tsx:306-319 | Every chunk that is not dropped appears in the output. |
| `MarkdownRender.RenderMarkdown` | docs-site/app/docs-client.tsx:126-337 | The renderer's result is the composition of the passes for the given style. |
| `MarkdownRender.InterleavedBlocks` | docs-site/app/docs-client.tsx:326-331 | Whatever the later passes do to placeholders, the code components come out in block order, each once, up to the number of parts. |
| `MarkdownRender.RenderingBlocks` | docs-site/app/docs-client.tsx:171-336 | The result is a list of elements exactly when a fence was extracted. Its code components are then the extracted blocks, in order. |
| `DocsClient.ClientStyleIsMarkup` | docs-site/app/docs-client.tsx:141-169 | In both themes the header tags never start with `#` and the list and paragraph tags start with `<ul` and `<p`. |
| `DocsClient.FindSection` | docs-site/app/docs-client.tsx:117 | `sections.find` by id yields the first matching section, or none exactly when no id matches. |
| `DocsClient.LoadDocs` | docs-site/app/page.tsx:13-30 | The loaded map has the six names as keys. Each holds the file's content, or the error text when the read fails; `DocsClient.EverySectionLoaded` says which section shows which entry. |
| `DocsClient.OverviewAlwaysEmpty` | docs-site/app/docs-client.tsx:21 | As written, the initial overview section shows the empty string, whatever the docs directory holds. |
| `DocsClient.FindById` | docs-site/app/docs-client.tsx:117 | With distinct ids, looking a section up by its id finds that section. |
| `DocsClient.EverySectionLoaded` | docs-site/app/docs-client.tsx:117 | With the overview reading `README.md`, every section shows its own loaded file, an unknown id shows `README.md`, and content is empty only when the file itself is empty. |
| `DocsPage.PageStyleIsMarkup` | docs-site/pages/index.tsx:102-128 | This page's header tags never start with `#`, and its list and paragraph tags start with `<ul` and `<p`. |
| `DocsPage.Request` | docs-site/pages/index.tsx:65-80 | A request is made exactly when the active id names a section. |
| `DocsPage.RequestsAllowed` | docs-site/pages/index.tsx:16-71 | The page only asks for allowlisted names. It gets 200 with the content when the file reads, and 404 only when the read fails. |
| `DocsApi.Handle` | docs-site/pages/api/docs.ts:5-34 | 400 exactly for a missing, empty or repeated parameter. 200 with the file's text exactly for an allowlisted name that reads. 404 for every other name and for a failed read. Every non-200 body is a JSON error. |
| `DocsApi.OutsideAllowlistNotRead` | docs-site/pages/api/docs.ts:13-24 | A name outside the allowlist gets 404 whatever the file system holds. |
| `DocsApi.ReadOnlyAllowlisted` | docs-site/pages/api/docs.ts:13-34 | Only an allowlisted name can make the response depend on the file system. |
| `DocsApi.FailedReadIsNotFound` | docs-site/pages/api/docs.ts:26-33 | An allowlisted name that fails to read gets the same 404 as an unknown name. |
| `DocsApi.AllowedNamesHaveNoSeparator` | docs-site/pages/api/docs.ts:13-28 | No allowlisted name contains a path separator. |
| `DemoDocs.Spans` | demo-app/app/docs/page.tsx:486-492 | There is one span per backtick-separated part. Odd parts are code and even parts are text; `DemoDocs.InlineSpans` shows the spans rejoin to the line. |
| `DemoDocs.NonBlank` | demo-app/app/docs/page.tsx:506 | The filtered cells are all non-blank, and there are no more of them than parts. |
| `DemoDocs.NonBlankKeeps` | demo-app/app/docs/page.tsx:506 | The filter keeps exactly the non-blank parts: every kept cell is a non-blank part, and every non-blank part is kept. |
| `DemoDocs.NonBlankAppend` | demo-app/app/docs/page.tsx:506 | The filter works part by part and keeps the order: filtering a concatenation is filtering each half. |
| `DemoDocs.HeaderPrefixes` | demo-app/app/docs/page.tsx:462-470 | `# `, `## ` and `### ` lines render as h1, h2 and h3 of the rest of the line. |
| `DemoDocs.CodeAfterSpan` | demo-app/app/docs/page.tsx:475-476 | With a closing fence, the code is the trimmed text up to the first fence after the line. Without one, `substring(start, -1)` gives the trimmed text before the line. |
| `DemoDocs.FenceStart` | demo-app/app/docs/page.tsx:475 | A line of the content is found in it, so its end is within the content. |
| `DemoDocs.FenceLineIsPre` | demo-app/app/docs/page.tsx:473-482 | Every line starting with a fence, the closing one included, renders as a `pre` of the code after its first occurrence. |
| `DemoDocs.InlineSpans` | demo-app/app/docs/page.tsx:485-494 | A line with a backtick renders as spans that start with text, alternate text and code, and rejoin to the line. |
| `DemoDocs.TableLines` | demo-app/app/docs/page.tsx:502-516 | A pipe line with a dash is dropped. Any other pipe line is a row with one cell per non-blank `\|`-separated segment: cell `k` is the trimmed `k`-th such segment. Every cell is non-empty, has no edge whitespace and holds no `\|`. |
| `DemoDocs.ListItemLine` | demo-app/app/docs/page.tsx:497-499 | A `- ` line without a backtick is a list item holding the line after the marker. |
| `DemoDocs.ParagraphLine` | demo-app/app/docs/page.tsx:518-520 | A non-blank line that is no header, fence, inline code, list item or table line is a paragraph holding the whole line, untrimmed. |
| `DemoDocs.RenderLines` | demo-app/app/docs/page.tsx:458-525 | Each line renders to at most one block. |
| `DemoDocs.RenderLinesAppend` | demo-app/app/docs/page.tsx:458-525 | Rendering is line by line: rendering two runs of lines is rendering each. |
| `DemoDocs.BlankLineRendersNothing` | demo-app/app/docs/page.tsx:519-525 | A blank line renders nothing. |
| `DemoDocs.FooterNeighbours` | demo-app/app/docs/page.tsx:623-647 | With distinct keys, the footer holds exactly the neighbours of the active document: the next one with `←`, the previous one with `→` on the right. The first document's footer has nothing on the right; the last one's has everything on the right. |
| `DemoDocs.FooterKeyAdjacent` | demo-app/app/docs/page.tsx:623-647 | Any footer button opens a document adjacent to the active one. |
| `DemoDocs.FooterClickAdjacent` | demo-app/app/docs/page.tsx:623-647 | On this page a footer click moves to the previous or next document. |
| `DemoDocs.NavProperties` | demo-app/app/docs/page.tsx:453-572 | Toggling the menu twice restores the state. A sidebar click closes the menu. Enabled clicks keep the active document among the documents. |
| `DemoDocs.DocsNav.constructor` | demo-app/app/docs/page.tsx:453-454 | The page starts on getting-started with the menu closed. |
| `DemoDocs.DocsNav.ToggleMenu` | demo-app/app/docs/page.tsx:549 | The fields become the menu-toggle transition of the old state. |
| `DemoDocs.DocsNav.SelectDoc` | demo-app/app/docs/page.tsx:569-572 | The fields become the sidebar-click transition of the old state. |
| `DemoDocs.DocsNav.FooterClick` | demo-app/app/docs/page.tsx:630-641 | The fields become the footer-click transition of the old state. |

The pages-router copy of the renderer (docs-site/pages/index.tsx:87-277) runs
the same passes as the client copy. Its list, header, fence, table, paragraph
and interleave passes are at lines 95-121, 124-128, 134-143, 158-245, 248-259
and 262-273. The lemmas above hold for it with `DocsPage.PageStyle`.

## Left out

- The inline-code, bold/italic and link passes (docs-site/app/docs-client.tsx:186-202) are left out. So is the table-region pass, `/(\|[^\n]+\|\n)+/g` (lines 205-206, 302-303). These regex rewrites run between code extraction and paragraphs. They are the parameter `inlinePasses`; the table rows inside a matched region are modelled (`MarkdownTable`).
- Table cell decoration is left out: the cell code, bold, italic and entity replacements, the type-union wrapping (lines 267-293), and the th/td and hover class strings. The model keeps each cell's trimmed text and its th/td choice.
- Prism highlighting, the copy-to-clipboard button, `setTimeout`, `fetch`/JSON, `fs`/`path`, the theme toggle and mounted effects, and the build and serve scripts are left out. They are I/O or presentation.
- `Toolbar.MouseMoveBounds`: `window.innerHeight * 0.8` is floating point. The bound is stated without fractions (`5·h <= 4·innerHeight`), and `clientY` is taken as a whole number of pixels.
- The style objects of `src/index.tsx` are reduced to the fields that depend on state or props: anchor, 12px/8px inset, rotation, width, height, border, handle and theme. Colours, shadows and the transition are left out.
- `DevToolbarSection`, `DevToolbarButton` and `DevToolbarInfo` are presentational components without state or logic. They are not modelled.
- `Toolbar.Content` models a React node as its text. Calling a producer is modelled as a pure function call.
- `DemoDocs.FenceLineIsPre`: as written, the closing fence line also renders a `pre`. The lines inside a fenced block are classified like any other line. Both are modelled as written.
- `DemoDocs.FooterNeighbours`: the footer's arrows point the other way from the usual previous/next convention. The model follows the code.
- `MarkdownHeaders.HeadersPerLine` takes as a hypothesis that the header tags contain no line terminator. This holds of the fixed class strings, but it is not proved about those literals.
- `DocsPage` does not model the `catch` branch around `fetch` (docs-site/pages/index.tsx:74-76). It only logs and keeps the old content.

## Findings

| source | as written | input that shows it | evidently intended | confidence | as-written member | corrected member |
|---|---|---|---|---|---|---|
| docs-site/app/docs-client.tsx:21 | The overview section, which the page starts on (line 69), reads `index.md`. `loadDocs` (docs-site/app/page.tsx:13-20) never loads that name, so `docs['index.md'] \|\| ''` is empty. | any docs directory; active section `overview` | The overview reads `README.md`, the comprehensive file the loader provides. | not executed | `DocsClient.OverviewAlwaysEmpty` | `DocsClient.EverySectionLoaded` |
