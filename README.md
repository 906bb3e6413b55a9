# jiratime core, modelled in Dafny

jiratime is a terminal Jira client. It shows a board of issue columns, lets
the user move between issues and transition or edit them, and opens modal
dialogs for assignees and linked merge requests. Everything is driven by
keybindings. This project models the deterministic logic under that UI:

- the `ADFRenderer` that turns an issue description into padded,
  word-wrapped terminal rows (headings, `{{code}}` spans, attachments,
  links, curly quotes);
- the plain-text helpers `pad`, `splitIntoLines`, `hyphenatedSummary` and
  `formatBranchName`;
- the keybinding subsystem: the parser, `resolveKey` / `shouldTrigger`,
  the dispatch loop, the registry reducer and both display builders;
- the board: grouping by column, the assignee filter and the j/k/h/l
  cursor;
- the optimistic cache updates of the transition and update mutations,
  their rollback, and the scroll rule after a transition;
- the small state machines held in atoms: modal flags, board search, the
  active/previous view, the user multi-select dialog and the linked
  resources dialog.

Styled terminal text is a sequence of tokens (`Ansi.Tok`): a visible
character or one escape sequence. Its visible width counts only the
characters. This stands in for chalk and for `ansiRegex`. Foreign
functions become parameters:

- `stringWidth` is `width: string -> nat`;
- `new URL(..).host` is `urlHost: Styled -> Option<string>`, where `None`
  means the constructor throws;
- the grouping the transition mutation calls is
  `board: Option<seq<Issue> -> seq<seq<Issue>>>`;
- a keybinding handler is a function on an abstract world `W`.

Pure code is written as functions and lemmas. Code that changes state step
by step is written as methods and classes:

- the render loops, `splitIntoLines` and `camelToSnake`;
- the dispatch loop, the board cursor and the mutations' cache writes;
- the atoms and the dialogs.

Each such method is proved equal to a specification function, and the
properties are proved about that function.

## Model

| member | source | states |
|---|---|---|
| `Ansi.PaintWidth` | src/lib/adf-renderer.ts:77-79 | Wrapping text in a chalk style never changes the length `getLength` measures. |
| `AdfFormat.Code` | src/lib/adf-renderer.ts:118-120 | The orange-on-grey code style keeps the visible width, and empty text stays empty. |
| `AdfFormat.ReplaceRunWidth` | src/lib/adf-renderer.ts:118-120 | Replacing one `{{…}}` run by its styled contents removes exactly the four brace characters from the visible width. |
| `AdfFormat.Braces` | src/lib/adf-renderer.ts:114-121 | The corrected code-span rewrite never widens the line and stops only when no `{{` is followed by a `}}`. |
| `AdfFormat.FormatBraces` | src/lib/adf-renderer.ts:114-121 | The while loop, with `}}` searched after the `{{`, computes `Braces`. |
| `AdfFormat.BracesNoBrace` | src/lib/adf-renderer.ts:114 | A line without `{` leaves the loop unchanged. |
| `AdfFormat.BracesOneRun` | src/lib/adf-renderer.ts:114-121 | `a{{b}}c` with no other braces becomes `a`, the code-styled `b`, then `c`. |
| `AdfFormat.Slice` | src/lib/adf-renderer.ts:120 | `slice(from, to)` is empty when `to` is at or before `from`, and otherwise the characters between them. |
| `AdfFormat.StuckStaysStuck` | src/lib/adf-renderer.ts:114-121 | As written, a line whose first `}}` comes before its first `{{` stays that way after a step, and the step never shortens it, so the loop does not end. |
| `AdfFormat.StuckExample` | src/lib/adf-renderer.ts:114-121 | `}}{{` is such a line, and the as-written step returns it unchanged. |
| `AdfFormat.StepsAgree` | src/lib/adf-renderer.ts:115-116 | When the line is not stuck, the as-written `indexOf("}}")` finds the same `}}` as the corrected search after the `{{`. |
| `AdfFormat.StepAsWritten` | src/lib/adf-renderer.ts:114-121 | One pass of the loop as written: the text between the first `{{` and the first `}}` of the whole line is code-styled and the four braces dropped (specification function; `StuckStaysStuck` and `StepsAgree` state its behaviour). |
| `AdfFormat.Stuck` | src/lib/adf-renderer.ts:114-116 | The loop condition holds and the first `}}` comes before the first `{{` (predicate; `StuckStaysStuck` shows such a line never changes). |
| `AdfFormat.GetsStuck` | src/lib/adf-renderer.ts:114-121 | The passes of the loop as written reach a stuck line (predicate; `FormatBracesAsWritten` gives `None` exactly on such lines). |
| `AdfFormat.FormatBracesAsWritten` | src/lib/adf-renderer.ts:114-121 | The loop as written gives no result exactly when it reaches a stuck line (`GetsStuck`), in particular on a stuck line itself. When it finishes, its result is the corrected `Braces`, and a line without `}}` comes back unchanged. |
| `AdfFormat.Hashes` | src/lib/adf-renderer.ts:95-111 | The heading prefix for level n is exactly n `#` characters. |
| `AdfFormat.HeadingLevel` | src/lib/adf-renderer.ts:95-112 | The level is 1..6 exactly when the line starts `hN. ` with that digit N, and 0 otherwise. |
| `AdfFormat.FormatLineImpl` | src/lib/adf-renderer.ts:93-128 | `formatLine` with the corrected `{{…}}` loop (`Braces`, Findings row 1) computes `FormatLine`. |
| `AdfFormat.FormatLine` | src/lib/adf-renderer.ts:93-128 | `formatLine`: a heading becomes its hashes, otherwise the `{{…}}` runs are painted and a `!…!` line becomes `Attachment` (specification function; `HeadingLine`, `AttachmentLine` and `FormatLineImpl` state it). |
| `AdfFormat.HeadingLine` | src/lib/adf-renderer.ts:95-112 | `hN. text` becomes N hashes, a space and `text`, with no further rewriting of the text. |
| `AdfFormat.AttachmentLine` | src/lib/adf-renderer.ts:93-125 | Every line that starts and ends with `!`, the one-character line `!` and lines with `{{…}}` runs included, renders as the single blue word `Attachment`. |
| `AdfFormat.BracesKeepsBangs` | src/lib/adf-renderer.ts:114-121 | The `{{…}}` loop keeps a leading and a trailing `!`, so the attachment test at line 123 sees the line's own ends. |
| `AdfFormat.BracesKeepsOut` | src/lib/adf-renderer.ts:114-121 | The `{{…}}` loop brings in no visible character the line did not have. |
| `AdfFormat.FormatLineNoBreak` | src/lib/adf-renderer.ts:93-128 | `formatLine` of a line without a line break has none. |
| `AdfFormat.FormatWordNoBreak` | src/lib/adf-renderer.ts:81-147 | With a URL parser whose hosts hold no line break, `formatWord` of a word without one has none. |
| `AdfFormat.SmartIsNormal` | src/lib/adf-renderer.ts:130-142 | Every smart link is also a normal link, so checking for a smart link first decides which rule applies. |
| `AdfFormat.IsSmartLink` | src/lib/adf-renderer.ts:130-134 | Starts with `[`, ends with `]` and contains `|smart-link` (predicate; `SmartLinkShape` states which words qualify). |
| `AdfFormat.IsNormalLink` | src/lib/adf-renderer.ts:140-142 | Starts with `[`, ends with `]` and contains `|` (predicate; `SmartIsNormal` relates it to smart links). |
| `AdfFormat.FormatSmartLink` | src/lib/adf-renderer.ts:136-138 | The host of the URL between `[` and the first `|`, with the first `www.` removed, or `None` where the URL does not parse (specification function; `SmartLinkHost` states it). |
| `AdfFormat.FormatNormalLink` | src/lib/adf-renderer.ts:144-147 | The text between `[` and the first `|`, in blue (specification function; `NormalLinkText` states it). |
| `AdfFormat.FormatWord` | src/lib/adf-renderer.ts:81-91 | A word that is not a link is unchanged. A smart link gets the smart-link rendering, and a normal, non-smart link gets the normal-link rendering. The word fails only when it is a smart link whose URL does not parse. |
| `AdfFormat.NormalLinkText` | src/lib/adf-renderer.ts:144-147 | A link of bracketed text, a bar and a target renders as the text in blue: only the part before the first bar is shown. |
| `AdfFormat.SmartLinkShape` | src/lib/adf-renderer.ts:130-134 | A bracketed URL, a bar, anything, then a bar and `smart-link` is recognised as a smart link. |
| `AdfFormat.SmartLinkHost` | src/lib/adf-renderer.ts:136-138 | A smart link renders as its URL's host with the first `www.` removed. |
| `AdfRenderer.Glue` | src/lib/adf-renderer.ts:62-65 | Adding a word to the current line adds its width, plus one for the separating space unless the line was empty. |
| `AdfRenderer.Step` | src/lib/adf-renderer.ts:61-69 | One turn of the word loop: the word joins the row when the row, the word and a space fit, otherwise the row is finished (specification function; `WrapWidths` and `WrapJoin` state its effect). |
| `AdfRenderer.Run` | src/lib/adf-renderer.ts:57-70 | The word loop over all words from an empty row (specification function; `RenderLine` is proved to compute it). |
| `AdfRenderer.Wrapped` | src/lib/adf-renderer.ts:59-72 | Wrapping always yields at least one row. |
| `AdfRenderer.WrapWidths` | src/lib/adf-renderer.ts:61-69 | Every wrapped row fits `maxLineWidth`, or is a single word that was flushed onto its own row, or is empty. |
| `AdfRenderer.NarrowWordsFit` | src/lib/adf-renderer.ts:61-69 | When every word plus one space fits, every row fits `maxLineWidth`. |
| `AdfRenderer.WrapJoin` | src/lib/adf-renderer.ts:59-72 | Joining the rows with single spaces gives back the words joined by single spaces, after a leading empty row when the first word overflows. |
| `AdfRenderer.EmptyFirstRow` | src/lib/adf-renderer.ts:61-68 | A first word too wide for the line pushes an empty row before it. |
| `AdfRenderer.WrapKeepsWords` | src/lib/adf-renderer.ts:59-72 | Wrapping keeps every word whole and in order: joining the rows, minus the leading empty row when there is one, gives the words joined by spaces. |
| `AdfRenderer.WrapKeepsText` | src/lib/adf-renderer.ts:53-72 | For any words, empty ones from consecutive spaces included, the rows hold the words' text in order: only spaces are added or dropped. |
| `AdfRenderer.Pad` | src/lib/adf-renderer.ts:44-51 | Padding keeps the line as a prefix, appends only spaces, never truncates, and reaches width max(width, `maxLineWidth`). |
| `AdfRenderer.PadAll` | src/lib/adf-renderer.ts:67-72 | Every row that is pushed is padded, one for one. |
| `AdfRenderer.FormatWords` | src/lib/adf-renderer.ts:59-60 | Each word is formatted in place. The line fails exactly when some word's formatting fails. |
| `AdfRenderer.LineRows` | src/lib/adf-renderer.ts:53-75 | A rendered line has at least one row, and every row is at least `maxLineWidth` wide. |
| `AdfRenderer.PlainLineRows` | src/lib/adf-renderer.ts:53-75 | For words that each fit, a line renders as the padded wrap of its formatted words, every row exactly `maxLineWidth` wide. |
| `AdfRenderer.RenderedFails` | src/lib/adf-renderer.ts:29-31 | The rendering of the lines fails exactly when one line's rendering fails. |
| `AdfRenderer.Rendered` | src/lib/adf-renderer.ts:29-31 | The rows of the lines, one line after the other (specification function; `RenderedFails` and `RenderedRows` state it). |
| `AdfRenderer.RenderedRows` | src/lib/adf-renderer.ts:29-31 | The lines give at least one row each, and every row is at least `maxLineWidth` wide. |
| `AdfRenderer.Normalise` | src/lib/adf-renderer.ts:21-25 | After normalisation no curly quote is left. ’ and ‘ become `'`, “ and ” become `"`, and every other character is unchanged. |
| `AdfRenderer.Filler` | src/lib/adf-renderer.ts:34-38 | Each filler row is `maxLineWidth` spaces. |
| `AdfRenderer.Rows` | src/lib/adf-renderer.ts:20-39 | The output has max(`minimumLines`, rendered rows) rows: the rendered rows first, then blank filler rows. It fails exactly when a line fails. |
| `AdfRenderer.RowsWidths` | src/lib/adf-renderer.ts:20-39 | There are at least as many rows as input lines, and every row is at least `maxLineWidth` wide. |
| `AdfRenderer.WrapNoBreak` | src/lib/adf-renderer.ts:59-72 | Words without line breaks wrap into rows without line breaks. |
| `AdfRenderer.LineRowsNoBreak` | src/lib/adf-renderer.ts:53-72 | With a URL parser whose hosts hold no line break, no row of a line holds one. |
| `AdfRenderer.RowsNoBreak` | src/lib/adf-renderer.ts:20-41 | With a URL parser whose hosts hold no line break, as `URL.host` never does, no row of `render(s)` holds one, filler rows included. |
| `AdfRenderer.RenderingSplits` | src/lib/adf-renderer.ts:20-42 | With a URL parser whose hosts hold no line break, splitting the joined output at newlines gives exactly the rows back. |
| `AdfRenderer.Rendering` | src/lib/adf-renderer.ts:20-42 | `render(s)`: the rows joined by line breaks (specification function; `Render` is proved to compute it and `RenderingSplits` to split back). |
| `AdfRenderer.ADFRenderer.constructor` | src/lib/adf-renderer.ts:15-18 | The renderer keeps its `maxLineWidth`, `minimumLines` and URL parser. |
| `AdfRenderer.ADFRenderer.RenderLine` | src/lib/adf-renderer.ts:53-75 | The word loop pushes exactly the rows of `LineRows`. |
| `AdfRenderer.ADFRenderer.Render` | src/lib/adf-renderer.ts:20-42 | The line loop and the top-up produce exactly `Rendering`. |
| `Pad.Pad` | src/lib/utils/pad.ts:3-13 | The text is always a prefix. A text already as wide as `length` is unchanged. Otherwise exactly `length` − width spaces are appended. |
| `Pad.PadWidth` | src/lib/utils/pad.ts:4-12 | When each appended space adds one to the width, the result is max(width, `length`) wide. |
| `SplitIntoLines.Indented` | src/lib/utils/split-into-lines.ts:17 | The first line is kept, and every later line gets exactly one leading space. |
| `SplitIntoLines.SplitIntoLines` | src/lib/utils/split-into-lines.ts:1-18 | The loop computes `Lines`. |
| `SplitIntoLines.WrapWords` | src/lib/utils/split-into-lines.ts:5-11 | After the loop over the words, `lines` and `currentLine` are those of the greedy run `Run` over all the words. |
| `SplitIntoLines.SplitIntoLinesDefault` | src/lib/utils/split-into-lines.ts:1 | `maxLength` defaults to 80. |
| `SplitIntoLines.Step` | src/lib/utils/split-into-lines.ts:6-10 | One iteration of the word loop (specification function; `StepConcat` states its effect). |
| `SplitIntoLines.Run` | src/lib/utils/split-into-lines.ts:5-11 | The loop state after the words (specification function; `RunInv` states its invariant and `WrapWords` that the loop computes it). |
| `SplitIntoLines.Lines` | src/lib/utils/split-into-lines.ts:1-18 | What `splitIntoLines` returns (specification function; `LinesAreGroups`, `LinesShape` and `LinesWidth` state it). |
| `SplitIntoLines.RunInv` | src/lib/utils/split-into-lines.ts:5-11 | The loop keeps its invariant: flushed lines are the trimmed word groups, and every group fits. |
| `SplitIntoLines.StepConcat` | src/lib/utils/split-into-lines.ts:5-11 | Each step appends the word to the groups, so none is split or dropped. |
| `SplitIntoLines.FlushedGroups` | src/lib/utils/split-into-lines.ts:13-15 | The final flush gives one trimmed line per group, and the groups concatenate to the words. |
| `SplitIntoLines.LinesAreGroups` | src/lib/utils/split-into-lines.ts:1-17 | There is at least one line. The lines are the word groups, whose concatenation is `text.split(" ")`, each line being the lead and the trimmed group. |
| `SplitIntoLines.LinesShape` | src/lib/utils/split-into-lines.ts:7-17 | The first line has no leading or trailing whitespace, and every later line is one space before such text. |
| `SplitIntoLines.LinesWidth` | src/lib/utils/split-into-lines.ts:6-10 | Every line is at most `maxLength` − 1 characters unless it holds a single word. |
| `SplitIntoLines.LongFirstWord` | src/lib/utils/split-into-lines.ts:6-8 | A first word longer than `maxLength` − 1 leaves the first line empty. |
| `SplitIntoLines.FirstLineFlushed` | src/lib/utils/split-into-lines.ts:6-8 | Once such a word is read, the first flushed line is empty, and stays so for the rest of the loop. |
| `SummarySlug.IsUppercaseIffNotLower` | src/lib/utils/hyphenated-summary.ts:17 | `c.toUpperCase() === c` holds exactly for characters that are not lower-case letters, digits and punctuation included. |
| `SummarySlug.MarkBoundaries` | src/lib/utils/hyphenated-summary.ts:12-24 | The `camelToSnake` loop computes `Marked`. |
| `SummarySlug.Marked` | src/lib/utils/hyphenated-summary.ts:16-24 | The loop's `result` after each character (specification function; `MarkedPerPosition` and `MarkedKeeps` state it). |
| `SummarySlug.MarkedKeeps` | src/lib/utils/hyphenated-summary.ts:16-24 | The loop only inserts hyphens: without hyphens, the result is the input. |
| `SummarySlug.MarkedPerPosition` | src/lib/utils/hyphenated-summary.ts:16-24 | A `-` goes before exactly those characters that follow a lower-case letter and are unchanged by upper-casing. |
| `SummarySlug.MarkedPrefix` | src/lib/utils/hyphenated-summary.ts:16-24 | The loop's result after n characters is the per-position marking of the first n. |
| `SummarySlug.ReplaceRuns` | src/lib/utils/hyphenated-summary.ts:6 | Replacing each run of a character class by `-` leaves no class character and no two adjacent hyphens. |
| `SummarySlug.ReplaceRunsKeeps` | src/lib/utils/hyphenated-summary.ts:6 | Replacing runs keeps, in order, every character that is neither in the class nor a hyphen. |
| `SummarySlug.CamelToSnake` | src/lib/utils/hyphenated-summary.ts:12-27 | The output has no upper-case ASCII letter and no two adjacent hyphens. |
| `SummarySlug.CamelToSnakeContent` | src/lib/utils/hyphenated-summary.ts:12-27 | Apart from hyphens, `camelToSnake` gives the lower-cased input, character for character. |
| `SummarySlug.DropTrailingHyphen` | src/lib/utils/hyphenated-summary.ts:7 | The result is the input less at most its last character, which is dropped exactly when it is `-`. |
| `SummarySlug.DropTrailingHyphenKeeps` | src/lib/utils/hyphenated-summary.ts:7 | Dropping the trailing hyphen keeps every letter and digit. |
| `SummarySlug.HyphenatedSummary` | src/lib/utils/hyphenated-summary.ts:1-10 | The slug holds only `a`–`z`, `0`–`9` and `-`, never two hyphens in a row, and never ends with `-`. |
| `SummarySlug.SlugContent` | src/lib/utils/hyphenated-summary.ts:1-10 | The slug's letters and digits are exactly those of the lower-cased summary, in order. |
| `SummarySlug.SnakeContent` | src/lib/utils/hyphenated-summary.ts:4-5 | The letters and digits of `camelToSnake` are those of the lower-cased summary. |
| `SummarySlug.SlugOfSnake` | src/lib/utils/hyphenated-summary.ts:5-8 | The replacements after `camelToSnake` keep its letters and digits. |
| `SummarySlug.NoTripleHyphen` | src/lib/utils/hyphenated-summary.ts:8 | The final `replace("---", "-")` never changes the string. |
| `BranchName.FormatBranchName` | src/lib/utils/format-branch-name.ts:4-16 | Without a format, the branch name is `issueKey-slug`. |
| `BranchName.FillTemplate` | src/lib/utils/format-branch-name.ts:11-13 | The chain of three `replace` calls on the template (specification function; `FillInOrder`, `NoPlaceholders` and `OnlyFirstOccurrence` state it). |
| `BranchName.NoPlaceholders` | src/lib/utils/format-branch-name.ts:11-13 | A format without `$` is returned unchanged. |
| `BranchName.FillInOrder` | src/lib/utils/format-branch-name.ts:11-13 | The three replacements fill key, summary and type into their placeholders in order. |
| `BranchName.EachPlaceholderReplaced` | src/lib/utils/format-branch-name.ts:9-13 | A template with the three placeholders receives the key, the slug and the lower-cased issue type. |
| `BranchName.OnlyFirstOccurrence` | src/lib/utils/format-branch-name.ts:11 | Only the first `$issueKey` is replaced. A second one stays. |
| `ParseKeybind.ParseKeybind` | src/lib/keybinds/parse-keybind.ts:3-20 | A single key parses as `parseSingleKeybind` of it, with no aliases. An array's main binding is its first element's parse, with one alias per remaining element, in order. |
| `ParseKeybind.ParseSingleKeybind` | src/lib/keybinds/parse-keybind.ts:22-59 | Every parse has at most one modifier and no aliases. |
| `ParseKeybind.ParsePlainKey` | src/lib/keybinds/parse-keybind.ts:50 | Any other `+`-free key parses to itself with no modifiers. |
| `ParseKeybind.ParseNamedKeys` | src/lib/keybinds/parse-keybind.ts:24-48 | The four escape spellings give key `""` with modifier `escape`. `return`/`<return>` give `<return>`, the arrows give key `""` with the arrow as modifier, and `space` gives `<space>`. |
| `ParseKeybind.ParseCombination` | src/lib/keybinds/parse-keybind.ts:53-75 | `mod + c` yields one modifier: `alt` becomes `meta`, `shift` upper-cases the key, and others pass through. |
| `ParseKeybind.ParseModifier` | src/lib/keybinds/parse-keybind.ts:61-75 | The parts around the first ` + `, `alt` reported as `meta` and `shift` upper-casing the key (specification function; `ParseCombination` states it). |
| `ParseKeybind.AliasesOf` | src/lib/keybinds/parse-keybind.ts:11-15 | One alias per further key, in order, each the parse of its key. |
| `Keybinds.ToDisplay` | src/atoms/keybinds.atom.ts:53-55 | An entry is the name, `: `, then the key. |
| `Keybinds.DisplayEntries` | src/atoms/keybinds.atom.ts:50 | One entry per keybinding, in order. |
| `Keybinds.KeyIndex` | src/atoms/keybinds.atom.ts:46-48 | The position of the first binding with the key, or −1 when there is none. |
| `Keybinds.LastKeyIndex` | src/atoms/keybinds.atom.ts:20-22 | `lastIndexOf` on the keys: the position of the last binding with the key, or −1 when there is none. |
| `KeybindHandler.ResolveKey` | src/keybind-handler.tsx:68-76 | `<space>` gives `" "`, `<enter>`/`<return>`/`<CR>` give `"\r"`, `<esc>` gives `""`, and every other key is unchanged. |
| `KeybindHandler.AllHeld` | src/keybind-handler.tsx:44-45 | `every` holds exactly when each listed modifier is held. |
| `KeybindHandler.BaseMatches` | src/keybind-handler.tsx:42-45 | The resolved key is the input and every modifier is held (predicate; `ShouldTrigger` and the `Parsed…Triggers` lemmas state it). |
| `KeybindHandler.AliasMatches` | src/keybind-handler.tsx:55-65 | A bare alias matches on its resolved key, an alias with a key also needs its modifiers (predicate; `AnyAliasMatches` and `ShouldTrigger` state it). |
| `KeybindHandler.AnyAliasMatches` | src/keybind-handler.tsx:55-65 | `some` holds exactly when one alias matches. |
| `KeybindHandler.ShouldTrigger` | src/keybind-handler.tsx:37-66 | A binding triggers exactly when its base matches, or one of its aliases matches. |
| `KeybindHandler.MoreModifiersStillTrigger` | src/keybind-handler.tsx:42-65 | Holding extra modifiers never turns a match into a non-match. |
| `KeybindHandler.ParsedCharacterTriggers` | src/keybind-handler.tsx:42-45 | A parsed single character triggers on exactly that input, whatever is held. |
| `KeybindHandler.ParsedCombinationTriggers` | src/keybind-handler.tsx:42-45 | A parsed `mod + c` triggers exactly on its (possibly upper-cased) key with its modifier held. |
| `KeybindHandler.ParsedNamedKeyTriggers` | src/keybind-handler.tsx:42-45 | A parsed named key triggers exactly on its resolved input, with its flag held when it has one. |
| `KeybindHandler.HandleInput` | src/keybind-handler.tsx:14-32 | With input ignored nothing fires. Otherwise the loop fires exactly what `Dispatch` fires, and threads the world through the handlers. |
| `KeybindHandler.Dispatch` | src/keybind-handler.tsx:21-29 | The bindings fired and the world they leave, each `when` evaluated after the earlier handlers (specification function; `DispatchInOrder`, `DispatchFiresEnabledMatches` and `NoMatchNoEffect` state it). |
| `KeybindHandler.DispatchBelow` | src/keybind-handler.tsx:21-29 | Only bindings among the first n visited can have fired. |
| `KeybindHandler.DispatchInOrder` | src/keybind-handler.tsx:21-29 | The handlers fire in list order, each at most once. |
| `KeybindHandler.DispatchFiresEnabledMatches` | src/keybind-handler.tsx:21-29 | A binding fires exactly when its `when` is absent or true at that moment and it matches the input. |
| `KeybindHandler.NoMatchNoEffect` | src/keybind-handler.tsx:21-29 | An input that matches no binding fires nothing and leaves the world unchanged. |
| `KeybindRegistry.Reduce` | src/atoms/keybinds.atom.ts:9-35 | Register appends and keeps the earlier entries. Unregister of an absent key changes nothing. Otherwise it removes exactly the last entry with that key and keeps the order of the rest. |
| `KeybindRegistry.RegisterThenUnregister` | src/atoms/keybinds.atom.ts:13-31 | Registering and then unregistering a binding restores the list. |
| `KeybindRegistry.MapSet` | src/atoms/keybinds.atom.ts:46-48 | `Map.set`: a present key keeps its place with the new value, a new key goes to the end (specification function; the `MapValues…` lemmas state its effect). |
| `KeybindRegistry.MapValues` | src/atoms/keybinds.atom.ts:46-50 | The map's values in iteration order (specification function; `MapValuesDistinct`, `MapValuesCoverList`, `MapValuesFromList`, `MapValuesLast` and `MapValuesOrder` state it). |
| `KeybindRegistry.Display` | src/atoms/keybinds.atom.ts:41-51 | `keybindsDisplayAtom`: the entries of the map values joined by a bar between single spaces (specification function over `MapValues`). |
| `KeybindRegistry.KeyIndexAppend` | src/atoms/keybinds.atom.ts:46-48 | Appending a binding does not move a key's first appearance, and a new key first appears at the end. |
| `KeybindRegistry.LastKeyIndexAppend` | src/atoms/keybinds.atom.ts:20-22 | Appending a binding with the key makes it the last one, and appending another key leaves `lastIndexOf` unchanged. |
| `KeybindRegistry.MapValuesDistinct` | src/atoms/keybinds.atom.ts:46-50 | The display has at most one entry per key. |
| `KeybindRegistry.MapValuesCoverList` | src/atoms/keybinds.atom.ts:46-48 | Every registered key has a display entry. |
| `KeybindRegistry.MapValuesFromList` | src/atoms/keybinds.atom.ts:46-48 | Every display entry comes from the list. |
| `KeybindRegistry.MapValuesLast` | src/atoms/keybinds.atom.ts:46-48 | Each entry is the last binding registered for its key. |
| `KeybindRegistry.MapValuesOrder` | src/atoms/keybinds.atom.ts:46-50 | Entries are ordered by the first appearance of their key. |
| `ToKeybindsDisplay.Visible` | src/lib/keybinds/to-keybinds-display.ts:9 | No hidden binding survives the filter. |
| `ToKeybindsDisplay.ToKeybindsDisplay` | src/lib/keybinds/to-keybinds-display.ts:3-12 | The visible bindings as `name: key`, joined by a bar between single spaces (specification function; `AllHiddenEmpty`, `NothingHiddenAllShown`, `VisibleFirstEntry` and `HiddenContributesNothing` state it). |
| `ToKeybindsDisplay.AllHiddenEmpty` | src/lib/keybinds/to-keybinds-display.ts:8-11 | An empty or all-hidden list displays as `""`. |
| `ToKeybindsDisplay.NothingHiddenAllShown` | src/lib/keybinds/to-keybinds-display.ts:10-11 | Without hidden bindings, every binding is shown as `name: key` in order, duplicates included, joined by a bar between single spaces. |
| `ToKeybindsDisplay.VisibleFirstEntry` | src/lib/keybinds/to-keybinds-display.ts:8-11 | A visible first binding leads the display, followed by the bar separator and the rest when the rest shows anything. |
| `ToKeybindsDisplay.HiddenContributesNothing` | src/lib/keybinds/to-keybinds-display.ts:9 | A hidden binding contributes nothing. |
| `Board.ColumnKey` | src/board.tsx:10-24 | Three status names map, case-insensitively, to `to do`, `merge to epic` and `done`. Any other name becomes its lower-cased self, so no key holds an upper-case letter. |
| `Board.ColumnKeyIgnoresCase` | src/board.tsx:10-24 | Status names that differ only in letter case go to the same column. |
| `Board.GroupBy` | src/board.tsx:8-26 | `Object.groupBy` by column key (specification function; `GroupByPartitions` states it). |
| `Board.GetColumn` | src/board.tsx:28-33 | The group of the lower-cased column name, or none (specification function; `ColumnContents` states it). |
| `Board.InColumn` | src/board.tsx:9 | The issues of one column, all with that column's key. |
| `Board.GroupByPartitions` | src/board.tsx:8-26 | Each group holds exactly the issues with its key, in their original order. Groups are never empty, and a missing key has no issues. |
| `Board.ColumnContents` | src/board.tsx:28-33 | `getColumn` gives the issues whose key is the lower-cased column name, and `[]` when there are none. |
| `Board.FilterByAssignee` | src/board.tsx:54-56 | Every remaining issue is assigned to one of `filteredUsers`. |
| `Board.FilterKeepsSelected` | src/board.tsx:54-56 | An issue survives the filter exactly when its assignee is in `filteredUsers`. |
| `Board.CheckAndSetTop` | src/board.tsx:70-81 | `top` moves by at most one issue height and never goes negative. |
| `Board.CheckAndSetLeft` | src/board.tsx:83-94 | `left` moves by at most one column width and never goes negative. |
| `Board.Down` | src/board.tsx:99-112 | `j`: the index becomes min(len − 1, index + 1) and `top` is adjusted (specification function; `MovesAreSteps` and `MovesKeepCursorValid` state it). |
| `Board.Up` | src/board.tsx:113-123 | `k`: the index becomes max(0, index − 1) and `top` is adjusted (specification function; `MovesAreSteps` and `MovesKeepCursorValid` state it). |
| `Board.ToColumn` | src/board.tsx:126-141 | The shared half of `h`/`l`: clamps the issue index to the new column and adjusts `left` and `top` (specification function; `MovesAreSteps` states it). |
| `Board.LeftColumn` | src/board.tsx:124-142 | `h`: one column left, not before the first (specification function; `MovesAreSteps` states it). |
| `Board.RightColumn` | src/board.tsx:143-162 | `l`: one column right, not past the last (specification function; `MovesAreSteps` states it). |
| `Board.MovesKeepCursorValid` | src/board.tsx:96-164 | j/k/h/l keep the column on the board, the issue index within −1 and max(len − 1, 0), and the offsets non-negative. |
| `Board.MovesAreSteps` | src/board.tsx:99-162 | `j` and `k` stay in the column and move by one where there is room. `h` and `l` move one column, clamped, and never increase the issue index. |
| `Board.BoardView.constructor` | src/board.tsx:35-58 | The board groups the filtered issues and starts on the first issue of the first column, scrolled to the top left. |
| `Board.BoardView.SetIssues` | src/board.tsx:35-58 | A render with new `issues` or `filteredUsers` regroups the filtered issues and keeps the cursor and the offsets, which are component state. |
| `Board.BoardView.HandleInput` | src/board.tsx:96-164 | From any cursor on an existing column, even one past the end of its column after the issues changed, each key moves the cursor exactly as `Down`, `Up`, `LeftColumn` or `RightColumn` say, and ignored input changes nothing. A valid cursor stays valid. |
| `Board.StaleCursorMoves` | src/board.tsx:96-164 | From a cursor past the end of its column, `j` returns it to the column's last issue, and `h` and `l` clamp it into the new column. `k` moves it up by one, which makes it valid exactly when it was at most one past the end. |
| `Board.BoardView.MoveToColumn` | src/board.tsx:124-162 | The shared half of `h`/`l` sets the column, clamps the issue index and adjusts `left` and `top`. |
| `Issues.FindIndex` | src/api/transition-issue.mutation.ts:74-76 | `findIndex` gives the first position with the id, or −1 when there is none. |
| `Issues.MapMatching` | src/api/transition-issue.mutation.ts:43-57 | The `map` updates every issue with the id and leaves the others and the order as they were. |
| `Issues.QueryCache.Restore` | src/api/update-issue.mutation.ts:72-75 | On error the cache gets back the saved list, or `[]` when there is no context. |
| `TransitionIssue.WithStatus` | src/api/transition-issue.mutation.ts:45-53 | The issue keeps its id, key and other fields, and its status becomes `{id: newStatusId}`. |
| `TransitionIssue.Transitioned` | src/api/transition-issue.mutation.ts:43-57 | The list `onMutate` writes (specification function; `TransitionedChangesOnlyStatus` and `TransitionTwice` state it). |
| `TransitionIssue.OnScreen` | src/api/transition-issue.mutation.ts:89-100 | The card starts inside the five-by-five window of the offset (predicate; `ScrollToShows` and `LocateFound` use it). |
| `TransitionIssue.TransitionedChangesOnlyStatus` | src/api/transition-issue.mutation.ts:43-57 | Only the issue with the id changes, and only its status. The length and order stay. |
| `TransitionIssue.TransitionTwice` | src/api/transition-issue.mutation.ts:43-57 | A second transition of the same issue overrides the first. |
| `TransitionIssue.ScrollToAsWritten` | src/api/transition-issue.mutation.ts:84-115 | As written: an issue on screen keeps the offset; otherwise `top` is index·7 and `left` is (column − 5)·36 for a column index above 5, and 0 otherwise. |
| `TransitionIssue.AsWrittenMissesRightColumns` | src/api/transition-issue.mutation.ts:103-111 | As written, an off-screen issue in column 5 or later is still off screen after the update. |
| `TransitionIssue.AsWrittenSixthColumn` | src/api/transition-issue.mutation.ts:103-111 | Column 5, index 0, from offset (0, 200) scrolls to (0, 0), where column 5 is not visible. |
| `TransitionIssue.ScrollTo` | src/api/transition-issue.mutation.ts:84-115 | The corrected rule: an issue on screen keeps the offset; otherwise `top` is index·7 and `left` is non-negative. |
| `TransitionIssue.ScrollToShows` | src/api/transition-issue.mutation.ts:89-111 | After the corrected update the issue is on screen, and a second update changes nothing. |
| `TransitionIssue.ScrollRulesAgreeOnFirstScreen` | src/api/transition-issue.mutation.ts:103-111 | For columns 0..4 the written rule and the corrected rule agree. |
| `TransitionIssue.Locate` | src/api/transition-issue.mutation.ts:73-117 | The highlight and offset after the `forEach` over the first n columns (specification function; `LocateAbsent` and `LocateFound` state it). |
| `TransitionIssue.LocateAbsent` | src/api/transition-issue.mutation.ts:73-117 | When no column holds the issue, the highlight and the offset are left alone. |
| `TransitionIssue.LocateFound` | src/api/transition-issue.mutation.ts:73-117 | When one column holds the issue, the highlight is its column and first index, and the offset is the as-written scroll rule applied to the old offset. The issue ends up on screen exactly when its column is among the first five or it was on screen already. |
| `TransitionIssue.BoardStore.constructor` | src/atoms/highlighted-issue.atom.ts:3-17 | The highlight starts at column 0, index 0 with no id, and the offset at (0, 0). |
| `TransitionIssue.BoardStore.FollowIssue` | src/api/transition-issue.mutation.ts:73-117 | The `forEach` leaves the highlight and offset at `Locate` of the grouped columns. |
| `TransitionIssue.OnMutate` | src/api/transition-issue.mutation.ts:38-121 | Returns the old list as context and writes the transitioned list. Without a board the highlight and offset stay; with one they follow the issue. |
| `TransitionIssue.TransitionFails` | src/api/transition-issue.mutation.ts:122-125 | After `onMutate`, an error restores the pre-mutation list. |
| `UpdateIssue.Spread` | src/api/update-issue.mutation.ts:47-51 | Spreading an object gives its entries, and spreading nothing, null or a scalar gives none. |
| `UpdateIssue.Merged` | src/api/update-issue.mutation.ts:45-56 | A plain object is shallow-merged over the old field, with new keys winning and old keys kept. Scalars and arrays replace the field, and `null` keeps an old object. |
| `UpdateIssue.MergedTwice` | src/api/update-issue.mutation.ts:45-56 | Merging the same value twice is the same as once. |
| `UpdateIssue.Updates` | src/api/update-issue.mutation.ts:44-56 | `updatedFields` after the first n entries (specification function; `UpdatesKeys` and `UpdatesLast` state it). |
| `UpdateIssue.UpdatesKeys` | src/api/update-issue.mutation.ts:44-56 | `updatedFields` has exactly the keys named in `variables.fields`. |
| `UpdateIssue.UpdatesLast` | src/api/update-issue.mutation.ts:44-56 | A key's entry is the merge of its last value over the issue's field. |
| `UpdateIssue.UpdatedFields` | src/api/update-issue.mutation.ts:42-56 | The `for` loop builds exactly `Updates`. |
| `UpdateIssue.UpdatedIssue` | src/api/update-issue.mutation.ts:57-63 | The issue with `updatedFields` spread over its fields (specification function; `UnnamedFieldKept`, `NamedFieldMerged` and `UpdatedIssueTwice` state it). |
| `UpdateIssue.UnnamedFieldKept` | src/api/update-issue.mutation.ts:57-63 | A field not named in `variables.fields` is unchanged. |
| `UpdateIssue.NamedFieldMerged` | src/api/update-issue.mutation.ts:44-63 | A named field becomes the merge of its value over the old field. |
| `UpdateIssue.UpdatedIssueTwice` | src/api/update-issue.mutation.ts:41-63 | Applying the same update twice is the same as once. |
| `UpdateIssue.Updated` | src/api/update-issue.mutation.ts:38-67 | The list `onMutate` writes (specification function; `UpdatedChangesOnlyTarget` states it). |
| `UpdateIssue.UpdatedChangesOnlyTarget` | src/api/update-issue.mutation.ts:38-67 | Only the issue with the id changes. The length, order, ids and keys stay, and a repeat is a no-op. |
| `UpdateIssue.OnMutate` | src/api/update-issue.mutation.ts:31-71 | Returns the old list as context and writes the updated list. |
| `UpdateIssue.UpdateFails` | src/api/update-issue.mutation.ts:72-75 | After `onMutate`, an error restores the pre-mutation list. |
| `SelectUsersModal.Marks` | src/modals/select-users-modal.tsx:42 | Each option maps to its own index or to −1. |
| `SelectUsersModal.InitialSelectionContents` | src/modals/select-users-modal.tsx:40-44 | The initial selection is the ascending indices of the options in `initialSelected`, each once. |
| `SelectUsersModal.InitialSelection` | src/modals/select-users-modal.tsx:40-44 | The indices of options in `initialSelected` (specification function; `InitialSelectionContents` states it). |
| `SelectUsersModal.ToggledContents` | src/modals/select-users-modal.tsx:86-93 | Space flips exactly the focused index and keeps the selection free of duplicates. |
| `SelectUsersModal.Toggled` | src/modals/select-users-modal.tsx:86-93 | Space removes a selected index and appends an unselected one (specification function; `ToggledContents` and `ToggledTwice` state it). |
| `SelectUsersModal.ToggledTwice` | src/modals/select-users-modal.tsx:86-93 | Toggling twice restores the set of selected indices, and the very list when the index was unselected. |
| `SelectUsersModal.Chosen` | src/modals/select-users-modal.tsx:103-107 | Confirm gives the options at the selected indices in selection order, or all options when nothing is selected. |
| `SelectUsersModal.MaxLength` | src/modals/select-users-modal.tsx:49-52 | The width is the maximum of each display name's length + 6 and the title's length + 6. |
| `SelectUsersModal.SelectUsers.constructor` | src/modals/select-users-modal.tsx:39-47 | The atoms start with no options, focus 0 and an empty selection. |
| `SelectUsersModal.SelectUsers.Open` | src/modals/select-users-modal.tsx:39-47 | Opening sets the options and the initial selection and leaves the shared focus where it was; the state is valid when that focus is within the new options. |
| `SelectUsersModal.SelectUsers.Down` | src/modals/select-users-modal.tsx:61-67 | Focus becomes min(n − 1, focus + 1) and stays in range. |
| `SelectUsersModal.SelectUsers.Up` | src/modals/select-users-modal.tsx:74-76 | Focus becomes max(0, focus − 1) and stays in range. |
| `SelectUsersModal.SelectUsers.Toggle` | src/modals/select-users-modal.tsx:82-94 | Space applies `Toggled` and keeps the state valid. |
| `SelectUsersModal.SelectUsers.Confirm` | src/modals/select-users-modal.tsx:100-109 | Confirm hands back `Chosen`, every user defined while the state is valid. |
| `SelectLinkedResources.AllApproved` | src/modals/select-linked-resources.modal.tsx:73-76 | Holds exactly when the reviewer list is present, non-empty and all approved. |
| `SelectLinkedResources.StatusSuffix` | src/modals/select-linked-resources.modal.tsx:77-82 | ` (status)`, lower-cased, when not OPEN. ` (approved)` exactly when OPEN and all approved, and nothing otherwise. |
| `SelectLinkedResources.ToOption` | src/modals/select-linked-resources.modal.tsx:84-90 | The option carries the status, the URL, `allApproved` and the label `[repo] name` plus the suffix. |
| `SelectLinkedResources.IssueUrl` | src/modals/select-linked-resources.modal.tsx:70 | `<base>/browse/<key>` (specification function; `BuildOptions` states the Jira option carries it). |
| `SelectLinkedResources.MergeRequestOptions` | src/modals/select-linked-resources.modal.tsx:72-91 | One option per merge request, in order, each its `ToOption`. |
| `SelectLinkedResources.BuildOptions` | src/modals/select-linked-resources.modal.tsx:66-92 | The Jira option with `<base>/browse/<key>` comes first, then one option per merge request in order. |
| `SelectLinkedResources.Reviewable` | src/modals/select-linked-resources.modal.tsx:34-41 | `openMergeRequestOptionsAtom` (specification function; `ReviewableOptions` and `JiraNeverReviewable` state it). |
| `SelectLinkedResources.ReviewableOptions` | src/modals/select-linked-resources.modal.tsx:34-41 | Reviewable options are exactly those of OPEN merge requests not approved by everyone, and their labels carry no suffix. |
| `SelectLinkedResources.JiraNeverReviewable` | src/modals/select-linked-resources.modal.tsx:34-41 | The Jira option is never reviewable. |
| `SelectLinkedResources.ReviewableNonEmpty` | src/modals/select-linked-resources.modal.tsx:148 | The `a` binding is enabled exactly when some option is reviewable. |
| `SelectLinkedResources.MaxLength` | src/modals/select-linked-resources.modal.tsx:104-109 | The width is the maximum of each label's length + 8 and 34. |
| `SelectLinkedResources.LinkedResources.constructor` | src/modals/select-linked-resources.modal.tsx:65-99 | The dialog opens with only the Jira option, focused. |
| `SelectLinkedResources.LinkedResources.SetMergeRequests` | src/modals/select-linked-resources.modal.tsx:65-95 | The options are rebuilt when the merge requests load, and the focus is left where it was. |
| `SelectLinkedResources.LinkedResources.ResetFocus` | src/modals/select-linked-resources.modal.tsx:97-99 | The mount effect focuses the first option. |
| `SelectLinkedResources.LinkedResources.Up` | src/modals/select-linked-resources.modal.tsx:118-120 | Focus becomes max(0, focus − 1) and stays in range. |
| `SelectLinkedResources.LinkedResources.Down` | src/modals/select-linked-resources.modal.tsx:127-131 | Focus becomes min(n − 1, focus + 1) and stays in range. |
| `SelectLinkedResources.LinkedResources.Confirm` | src/modals/select-linked-resources.modal.tsx:137-142 | Confirm opens the focused option's URL. |
| `SelectLinkedResources.LinkedResources.OpenAllReviewable` | src/modals/select-linked-resources.modal.tsx:149-157 | `a` opens the URL of every reviewable option, in order. |
| `ModalsAtom.Flags.With` | src/atoms/modals.atom.ts:16-22 | Setting one flag changes that flag and no other. |
| `ModalsAtom.Flags.InputDisabled` | src/atoms/modals.atom.ts:12-14 | Input is disabled exactly when some modal is open. |
| `ModalsAtom.WithIdempotent` | src/atoms/modals.atom.ts:16-22 | Opening or closing twice is the same as once. |
| `ModalsAtom.OpenCloseInput` | src/atoms/modals.atom.ts:12-22 | After opening, input is disabled. After closing one modal, input is disabled exactly when another is open. |
| `ModalsAtom.Modals.constructor` | src/atoms/modals.atom.ts:5-10 | All four flags start false, and input is enabled. |
| `ModalsAtom.Modals.OpenModal` | src/atoms/modals.atom.ts:16-18 | Sets the flag and disables input. |
| `ModalsAtom.Modals.CloseModal` | src/atoms/modals.atom.ts:20-22 | Clears the flag and leaves the others. |
| `BoardSearchAtom.Reset` | src/atoms/board-search.atom.ts:9-12 | Reset returns to the empty, disabled search. |
| `BoardSearchAtom.Activate` | src/atoms/board-search.atom.ts:14-16 | The state becomes active, and the text is kept. |
| `BoardSearchAtom.Deactivate` | src/atoms/board-search.atom.ts:18-20 | The state becomes result, and the text is kept. |
| `BoardSearchAtom.ActionsIdempotent` | src/atoms/board-search.atom.ts:9-20 | Each action is idempotent, and activate and deactivate override each other. |
| `BoardSearchAtom.BoardSearchStore.constructor` | src/atoms/board-search.atom.ts:3-7 | The search starts as `""`, disabled. |
| `BoardSearchAtom.BoardSearchStore.ResetBoardSearch` | src/atoms/board-search.atom.ts:9-12 | The write atom applies `Reset`. |
| `BoardSearchAtom.BoardSearchStore.ActivateBoardSearch` | src/atoms/board-search.atom.ts:14-16 | The write atom applies `Activate`. |
| `BoardSearchAtom.BoardSearchStore.DeactivateBoardSearch` | src/atoms/board-search.atom.ts:18-20 | The write atom applies `Deactivate`. |
| `ActiveViewAtom.ReadPrevious` | src/atoms/active-view.atom.ts:9 | Reading `previousViewAtom` gives the current active view. |
| `ActiveViewAtom.Write` | src/atoms/active-view.atom.ts:10-14 | Writing makes the new view active and stores the old active view. |
| `ActiveViewAtom.WriteTwice` | src/atoms/active-view.atom.ts:10-14 | After writing v1 and then v2, v2 is active and v1 is stored. |
| `ActiveViewAtom.EnterThenLeaveRestores` | src/atoms/active-view.atom.ts:10-14 | Writing back the view that was read before a write restores the active view. |
| `ActiveViewAtom.ActiveViewStore.constructor` | src/atoms/active-view.atom.ts:3-5 | Both the active and the stored view start null. |
| `ActiveViewAtom.ActiveViewStore.PreviousView` | src/atoms/active-view.atom.ts:9 | The read half gives `ReadPrevious`. |
| `ActiveViewAtom.ActiveViewStore.SetActiveView` | src/atoms/active-view.atom.ts:10-14 | The write half applies `Write`. |

## Left out

- Case mapping is ASCII only (`toLowerCase`/`toUpperCase` on other letters is not modelled). Lengths count characters (code points), not UTF-16 code units.
- chalk's colour levels are not modelled. Neither is its re-opening of a style inside nested styled text: a style is one opening and one closing token.
- `ansiRegex` is not modelled as a regular expression: escape sequences are tokens. Description text is taken to contain no raw escape sequences.
- `new URL(..)` is the `urlHost` parameter. When it throws, the rendering is `None` instead of an exception. That a host never holds a line break is the assumption `HostsNoBreak`, not a proved fact.
- `stringWidth` (bun) in `pad` is the `width` parameter. `Pad.PadWidth` states the width only for a `width` that counts each space as one.
- React hooks, `useEffect` ordering, the jotai store and react-query's cancel/invalidate calls are left out. So are the network requests (`request`) and `log`. The atoms and the cache are plain fields.
- `process.exit()` on Ctrl+C (src/keybind-handler.tsx:17-19) is left out.
- `ParseKeybind.ParseKeybind`: requires every name to be well formed (`+` only as ` + ` between a modifier and one character). The source's type `Key` admits nothing else.
- `ParseKeybind.ParseSingleKeybind`: states only the shape of every result. The exact results are stated per case by `ParseNamedKeys`, `ParsePlainKey` and `ParseCombination`.
- `Array.prototype.includes` compares users and options by reference. The model compares values.
- JSON values in the issue cache are a small `Json` datatype with integer numbers. `undefined` field values and key order are not modelled.
- src/atoms/scroll-offset.atom.ts is not part of this model. The offset starts at (0, 0).
- The transition mutation calls a two-argument `groupIssuesByColumn` (src/api/transition-issue.mutation.ts:68-71) that src/board.tsx does not export. The grouping is a parameter, and `None` stands for no board in the cache.
- The `$` replacement patterns of `String.prototype.replace` are not modelled. `BranchName.EachPlaceholderReplaced` requires a key without `$`.
- `hyphenatedSummary(null)` is not modelled, because the summary is always a string.
- `AdfRenderer.WrapJoin`: requires every word to be non-empty. Consecutive spaces produce empty words whose joined form differs.
- `AdfRenderer.WrapKeepsWords`: requires every word to be non-empty, although `line.split(" ")` (src/lib/adf-renderer.ts:56) gives empty words on consecutive spaces. An empty word glued onto an empty row adds no space, so the spaces of the join are not kept then. For every input, `WrapKeepsText` states that the text of the words is kept, in order.
- `AdfFormat.FormatLine`: rendering uses the corrected `{{…}}` loop `Braces`. On a line where `GetsStuck` holds (`}}{{`, `{{a}} }} {{b`), the source's `render` never returns, while the model renders rows; so do `FormatLineImpl`, `LineRows`, `RenderLine`, `Render` and `Rendering`. On every other line `FormatBracesAsWritten` proves that the two loops agree.
- `Board.BoardView.constructor`: requires at least one column. With none, `j`/down and `h`/left read `columns[0]!` and `l`/right reads `columns[-1]!`, which are undefined, so those keys crash. `k`/up, every other key and ignored input do not.
- `Board.BoardView.SetIssues`: only `issues` and `filteredUsers` change between renders. The `columns` prop is fixed for the view's lifetime, so a cursor left on a column that a new `columns` no longer has is not modelled.
- `Board.BoardView.HandleInput`: `key.downArrow` and the other arrows are read from the set of held flags.
- `SelectUsersModal.SelectUsers.Open`: keeps the state valid only when the focus left by an earlier opening is within the new options. `focusedAtom` is module-level and the source never resets it.
- `SelectLinkedResources.LinkedResources.SetMergeRequests`: keeps the state valid only when the focus was on the first option, as the mount effect leaves it. The source does not re-clamp the focus.
- The `description` passed to the renderer by the view-issue modal, and the ADF node types, are not part of this model.

## Findings

| source | as written | input that shows it | evidently intended | confidence | as-written member | corrected member |
|---|---|---|---|---|---|---|
| src/lib/adf-renderer.ts:114-121 | The loop looks for the first `}}` anywhere in the line. When it comes before the first `{{`, the replacement keeps both markers and repeats the text between them, so the loop never ends. | `}}{{` (also `a}} b{{`) | Close the span at the first `}}` after the `{{`, so the loop always ends. | not executed | `AdfFormat.StuckStaysStuck`, `AdfFormat.StuckExample`, `AdfFormat.GetsStuck`, `AdfFormat.FormatBracesAsWritten` | `AdfFormat.Braces`, `AdfFormat.FormatBraces` |
| src/api/transition-issue.mutation.ts:103-111 | An issue off screen to the right gets `left = column·36 − 180`, five columns before it, so it sits just past the right edge. | column 5, index 0, previous offset (0, 200): the new offset (0, 0) shows columns 0–4 only | Set `left` so that the issue's column is inside the five visible columns. | not executed | `TransitionIssue.ScrollToAsWritten`, `TransitionIssue.AsWrittenMissesRightColumns`, `TransitionIssue.AsWrittenSixthColumn` | `TransitionIssue.ScrollTo`, `TransitionIssue.ScrollToShows` |
