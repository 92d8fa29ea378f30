# obsidian-shiki-plugin, modelled in Dafny

This project models the core of obsidian-shiki-plugin, an Obsidian plugin that
highlights fenced and inline code blocks with Shiki and lets the user edit a
rendered code block in place. Each Dafny module follows one source file:

- `Cm6Util` covers the range helpers of the CodeMirror 6 integration: closed-interval overlap,
  selection overlap, document slicing, and "is any decoration here".
- `ViewPlugin` covers the CodeMirror view plugin:
  - the decoration store, a class over a sequence of decorations;
  - the pass over the syntax nodes, with its inline-code, code-line and block-end branches;
  - `removeDecoration`, `addDecoration` and `buildDecorations`, which turns Shiki tokens into abutting marks.
- `Highlighter` covers the token style (font-style bits to class names), the safe-language filter,
  the guard in front of the tokenizer, and the loading of custom theme and language files:
  the `.json` filter, validation, normalisation, the sort by display name and the fallback theme.
- `ThemeMapper` covers the colour-to-placeholder mapping of the built-in theme:
  - hex placeholders, which are injective and six digits below 16^6;
  - the mapping kept in insertion order;
  - `fixNode`/`fixAST`, which substitute every placeholder back by its colour;
  - the theme selection.
- `FenceParse` is the fence-opening pattern `reg_code` and the split of the language input field.
  Every line of the pattern's shape parses into exactly its parts, and on a single line the parts glue back to it.
- `CodeBlock` is `getMetaString` of the code-block processor: the lazy prefix, the backtracking
  fence run, and the meta text after `<shorthand> `.
- `HostEditor` is the host's editor as far as the edit handlers see it: its lines, `replaceRange` and `setCursor`.
- `LineEdits` holds what both editable-code-block variants share:
  - the textarea and what its `value`, `selectionStart` and `selectionEnd` setters do, following
    the text control selection rules of the HTML standard: positions taken modulo 2^32, clamped to
    the value, and a start past the end collapsed;
  - the line bounds of a textarea selection;
  - Tab and Shift-Tab on a block of lines, and Tab as an indent insertion;
  - the arrow keys: the first-line and last-line tests, and the callbacks that pass focus between the two edit areas;
  - the two line edits of a save;
  - the source fix before highlighting.
- `ObsidianCodeblock` is `src/EditableCodeblock.ts`: `createCodeBlockInfo`, the constructor,
  Tab, the arrow keys, `saveContent` and the source handed to `renderPre`.
- `GeneralCodeblock` is `src/general/EditableCodeblock.ts`: the handlers of the textarea and of
  the language input, the composing flag, the save-mode switch, the Tab handler with Shift-Tab,
  and the caret restoration over text nodes.
- `CodeblockInOb` is `src/general/EditableCodeblockInOb.ts`: `init_outerInfo2`, the cached
  active editor, the arrow keys, and `emit_save_unsafe` with its logged warnings.
- `Registration` is `registerCodeBlockProcessors` of `src/main.ts`: every alias of every bundled
  language is registered once, to the first language that claims it, unless it is blacklisted.
- `LoadedLanguage`, `LLog` and `PrismFilter` model the three small classes of those names:
  - the per-alias language list and its default;
  - the levelled logger and its prefix;
  - Prism's filter-highlight-all plugin, a list of filters that must all accept an element.
- `JsString` and `Wrappers` give the JavaScript string operations the core uses, with their
  edge cases: `split`, `join`, `substring`, `slice`, `indexOf`, `lastIndexOf`, `\s` against `.`,
  and `replaceAll` with a replacement taken literally (no `$` patterns).
  They also give `Option`/`Result`.

Points the model follows from the code:

- Ranges are closed intervals: `checkRangeOverlap` and `RangeSet.between` include the endpoints.
- The fence language is `^```(\S+)`, with no white space allowed before the name.
- A block without a language is left alone rather than cleared.
- `forceUpdate` runs a pass over the existing store without clearing it.
- `buildDecorations` does not await the tokenizer (see Findings).

State that the source changes in place is modelled by classes with `modifies` clauses: the view
plugin's store, the `ThemeMapper` counter and map, `CodeHighlighter`'s lists, the editor
and the textarea, the editable blocks, `LoadedLanguage`, `LLog` and the Prism filter list.
The loops of the source keep their loops, each proved against a function:
`checkSelectionAndRangeOverlap`, `existsDecorationBetween`, `buildDecorations`, `updateWidgets`,
the loaders, `mapColor`'s callers, `fixNode`, the Shift-Tab map, the caret search,
`registerCodeBlockProcessors` and `combinedFilter`.

## Model

| member | source | states |
|---|---|---|
| Cm6Util.RangeOverlapSymmetric | src/codemirror/Cm6_Util.ts:13-15 | the overlap test does not depend on the order of the two ranges |
| Cm6Util.RangeOverlapReflexiveAndTouching | src/codemirror/Cm6_Util.ts:13-15 | a range overlaps itself, and ranges that only share an endpoint overlap (closed intervals) |
| Cm6Util.RangeOverlapCommonPoint | src/codemirror/Cm6_Util.ts:13-15 | two well-formed ranges overlap exactly when the later start lies in both |
| Cm6Util.RangeOverlapFromPoint | src/Cm6_Util.ts:13-15 | any point common to both ranges makes them overlap (the older copy of the helper is the same test) |
| Cm6Util.CheckSelectionAndRangeOverlap | src/codemirror/Cm6_Util.ts:24-31 | true exactly when some selection range overlaps `[from, to]`; false for an empty selection |
| Cm6Util.GetContent | src/codemirror/Cm6_Util.ts:40-42 | inside the document the slice is exactly `doc[from..to]`, of length `to - from`; a reversed or empty range gives the empty string |
| Cm6Util.ExistsDecorationBetween | src/codemirror/Cm6_Util.ts:51-57 | the flag ends true exactly when some stored decoration touches `[from, to]` |
| ViewPlugin.Marks | src/codemirror/Cm6_ViewPlugin.ts:217-235 | one mark per token, in token order |
| ViewPlugin.MarksAbut | src/codemirror/Cm6_ViewPlugin.ts:219-233 | each mark starts at its token's offset from `from`, consecutive marks abut, and the last ends at `to` |
| ViewPlugin.BuildSpec | src/codemirror/Cm6_ViewPlugin.ts:204-213 | no decoration for an empty language, an unsafe language or a tokenizer without an answer; otherwise only marks |
| ViewPlugin.BuildSpecTokens | src/codemirror/Cm6_ViewPlugin.ts:215-235 | with tokens, one mark per flattened token carrying its style, the marks tiling `[from + first offset, to]` |
| ViewPlugin.RemoveBetween | src/codemirror/Cm6_ViewPlugin.ts:164-172 | exactly the decorations touching the range are dropped; the rest are kept in order |
| ViewPlugin.AddSpec | src/codemirror/Cm6_ViewPlugin.ts:181-194 | the store is unchanged if a decoration touches the range or the new list is empty; otherwise the new list is appended |
| ViewPlugin.RemoveThenAdd | src/codemirror/Cm6_ViewPlugin.ts:141-143 | remove-then-add over one range always adds; afterwards the decorations touching the range are exactly the new ones and everything outside is kept |
| ViewPlugin.AddedAfterRemoval | src/codemirror/Cm6_ViewPlugin.ts:181-194 | after a removal over the range the addition always happens, and only added decorations touch the range |
| ViewPlugin.FenceLanguage | src/codemirror/Cm6_ViewPlugin.ts:125-129 | the language is the whole white-space-free run right after three backticks; it is empty exactly when there are no backticks or white space/end follows them |
| ViewPlugin.InlinePlainRemoves | src/codemirror/Cm6_ViewPlugin.ts:80-110 | inline code without `{`, or with inline highlighting off, keeps no decoration over its range |
| ViewPlugin.InlineNoMatchUnchanged | src/codemirror/Cm6_ViewPlugin.ts:80-82 | inline code that starts with `{` but does not match the pattern leaves the store as it was |
| ViewPlugin.InlineMatchResult | src/codemirror/Cm6_ViewPlugin.ts:83-101 | for `{lang} code`, the tag is hidden exactly in live preview with no selection around it; all built marks are present, and nothing else over the range |
| ViewPlugin.InlineMatchedResult | src/codemirror/Cm6_ViewPlugin.ts:83-101 | the same outcome stated for the matched branch alone, whatever the store held before |
| ViewPlugin.FormattingSkipped | src/codemirror/Cm6_ViewPlugin.ts:73-75 | a node tagged `formatting` changes neither the store nor the accumulator |
| ViewPlugin.BlockEndResult | src/codemirror/Cm6_ViewPlugin.ts:131-151 | a block end resets the accumulator; with lines and a language, the lines' range ends up holding exactly the built marks and all else is kept |
| ViewPlugin.SelectionPassIgnoresBlocks | src/codemirror/Cm6_ViewPlugin.ts:114-118 | a selection-only pass over nodes that are not inline code changes nothing |
| ViewPlugin.InlineOnlyPassIgnoresDocChanged | src/codemirror/Cm6_ViewPlugin.ts:77-118 | over inline code only, a selection pass and a document pass give the same store |
| ViewPlugin.BuildDecorationsAsWritten | src/codemirror/Cm6_ViewPlugin.ts:209-215 | as written, every non-empty language makes `buildDecorations` throw |
| ViewPlugin.BlockEndAsWritten | src/codemirror/Cm6_ViewPlugin.ts:138-146 | as written, the thrown error is caught and the block-end branch leaves the store unchanged |
| ViewPlugin.InlineStepAsWritten | src/codemirror/Cm6_ViewPlugin.ts:92-104 | as written, the inline branch never adds a mark |
| ViewPlugin.AwaitFindingExample | src/codemirror/Cm6_ViewPlugin.ts:209 | on a one-line Python block the code as written adds nothing, while the awaited tokenizer adds one coloured mark |
| ViewPlugin.Cm6ViewPlugin.constructor | src/codemirror/Cm6_ViewPlugin.ts:18-21 | the store is the result of a full pass from the empty store |
| ViewPlugin.Cm6ViewPlugin.Update | src/codemirror/Cm6_ViewPlugin.ts:34-42 | the store is mapped through the changes; a pass follows exactly when the document or the selection changed |
| ViewPlugin.Cm6ViewPlugin.ForceUpdate | src/codemirror/Cm6_ViewPlugin.ts:44-48 | a full document pass over the current store |
| ViewPlugin.Cm6ViewPlugin.Destroy | src/codemirror/Cm6_ViewPlugin.ts:241-243 | the store is emptied |
| ViewPlugin.Cm6ViewPlugin.UpdateWidgets | src/codemirror/Cm6_ViewPlugin.ts:61-156 | the loop over the nodes computes the pass, with `lang` and the line list as the accumulator |
| ViewPlugin.Cm6ViewPlugin.InlineCode | src/codemirror/Cm6_ViewPlugin.ts:77-112 | the inline-code branch applied to the store |
| ViewPlugin.Cm6ViewPlugin.RemoveDecoration | src/codemirror/Cm6_ViewPlugin.ts:164-172 | the store loses exactly the decorations touching the range |
| ViewPlugin.Cm6ViewPlugin.AddDecoration | src/codemirror/Cm6_ViewPlugin.ts:181-194 | the store gains the new list unless the range is taken or the list is empty |
| ViewPlugin.Cm6ViewPlugin.BuildDecorations | src/codemirror/Cm6_ViewPlugin.ts:204-236 | the index loop yields exactly the marks of the flattened tokens |
| Highlighter.GetTokenStyle | src/Highlighter.ts:239-250 | the style is the colour declaration, with an absent colour shown as `undefined`; no font style gives no class |
| Highlighter.TokenStyleClasses | src/Highlighter.ts:244-248 | each class is present exactly when its bit is set, in the order italic, bold, underline |
| Highlighter.TokenStyleRoundTrip | src/Highlighter.ts:240-248 | the class list decodes back to `fontStyle` modulo 8 |
| Highlighter.ClassAttribute | src/codemirror/Cm6_ViewPlugin.ts:229 | a token without classes gets an empty class attribute |
| Highlighter.ObsidianSafeLanguageNames | src/Highlighter.ts:196-199 | exactly the supported languages that are neither blacklisted nor disabled, in their order |
| Highlighter.GetHighlightTokens | src/Highlighter.ts:214-217 | no tokens for an unsafe language; for a safe one, the tokenizer's answer |
| Highlighter.UnsafeLanguageIgnoresTokenizer | src/Highlighter.ts:215-217 | for an unsafe language the tokenizer is never consulted |
| Highlighter.NormaliseTheme | src/Highlighter.ts:118-124 | a file with neither `colors` nor `tokenColors` is rejected; otherwise the name is the lower-cased base name, the type defaults to `both` and the display name falls back to the name, then to the base name |
| Highlighter.JsonFiles | src/Highlighter.ts:111 | exactly the files ending in `.json`, ignoring case, in listing order |
| Highlighter.ThemesFromValid | src/Highlighter.ts:113-131 | every loaded theme is the normalisation of some file that parsed and validated |
| Highlighter.LanguagesFrom | src/Highlighter.ts:82-95 | every loaded language has a name |
| Highlighter.UnnamedLanguageSkipped | src/Highlighter.ts:86-90 | a file whose language has no name adds nothing |
| Highlighter.Insert | src/Highlighter.ts:141 | inserting a theme adds exactly that theme to the list's multiset |
| Highlighter.InsertSorted | src/Highlighter.ts:141 | insertion into a list sorted by display name keeps it sorted |
| Highlighter.SortByDisplayName | src/Highlighter.ts:141 | the sort is a permutation |
| Highlighter.SortByDisplayNameSorted | src/Highlighter.ts:141 | the sort yields a permutation ordered by display name |
| Highlighter.CodeHighlighter.constructor | src/Highlighter.ts:46-49 | the theme is the plugin's setting and all lists start empty |
| Highlighter.CodeHighlighter.LoadCustomThemes | src/Highlighter.ts:98-142 | without a folder nothing loads; otherwise the themes that validated, sorted by display name, and a custom theme setting that no loaded theme matches falls back to the default |
| Highlighter.CodeHighlighter.LoadCustomLanguages | src/Highlighter.ts:68-96 | without a folder nothing loads; otherwise every named language of the `.json` files, in order |
| Highlighter.CodeHighlighter.SetSupportedLanguages | src/Highlighter.ts:58-61 | the bundled languages followed by the names of the custom ones |
| ThemeMapper.ToHex | src/themes/ThemeMapper.ts:63 | the hexadecimal text is never empty and has no `#` |
| ThemeMapper.ParseHexToHex | src/themes/ThemeMapper.ts:63 | reading the hexadecimal text back gives the number |
| ThemeMapper.PlaceholderDecode | src/themes/ThemeMapper.ts:63 | a placeholder is `#` and at least six digits, decoding back to its counter |
| ThemeMapper.PlaceholderInjective | src/themes/ThemeMapper.ts:63-66 | different counters give different placeholders |
| ThemeMapper.PlaceholderShaped | src/themes/ThemeMapper.ts:63 | below 16^6 a placeholder has exactly six digits and no other `#` |
| ThemeMapper.Lookup | src/themes/ThemeMapper.ts:60-61 | absent exactly when no entry has the key; a found value is stored under that key |
| ThemeMapper.ValidMappingPlaceholdersDistinct | src/themes/ThemeMapper.ts:63-66 | under the mapper's invariant, stored placeholders are pairwise distinct |
| ThemeMapper.LookupEntry | src/themes/ThemeMapper.ts:60-61 | with distinct keys, each entry is what a lookup of its key returns |
| ThemeMapper.ValidMappingAppend | src/themes/ThemeMapper.ts:63-66 | a new colour with the next placeholder keeps the invariant and then looks up to it |
| ThemeMapper.FixStyleNoHash | src/themes/ThemeMapper.ts:92-94 | a style without `#` is not changed by the substitutions |
| ThemeMapper.FixStyleOthers | src/themes/ThemeMapper.ts:92-94 | a placeholder survives the substitutions of all the other placeholders |
| ThemeMapper.FixStyleRestoresAt | src/themes/ThemeMapper.ts:92-94 | a stored placeholder after a `#`-free prefix turns back into its colour |
| ThemeMapper.FixStyleRestores | src/themes/ThemeMapper.ts:89-96 | for every mapped colour, its placeholder after a `#`-free prefix is replaced by that colour (fewer than 16^6 colours, colours free of `#`) |
| ThemeMapper.ReplaceAllOtherLeading | src/themes/ThemeMapper.ts:93 | a placeholder at the front survives the replacement of a different placeholder, and the scan goes on after it |
| ThemeMapper.RenderStep | src/themes/ThemeMapper.ts:92-94 | one substitution replaces every occurrence of its placeholder by its colour and leaves the other placeholders and the text alone |
| ThemeMapper.FixStylePrefix | src/themes/ThemeMapper.ts:92-94 | the first n substitutions restore the first n colours wherever their placeholders stand |
| ThemeMapper.FixStyleRestoresAll | src/themes/ThemeMapper.ts:89-96 | a style of text and placeholders, each colour any number of times and in any order, comes back as the same text with every placeholder replaced by its colour |
| ThemeMapper.FixNodeSpec | src/themes/ThemeMapper.ts:89-105 | an element keeps its tag; a truthy style is the substituted style and any other style is kept; every child is fixed the same way; anything else is left alone |
| ThemeMapper.FixNodeRestoresStyle | src/themes/ThemeMapper.ts:89-105 | an element whose style is text and placeholders reads, after `fixNode`, that text with every colour restored |
| ThemeMapper.FixNodeEmptyMapping | src/themes/ThemeMapper.ts:89-105 | with nothing mapped, no node anywhere in the tree changes |
| ThemeMapper.FixASTSpec | src/themes/ThemeMapper.ts:73-87 | for any theme but the built-in one, the tree is returned as it is; otherwise only the children change, each element child is fixed by `FixNodeSpec` and every other child is kept |
| ThemeMapper.FindTheme | src/themes/ThemeMapper.ts:48 | the first custom theme with the name, absent exactly when none has it |
| ThemeMapper.GetTheme | src/themes/ThemeMapper.ts:46-54 | exactly one of: a `.json` name selects the custom theme; `obsidian-theme` selects the built-in one; any other name selects a bundled theme |
| ThemeMapper.Mapper.constructor | src/themes/ThemeMapper.ts:11-16 | a zero counter and an empty mapping |
| ThemeMapper.Mapper.MapColor | src/themes/ThemeMapper.ts:59-68 | a known colour gets its placeholder back with no change; a new one gets the next placeholder, appended, and the counter advances |
| ThemeMapper.Mapper.FixNode | src/themes/ThemeMapper.ts:89-105 | the recursive rewrite equals the value-level `fixNode`, whose style restoration is `FixNodeRestoresStyle` |
| ThemeMapper.Mapper.FixAST | src/themes/ThemeMapper.ts:73-87 | the rewrite of the root's children equals the value-level `fixAST` |
| ThemeMapper.Mapper.GetThemeForEC | src/themes/ThemeMapper.ts:18-44 | the same theme choice as `getTheme`; only the built-in theme maps colours, every colour and truthy foreground getting its placeholder |
| ThemeMapper.Mapper.MapColors | src/themes/ThemeMapper.ts:29 | every colour of the table is replaced by its stored placeholder, and the mapping only grows |
| ThemeMapper.Mapper.MapForegrounds | src/themes/ThemeMapper.ts:30-42 | every truthy foreground is replaced by its placeholder and the others are kept |
| FenceParse.BodyLines | src/EditableCodeblock.ts:146 | the joined body splits back into exactly the lines strictly between the fences, and is empty when there are none |
| FenceParse.PrefixLen | src/EditableCodeblock.ts:44 | the prefix the pattern takes is made of its units |
| FenceParse.MetaOf | src/EditableCodeblock.ts:44 | `(\s?.*)` takes one optional white-space character and the rest of the line |
| FenceParse.ParseFenceLine | src/EditableCodeblock.ts:44 | a match has a prefix of units, a fence, a language without white space and a meta group, and they glue to a prefix of the line |
| FenceParse.FenceReconstructs | src/EditableCodeblock.ts:44 | on a line without line terminators the four groups glue back to the whole line |
| FenceParse.FenceParseComplete | src/EditableCodeblock.ts:44 | every line of that shape parses into exactly its parts |
| FenceParse.LanguageInputSplit | src/general/EditableCodeblock.ts:247-250 | the two groups concatenate to the input, the first without white space; the split fails exactly when a line terminator comes after the character that follows the word |
| FenceParse.LanguageInputSingleLine | src/general/EditableCodeblock.ts:247-248 | a single-line input always splits |
| FenceParse.LanguageInputSplitComplete | src/general/EditableCodeblock.ts:247-250 | a word followed by a meta part splits back into exactly those parts |
| CodeBlock.NonFenceLen | src/CodeBlock.ts:38 | the lazy prefix stops at the first fence character |
| CodeBlock.FenceBacktrack | src/CodeBlock.ts:38 | the fence found is at least three long and followed by the shorthand and a space |
| CodeBlock.FenceBacktrackLongest | src/CodeBlock.ts:38 | the fence taken is the longest one the shorthand can follow; none is found only when no length works |
| CodeBlock.MetaMatch | src/CodeBlock.ts:38-39 | a match has a fence of at least three characters |
| CodeBlock.MetaMatchSound | src/CodeBlock.ts:38-41 | a match glues to a prefix of the line that ends at a line end |
| CodeBlock.PartsAtSound | src/CodeBlock.ts:38 | any valid fence start and length yield parts of that shape |
| CodeBlock.GetMetaString | src/CodeBlock.ts:29-45 | no section information gives the empty string, and the meta text never holds a line terminator |
| CodeBlock.MetaMatchComplete | src/CodeBlock.ts:38-41 | a line of that shape yields exactly its parts |
| CodeBlock.BareShorthandNoMeta | src/CodeBlock.ts:38-44 | an opening line that ends at the shorthand has no meta string |
| HostEditor.EditRange | src/EditableCodeblock.ts:1028-1045 | a range edit never leaves the editor without a line |
| HostEditor.Editor.ReplaceRange | src/EditableCodeblock.ts:850 | a valid range is replaced by the text re-split into lines; an invalid one changes nothing, and the cursor stays |
| HostEditor.Editor.SetCursor | src/EditableCodeblock.ts:852 | moves the cursor and leaves the lines alone |
| HostEditor.ReplaceWholeLines | src/EditableCodeblock.ts:1038-1046 | replacing whole lines `a..b-1` by `body + "\n"` puts exactly the body's lines there |
| HostEditor.AppendBlankLine | src/EditableCodeblock.ts:848-850 | a newline at the end of the last line appends one empty line |
| HostEditor.PrependBlankLine | src/EditableCodeblock.ts:884 | a newline at the very start prepends one empty line |
| JsString.Substring | src/general/EditableCodeblock.ts:485-494 | both ends are clamped and swapped when reversed |
| JsString.LastIndexOf | src/general/EditableCodeblock.ts:479 | the last occurrence at or before the clamped position; a negative position still inspects index 0 |
| JsString.IndexOf | src/general/EditableCodeblock.ts:480 | the first occurrence at or after the clamped position, or -1 |
| JsString.JoinSplit | src/general/EditableCodeblock.ts:495-507 | joining a split gives back the string |
| JsString.SplitJoin | src/general/EditableCodeblock.ts:507-515 | splitting a join of separator-free pieces gives them back |
| JsString.ReplaceAllAbsent | src/themes/ThemeMapper.ts:93 | `replaceAll` leaves a string without the pattern's first character alone |
| JsString.ReplaceAllLeading | src/themes/ThemeMapper.ts:93 | an occurrence at the very front is replaced and the scan goes on after it |
| LineEdits.LineStart | src/general/EditableCodeblock.ts:479 | the start of the caret's line: 0 or just after a newline, with no newline up to the caret |
| LineEdits.LineEnd | src/general/EditableCodeblock.ts:480-481 | the line end never passes the text end |
| LineEdits.LineEndBounds | src/general/EditableCodeblock.ts:480-481 | the first newline at or after the selection end, or the text end |
| LineEdits.LineStartAsWrittenAgrees | src/general/EditableCodeblock.ts:479 | the written start is the line start except at position 0 of a text beginning with a newline |
| LineEdits.LineStartAsWrittenOvershoots | src/general/EditableCodeblock.ts:479 | at caret 0 of "\nabc" the written start is 1, past the line end 0 |
| LineEdits.ConfiguredIndent | src/general/EditableCodeblock.ts:472-473 | a tab, or `tabSize` spaces |
| LineEdits.AutoIndent | src/general/EditableCodeblock.ts:484-488 | a line starting with a tab or a space chooses that kind of indent; otherwise the configured one |
| LineEdits.IndentLines | src/general/EditableCodeblock.ts:515 | every line gains the indent in front |
| LineEdits.DedentLine | src/general/EditableCodeblock.ts:502-505 | one leading indent is removed when present; otherwise the line is kept |
| LineEdits.DedentLines | src/general/EditableCodeblock.ts:501-507 | each line is dedented on its own |
| LineEdits.CountIndented | src/general/EditableCodeblock.ts:499-503 | the count never exceeds the number of lines |
| LineEdits.CountIndentedZero | src/general/EditableCodeblock.ts:499-507 | the count is 0 exactly when no line starts with the indent, and then no line changes |
| LineEdits.DedentIndentLines | src/general/EditableCodeblock.ts:497-521 | Shift-Tab undoes Tab: every indented line is counted and gets its line back |
| LineEdits.IndentedBlockLines | src/general/EditableCodeblock.ts:515 | indenting adds no line to the block |
| LineEdits.InsertIndent | src/general/EditableCodeblock.ts:524-530 | the indent replaces the selection and the caret collapses right after it |
| LineEdits.ToUint32 | src/general/EditableCodeblock.ts:507-529 | a position written to the textarea is taken modulo 2^32, so a small negative one becomes a huge one |
| LineEdits.ClampRange | src/general/EditableCodeblock.ts:507-529 | the range set on the textarea lies inside its value, keeps an in-range pair as it is, and collapses to the end when the start is not before it |
| LineEdits.StartSet | src/general/EditableCodeblock.ts:510 | writing the start inside the value sets it and raises the end to it; a small negative start puts the caret at the end |
| LineEdits.EndSet | src/general/EditableCodeblock.ts:511 | writing the end inside the value sets it, pulling the start down to it when needed; a small negative end goes to the end of the value |
| LineEdits.Textarea.SetValue | src/general/EditableCodeblock.ts:507 | the value is replaced; a different value puts the caret at its end; the selection stays well formed |
| LineEdits.Textarea.SetSelectionStart | src/general/EditableCodeblock.ts:510 | the selection becomes `StartSet` of the old one; the value is unchanged and the selection stays well formed |
| LineEdits.Textarea.SetSelectionEnd | src/general/EditableCodeblock.ts:511 | the selection becomes `EndSet` of the old one; the value is unchanged and the selection stays well formed |
| LineEdits.Textarea.WriteTab | src/general/EditableCodeblock.ts:507-529 | the value becomes the handler's new text and the selection is what the browser keeps after the handler's two position writes, in the order the handler makes them |
| LineEdits.TabSelection | src/general/EditableCodeblock.ts:507-529 | the selection left by the Tab handler's writes lies inside the new value |
| LineEdits.TabSelectionExact | src/general/EditableCodeblock.ts:514-529 | positions written in order inside the new value are kept exactly, as Tab and the indent insertion write them |
| LineEdits.TabSelectionReversed | src/general/EditableCodeblock.ts:497-512 | a Shift-Tab that moves the end before the start collapses the selection to the end |
| LineEdits.TabSelectionNegative | src/general/EditableCodeblock.ts:497-512 | a Shift-Tab that writes negative positions leaves the caret at the end of the new value |
| LineEdits.TabEditIsBlock | src/general/EditableCodeblock.ts:491-522 | a Tab with a selection, or a Shift-Tab, rewrites only the lines between the start of the first selected line and the end of the last |
| LineEdits.BlockSplit | src/general/EditableCodeblock.ts:492-494 | the text is exactly before + block + after at the line bounds of the selection |
| LineEdits.TabIndentsBlock | src/general/EditableCodeblock.ts:514-521 | Tab indents each block line once, keeps the surrounding text, and moves the start by one indent and the end by one per line |
| LineEdits.ShiftTabDedentsBlock | src/general/EditableCodeblock.ts:497-513 | Shift-Tab dedents each block line once at most, moving the start back only if the first line was indented and the end back once per changed line |
| LineEdits.ShiftTabNoIndentUnchanged | src/general/EditableCodeblock.ts:497-513 | Shift-Tab on a block with no indented line leaves the text as it was |
| LineEdits.ShiftTabAsWrittenDuplicates | src/general/EditableCodeblock.ts:479-513 | as written, Shift-Tab at caret 0 of "\nabc" yields "\n\n\nabc" |
| LineEdits.ShiftTabCorrectedKeeps | src/general/EditableCodeblock.ts:479-513 | with the corrected line start the same key press changes nothing |
| LineEdits.ShiftTabValue | src/general/EditableCodeblock.ts:492-508 | the Shift-Tab value is the text before, the dedented block and the text after |
| LineEdits.OnLastLineIff | src/general/EditableCodeblockInOb.ts:69-73 | the caret is on the last line exactly when no newline follows it |
| LineEdits.OnFirstLineIff | src/general/EditableCodeblockInOb.ts:104-108 | the caret is on the first line exactly when no newline precedes it |
| LineEdits.ArrowDown | src/general/EditableCodeblockInOb.ts:62-96 | an area with a `cb_down` hands the key to it and the editor is left alone; otherwise the cursor moves exactly with an editor, the caret on the last line and section information, after a blank line is added past the end if needed, to the line after the block |
| LineEdits.ArrowUp | src/general/EditableCodeblockInOb.ts:97-130 | an area with a `cb_up` hands the key to it; otherwise the cursor moves exactly on the first line; a block on line 0 gets a blank line above, and the cursor goes to the line before the block |
| LineEdits.LanguageSaveRewritesLine | src/EditableCodeblock.ts:1027-1035 | a language save rewrites the opening line and no other |
| LineEdits.SourceSaveReplacesBody | src/EditableCodeblock.ts:1038-1046 | a source save replaces exactly the body lines by the source's lines |
| LineEdits.SourceSaveOfBodyKeeps | src/EditableCodeblock.ts:1038-1046 | saving back the body the section holds leaves the document unchanged |
| LineEdits.LanguageLineDropsPrefix | src/EditableCodeblock.ts:1032 | the written language line is the opening line without its quote or list prefix |
| LineEdits.RenderSource | src/EditableCodeblock.ts:678-679 | a source ending in a newline gets one more; any other is kept |
| LineEdits.RenderSourceIff | src/general/EditableCodeblock.ts:646-647 | a newline is added exactly when the source ends in one; the source stays a prefix; and a result ending in a newline ends in two |
| ObsidianCodeblock.DefaultInfo | src/EditableCodeblock.ts:99-109 | empty prefix, fence and meta, the old language as type, and no source |
| ObsidianCodeblock.CreateCodeBlockInfo | src/EditableCodeblock.ts:95-152 | defaults without a section; "Warning: el ctx error!" exactly when a line index is past the text; the old language and source are kept |
| ObsidianCodeblock.CreateInfoLocated | src/EditableCodeblock.ts:141-151 | a located block takes its parts from the parsed opening line and its source from the lines between the fences |
| ObsidianCodeblock.CreateInfoDefaults | src/EditableCodeblock.ts:122-139 | the source is absent exactly when the opening line is not a fence, and then the defaults are used |
| ObsidianCodeblock.EditableCodeblock.constructor | src/EditableCodeblock.ts:81-92 | the created info with its source overwritten by the old source, and the cached editor |
| ObsidianCodeblock.EditableCodeblock.RenderPreSource | src/EditableCodeblock.ts:678-679 | the current source, or the old one, with the trailing-newline fix |
| ObsidianCodeblock.EditableCodeblock.Tab | src/EditableCodeblock.ts:751-775 | Tab inserts the chosen indent over the selection; the selection is what the browser keeps after the end and then the start are set to the caret after the indent, and stays well formed |
| ObsidianCodeblock.EditableCodeblock.ArrowDown | src/EditableCodeblock.ts:821-855 | from the textarea the key focuses the language input on the last line and never moves the editor; from the language input the editor's cursor leaves the block downwards |
| ObsidianCodeblock.EditableCodeblock.ArrowUp | src/EditableCodeblock.ts:856-889 | from the language input the key focuses the end of the textarea; from the textarea's first line the editor's cursor leaves the block upwards |
| ObsidianCodeblock.EditableCodeblock.SaveContent | src/EditableCodeblock.ts:1010-1047 | a notice and no edit without a section or an editor; otherwise the language line and/or the body lines are rewritten as asked, and the cursor stays |
| ObsidianCodeblock.TabIndent | src/EditableCodeblock.ts:751-769 | the indent is always a tab or `tabSize` spaces |
| ObsidianCodeblock.Create | src/EditableCodeblock.ts:90-120 | construction fails exactly when `createCodeBlockInfo` throws |
| GeneralCodeblock.InitOuterInfo | src/general/EditableCodeblock.ts:128-136 | empty prefix, fence and meta, the old language as type, and no source |
| GeneralCodeblock.EditableCodeblock.constructor | src/general/EditableCodeblock.ts:111-125 | the inner info, the default outer info with the old source, and the default settings |
| GeneralCodeblock.EditableCodeblock.SetComposing | src/general/EditableCodeblock.ts:181-189 | only the composing flag changes |
| GeneralCodeblock.EditableCodeblock.EmitChange | src/general/EditableCodeblock.ts:219-235 | composing ignores the change; otherwise the source is the new value, render and save are asked as flagged, the unsaved mark follows, and the selection is cached when asked |
| GeneralCodeblock.EditableCodeblock.OnTextareaInput | src/general/EditableCodeblock.ts:194-216 | the `onchange` mode renders and marks the block unsaved; the `oninput` mode saves and caches the selection |
| GeneralCodeblock.EditableCodeblock.OnTextareaChange | src/general/EditableCodeblock.ts:199-201 | in the `onchange` mode the value is saved; in the other mode nothing happens |
| GeneralCodeblock.EditableCodeblock.OnLanguageInput | src/general/EditableCodeblock.ts:243-253 | outside composition the input is split into type and meta that concatenate to it, with a render; a failed split throws and changes nothing |
| GeneralCodeblock.EditableCodeblock.OnLanguageChange | src/general/EditableCodeblock.ts:254-261 | the same split with no composing test, then the language is saved |
| GeneralCodeblock.EditableCodeblock.EmitRenderSource | src/general/EditableCodeblock.ts:646-647 | the current source, or the old one, with the trailing-newline fix |
| GeneralCodeblock.EditableCodeblock.Tab | src/general/EditableCodeblock.ts:466-530 | the value becomes the Tab edit's (corrected line start); the selection is the browser's clamping of the positions the edit writes, in the order the handler writes them, and stays well formed |
| GeneralCodeblock.EditableCodeblock.TabKey | src/general/EditableCodeblock.ts:466-614 | the Tab edit of the textarea with the clamped selection, then the `input` event it dispatches: a render in the `onchange` mode, a save keeping the well-formed new selection in the `oninput` mode |
| GeneralCodeblock.DedentCounted | src/general/EditableCodeblock.ts:499-507 | the map loop dedents every line and counts the changed ones |
| GeneralCodeblock.FirstCovering | src/general/EditableCodeblock.ts:422-428 | the first text node from `from` on whose range holds the offset, ends included |
| GeneralCodeblock.RestoreCursorPosition | src/general/EditableCodeblock.ts:416-447 | the traversal sets the start in the first node that covers it and the end in the first node from there on |
| GeneralCodeblock.CoveringExists | src/general/EditableCodeblock.ts:424-428 | an offset inside the text is always covered by some node |
| GeneralCodeblock.CaretFound | src/general/EditableCodeblock.ts:416-447 | for `0 <= start <= end <= length` both ends are set, in order, each at its absolute offset |
| CodeblockInOb.InitOuterInfo2 | src/general/EditableCodeblockInOb.ts:263-310 | defaults without a section; the error is logged exactly when a line index is past the text; no source means the defaults |
| CodeblockInOb.OuterFromLines | src/general/EditableCodeblockInOb.ts:286-309 | no source means the defaults |
| CodeblockInOb.InitOuterInfo2AgreesWithCreate | src/general/EditableCodeblockInOb.ts:263-310 | wherever `createCodeBlockInfo` succeeds, nothing is logged and the same five parts are read |
| CodeblockInOb.InitOuterInfo2PastEnd | src/general/EditableCodeblockInOb.ts:280-307 | with the closing line past the text the error is logged, yet the block is read with every line after the opening one as its body |
| CodeblockInOb.OuterFromLinesPastEnd | src/general/EditableCodeblockInOb.ts:307 | the slice past the end takes the remaining lines |
| CodeblockInOb.InitOuterInfo2NoOpeningLine | src/general/EditableCodeblockInOb.ts:280-300 | with the opening line past the text, the error is logged and the defaults are used |
| CodeblockInOb.LanguageSaveOfParsedKeeps | src/general/EditableCodeblockInOb.ts:239-247 | a language save of an unprefixed opening line writes that same line back |
| CodeblockInOb.UneditedSaveKeepsDocument | src/general/EditableCodeblockInOb.ts:239-258 | saving a block that was not edited leaves the document unchanged |
| CodeblockInOb.EditableCodeblockInOb.constructor | src/general/EditableCodeblockInOb.ts:34-46 | the outer info is `init_outerInfo2`'s, its warning is logged, and the active editor is cached |
| CodeblockInOb.EditableCodeblockInOb.OnFocus | src/general/EditableCodeblockInOb.ts:55-58 | the active editor is cached again and nothing else changes |
| CodeblockInOb.EditableCodeblockInOb.ArrowDown | src/general/EditableCodeblockInOb.ts:62-96 | the textarea's `cb_down` takes the key; only from the language input does the cached editor's cursor leave the block |
| CodeblockInOb.EditableCodeblockInOb.ArrowUp | src/general/EditableCodeblockInOb.ts:97-130 | the language input's `cb_up` takes the key; only from the textarea's first line does the cached editor's cursor leave the block |
| CodeblockInOb.EditableCodeblockInOb.EmitSaveUnsafe | src/general/EditableCodeblockInOb.ts:222-259 | the two warnings are logged and nothing edited without a section or an editor; otherwise the language line and/or body lines are rewritten as asked |
| Registration.Latest | src/main.ts:65 | the last version, absent exactly for an empty list |
| Registration.Claims | src/main.ts:72-75 | the name first, then each alias, all tied to the entry's key |
| Registration.RegisterCodeBlockProcessors | src/main.ts:60-93 | the nested loops register exactly the first-come claims that are not blacklisted |
| Registration.RegisterEntry | src/main.ts:63-91 | one entry's aliases are processed in order, keeping the set equal to the registered aliases |
| Registration.RegisterAlias | src/main.ts:77-83 | a taken or blacklisted alias is skipped; any other is registered |
| Registration.KeepFirstStep | src/main.ts:79-83 | one more claim is kept exactly when its alias is free and allowed |
| Registration.KeepFirstDistinct | src/main.ts:78-83 | no alias is registered twice |
| Registration.KeepFirstMembers | src/main.ts:78-83 | an alias is registered exactly when some language claims it and it is not blacklisted; only claims are registered |
| Registration.KeepFirstFirstWins | src/main.ts:72-83 | the first claim of an allowed alias is the one registered |
| Registration.RegistrationCorrect | src/main.ts:60-93 | the processors have distinct, allowed, claimed aliases, and every allowed claimed alias is registered |
| LoadedLanguage.LoadedLanguage.constructor | src/LoadedLanguage.ts:8-12 | the alias, no default and no languages |
| LoadedLanguage.LoadedLanguage.AddLanguage | src/LoadedLanguage.ts:14-18 | the language is appended only when absent |
| LoadedLanguage.LoadedLanguage.SetDefaultLanguage | src/LoadedLanguage.ts:20-26 | fails with its message exactly for a language not loaded; otherwise it becomes the default |
| LoadedLanguage.LoadedLanguage.GetDefaultLanguage | src/LoadedLanguage.ts:28-34 | fails exactly without a default; a returned default is a loaded language |
| LoadedLanguage.AddLanguageTwice | src/LoadedLanguage.ts:14-18 | adding a language twice is adding it once |
| LoadedLanguage.AddThenDefault | src/LoadedLanguage.ts:14-34 | after adding a language, making it the default and reading the default give it back |
| LLog.Merge | src/general/LLog.ts:27-29 | each field present in the partial config wins; each absent field keeps its value |
| LLog.NonEmpty | src/general/LLog.ts:61 | no empty part is kept |
| LLog.Logger.constructor | src/general/LLog.ts:21-25 | level `debug`, timestamps on, no tag |
| LLog.Logger.SetConfig | src/general/LLog.ts:27-29 | the config is merged with the partial one |
| LLog.Rank | src/general/LLog.ts:18-57 | the position of a level in `levelOrder`, the only one it has there |
| LLog.Logger.LogCore | src/general/LLog.ts:56-63 | a message is written exactly when `Writes` holds for the config and its level, with the prefix |
| LLog.SilentWritesNothing | src/general/LLog.ts:18-57 | with level `none` `Writes` never holds |
| LLog.DefaultWritesAll | src/general/LLog.ts:21-57 | under the default config `Writes` holds for every level |
| LLog.WritesFromConfigured | src/general/LLog.ts:18-57 | `Writes` holds exactly for the levels listed in `levelOrder` from the configured one on |
| LLog.ErrorsWrittenUnlessSilent | src/general/LLog.ts:18-57 | errors are written under every configured level except `none` |
| LLog.PrefixLevelOnly | src/general/LLog.ts:59-61 | without timestamp and tag the prefix is the bracketed level alone |
| LLog.PrefixFull | src/general/LLog.ts:59-61 | with both, the three bracketed parts are separated by single spaces |
| LLog.MergeTwice | src/general/LLog.ts:27-29 | two config updates compose field by field, the later winning |
| LLog.MergeEmpty | src/general/LLog.ts:27-29 | an empty update changes nothing |
| PrismFilter.Kept | src/PrismPlugin.ts:117-119 | exactly the elements that every filter accepts |
| PrismFilter.KeptConcat | src/PrismPlugin.ts:117-119 | filtering keeps the elements' order |
| PrismFilter.AllAcceptAppend | src/PrismPlugin.ts:108-115 | adding a filter conjoins it with the ones before |
| PrismFilter.RejectNegates | src/PrismPlugin.ts:52-87 | each reject filter accepts exactly what its accept counterpart rejects; with `filterKnown` off the known-language filter accepts all |
| PrismFilter.FilterHighlightAll.Install | src/PrismPlugin.ts:5-99 | nothing is set up without Prism or a document; otherwise the known-language filter, then the script's selector filters when given |
| PrismFilter.FilterHighlightAll.Add | src/PrismPlugin.ts:24-71 | the filter is pushed at the end |
| PrismFilter.FilterHighlightAll.CombinedFilter | src/PrismPlugin.ts:108-115 | true exactly when every filter accepts the element |
| PrismFilter.FilterHighlightAll.Hook | src/PrismPlugin.ts:117-119 | the hook keeps exactly the elements every filter accepts |
| PrismFilter.InstalledDefaultKeepsAll | src/PrismPlugin.ts:82-87 | with only the known-language filter and `filterKnown` off, every element is kept in order |
| PrismFilter.KeptAll | src/PrismPlugin.ts:117-119 | when every element is accepted, filtering returns the list as it was |

## Left out

- InlineCodeBlock.ts, `renderCallout`, `tokenToSpan`, `CodeBlock.onload`/`onunload`, the DOM parts of `renderTextareaPre`/`renderEditablePre` and `saveCursorPosition` are not part of this model: they build and read DOM nodes. `restoreCursorPosition` is modelled as a search over text-node lengths.
- Rendering to the DOM is not modelled: Shiki, Expressive Code and Prism output, `<pre>`/`<code>` construction, `contenteditable` handling, and widgets. The tokenizer (`codeToTokens`) is an abstract function of the code and the language.
- Mapping the decoration store through document changes (`DecorationSet.map`) is an abstract function passed to `Update`, because CodeMirror's range mapping is a library service.
- Debounced and safe saves (`saveContent_safe`, `saveContent_debounced`), the save timers, the `global_refresh_cache` microtask and the order in which async loads complete are not modelled. Handlers are modelled as running one after another.
- The wall clock is the `isoTime` parameter of `LLog.Logger.LogCore`. A partial config field explicitly set to `undefined` is treated as absent.
- `localeCompare` is an abstract total order on display names.
- Line terminators other than `\n` inside a document line are not modelled: Obsidian splits on `\n`, so a trailing `\r` stays inside a line, as it does in the model.
- The inline pattern `SHIKI_INLINE_REGEX` is not part of the sources modelled; it is an abstract matcher giving `(lang, code)`.
- File I/O, `JSON.parse` and the folder listing come in as a `Loader` and a `Folder`. `normalizePath` is taken as the identity, and the `Notice` popups and console warnings are not modelled.
- Vault configuration (`useTab`, `tabSize`), section information, the active editor and the live-preview flag are parameters.
- `isReadingMode`/`isMarkdownRendered` (read-only mode) and the settings UI are not modelled.
- The built-in theme tables (ObsidianTheme.ts, ECTheme.ts), EditableEditor.ts, LLogInOb.ts, the settings tab and the build scripts are not part of this model: they are data tables, reflection over host classes, a popup wrapper and UI.
- `Highlighter.CodeHighlighter.LoadCustomThemes`: the fallback to the default theme does not model `saveSettings`. The `defaultTheme` parameter stands for `DEFAULT_SETTINGS.theme`: the defaults in settings/Settings.ts have no `theme` field, so in the source the setting falls back to `undefined`.
- `ViewPlugin.Cm6ViewPlugin.ForceUpdate`: the `view.dispatch` that follows the pass is not modelled.
- `ThemeMapper.FixStyleRestoresAll` and `ThemeMapper.FixStyleRestores`: proved for fewer than 16^6 mapped colours, for colours without `#`, and for styles whose text between placeholders has no `#`. They also hold only for colours without `$`: `JsString.ReplaceAll` inserts the replacement literally, while JavaScript's `replaceAll` expands `$$`, `$&`, `` $` `` and `$'` in it. Beyond 16^6, placeholders grow past six digits and one can contain another. A colour or text with `#` can combine with its neighbours into another placeholder.
- `Highlighter.CodeHighlighter.constructor`: the lists declared with `!` are unassigned until `load`. The model starts them empty.
- `CodeBlock.GetMetaString`: the shorthand is spliced into the pattern unescaped. The model assumes it holds no regular-expression metacharacters, so that it matches itself.
- `JsString.ToLower`: only `A`-`Z` are lower-cased, whereas JavaScript's `toLowerCase` maps all of Unicode. A theme or language file name with other capital letters (`Ärger.json`) keeps them in `NormaliseTheme` and `JsonFiles`.
- Strings are sequences of Unicode scalar values, while JavaScript and CodeMirror count positions in UTF-16 code units. A character outside the Basic Multilingual Plane shifts every later offset (`GetContent`, `Substring`, `LineStart`, `Marks`, the selection) by one in the source and not in the model.
- `ObsidianCodeblock.EditableCodeblock.Tab`: the `input` event that Tab dispatches (src/EditableCodeblock.ts:776) runs the textarea handlers of `renderEditablePre`, which are not part of this model. The render or save that follows a Tab there is therefore not modelled. In the general block it is modelled, by `GeneralCodeblock.EditableCodeblock.TabKey`.
- The `contenteditable` branch of the arrow keys returns without an action (a TODO in the source). Its Tab branch inserts a text node. Neither is modelled: `EditArea` has only the textarea and the language input.
- The textarea's selection direction is not modelled; the setters keep only the start and the end.
- `HostEditor.Editor.ReplaceRange`: a reversed or out-of-document range is modelled as no change. The host's own behaviour there is not part of this model.
- `LineEdits.LanguageLineDropsPrefix` records behaviour as written: a language save writes `flag + type + meta` without the prefix, so a block inside a quote or list loses its `> ` or `- ` on that line. The model keeps this behaviour.

## Findings

| source | as written | input that shows it | evidently intended | confidence | as-written member | corrected member |
|---|---|---|---|---|---|---|
| src/codemirror/Cm6_ViewPlugin.ts:209 | `getHighlightTokens` is async but is called without `await`; the returned promise is truthy, so `highlight.tokens.flat(1)` throws on `undefined`, and the caller catches and logs it | the document "```python\nx\n```" with a tokenizer that returns one token for `x` | the awaited token list turned into marks | not executed | ViewPlugin.AwaitFindingExample | ViewPlugin.BuildSpec |
| src/general/EditableCodeblock.ts:479 | `lastIndexOf('\n', selectionStart - 1) + 1` with the caret at 0 inspects index 0, so a text starting with a newline gives line start 1, past the line end 0 | Shift-Tab with the caret at 0 in "\nabc" gives "\n\n\nabc" | the start of the caret's line (0), so that nothing changes | not executed | LineEdits.ShiftTabAsWrittenDuplicates | LineEdits.ShiftTabCorrectedKeeps |
