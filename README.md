# Claude conversation exporter — a Dafny model

The model covers the core of the `ClaudeExporter` browser content script (`src/content.js`).
The script adds a selection checkbox to every chat message of the Claude web page.
It collects the checked messages as `{role, content}` records.
It exports them to the clipboard, to a plain-text file or to a Markdown file.

The model is stated over an abstract document. CSS matching is not implemented.

- `Dom.Element` is a message element: its children in order, and what `closest('[data-message-author-role]')` finds from inside it.
- `Dom.Page` is the live page (a class). Its field `elements` lists the message elements in document order. The constant `matchesOf[i]` lists the positions of the elements that `MessageSelectors[i]` matches, in document order.
- `Selection.CheckboxNode` is one `.claude-export-checkbox` as the collector sees it: its `checked` flag and its role container.
- `Export.Effect` is the one browser effect an export button causes: an alert, a clipboard write, or a file download.

Modules:

- `Wrappers`: `Option` and `Result`.
- `Text`: `Array.prototype.join`, `String.prototype.trim` and a first-occurrence search, with their layout lemmas.
- `Selection`: `getSelectedMessages`.
- `Export`: the three exporters and their empty-selection guard. Each block format also has a parser, used only to prove the block reads back to its record.
- `Dom`: checkbox injection, the selector priority pass, select/deselect all, and the `Page` class whose methods update the page in place.
- `Startup`: the selector loop of `waitForChatInterface`.

This version of the script:

- exports the raw `data-message-author-role` string. It does not relabel roles as "Human" or "Claude", so the example lemmas show `user: Hi`.
- never drops a checked message. A checkbox with no container gives role `unknown` and empty content.
- takes the message content as the `.prose` element's `textContent`, trimmed. It has no recursive text normaliser.
- stores no role attribute on the checkbox.

## Model

| member | source | states |
|---|---|---|
| `Text.Join` | src/content.js:342 | `parts.join(sep)`: the empty string for no parts; otherwise a string that starts with the first part |
| `Text.JoinPartAt` | src/content.js:340-342 | in `parts.join(sep)` every part appears unchanged at its offset, in order, and the last part ends the string (no trailing separator) |
| `Text.JoinSeparatorAfter` | src/content.js:361-363 | exactly one separator lies between each part and the next one |
| `Text.JoinLength` | src/content.js:376-378 | the joined length is the sum of the part lengths plus one separator per pair of neighbours |
| `Text.JoinAppend` | src/content.js:342 | joining `a + b` is joining `a`, one separator, then joining `b` |
| `Text.Trim` | src/content.js:325 | `trim()` returns an infix of its input; only whitespace is cut on either side; the result neither starts nor ends with whitespace |
| `Text.TrimIdempotent` | src/content.js:325 | trimming an already trimmed text changes nothing |
| `Text.TrimmedIsFixed` | src/content.js:325 | a text without whitespace at either end is its own trim |
| `Selection.RoleOf` | src/content.js:316-319 | the role is the container's attribute value when there is a container and the value is non-empty; otherwise it is `unknown`; it is never empty |
| `Selection.ContentOf` | src/content.js:322-325 | the content is the trimmed `.prose` text, or `''` when there is no container or no `.prose` |
| `Selection.ToRecord` | src/content.js:315-329 | the `{role, content}` record of one checked checkbox: its role is never empty and its content has no surrounding whitespace |
| `Selection.CheckedBoxes` | src/content.js:312 | the `:checked` query: no longer than the input, every box in it is checked, and every checked box is in it |
| `Selection.GetSelectedMessages` | src/content.js:310-330 | `getSelectedMessages()`: at most one record per checkbox, each with a non-empty role and trimmed content |
| `Selection.CheckedPositions` | src/content.js:312 | the checked positions, strictly increasing, each one checked, and every checked position included |
| `Selection.CheckedBoxesAtPositions` | src/content.js:312 | the `:checked` query keeps exactly the boxes at the checked positions, in document order |
| `Selection.SelectedInDocumentOrder` | src/content.js:312-329 | `getSelectedMessages` returns one record per checked checkbox, in document order, and drops none; record `k` is built from the `k`-th checked box |
| `Selection.SelectionEmptyIff` | src/content.js:312-315 | the selection is empty exactly when no checkbox is checked |
| `Export.ClipboardText` | src/content.js:340-342 | the clipboard text is empty exactly for an empty selection; otherwise it starts with `role + ": " + content` of the first message |
| `Export.TxtText` | src/content.js:361-363 | the TXT text is empty exactly for an empty selection; otherwise it starts with `role + ":\n" + content` of the first message |
| `Export.MarkdownText` | src/content.js:376-378 | the Markdown text is empty exactly for an empty selection; otherwise it starts with `"### " + role + "\n\n" + content` of the first message |
| `Export.CopyToClipboard` | src/content.js:333-345 | an empty selection gives the please-select alert and no clipboard write; otherwise one clipboard write of the clipboard text and no download |
| `Export.ExportAsTxt` | src/content.js:354-366 | an empty selection gives the alert only; otherwise one download of the TXT text as `claude-conversation.txt`, `text/plain` |
| `Export.ExportAsMarkdown` | src/content.js:369-381 | an empty selection gives the alert only; otherwise one download of the Markdown text as `claude-conversation.md`, `text/markdown` |
| `Export.ClipboardLayout` | src/content.js:340-342 | message `i` appears as `role + ": " + content` at its offset, followed by `"\n\n"` unless it is last; the last message ends the text |
| `Export.TxtLayout` | src/content.js:361-363 | message `i` appears as `role + ":\n" + content`, followed by `"\n\n---\n\n"` unless it is last; the last message ends the file |
| `Export.MarkdownLayout` | src/content.js:376-378 | message `i` appears as `"### " + role + "\n\n" + content`, followed by `"\n\n---\n\n"` unless it is last; the last message ends the file |
| `Export.ExportsAppend` | src/content.js:340-378 | each export of `a + b` is the export of `a`, the format's separator, then the export of `b` |
| `Export.ExportLengths` | src/content.js:340-378 | each export's length is the block lengths plus one separator per pair of neighbours |
| `Export.ClipboardExample` | src/content.js:340-342 | a user `Hi` and an assistant `Hello` give `user: Hi\n\nassistant: Hello` |
| `Export.TxtExample` | src/content.js:361-363 | the same two messages give `user:\nHi\n\n---\n\nassistant:\nHello` |
| `Export.MarkdownExample` | src/content.js:376-378 | the same two messages give `### user\n\nHi\n\n---\n\n### assistant\n\nHello` |
| `Export.ClipboardBlockRoundTrip` | src/content.js:341 | a clipboard block reads back to its record when the role has no colon |
| `Export.ClipboardBlockParseSound` | src/content.js:341 | whatever reads back as a clipboard block is the block of the record it reads to |
| `Export.TxtBlockRoundTrip` | src/content.js:362 | a TXT block reads back to its record when the role has no colon |
| `Export.TxtBlockParseSound` | src/content.js:362 | whatever reads back as a TXT block is the block of the record it reads to |
| `Export.MarkdownBlockRoundTrip` | src/content.js:377 | a Markdown block reads back to its record when the role has no newline |
| `Export.MarkdownBlockParseSound` | src/content.js:377 | whatever reads back as a Markdown block is the block of the record it reads to |
| `Dom.HasMarkerIffCount` | src/content.js:245 | the presence test finds a checkbox exactly when the element holds at least one |
| `Dom.BoxesIn` | src/content.js:153 | an element contributes as many checkboxes to the document-wide query as it holds |
| `Dom.Checkboxes` | src/content.js:153 | `querySelectorAll('.claude-export-checkbox')`: as many checkboxes as all the elements hold together |
| `Dom.WithMarker` | src/content.js:241-262 | an element that holds a checkbox is returned unchanged; otherwise exactly one unchecked wrapper is put before all of its children, which stay in order; afterwards it holds a checkbox |
| `Dom.WithMarkerIdempotent` | src/content.js:245-248 | injecting twice is the same as injecting once |
| `Dom.InjectTwiceLeavesOne` | src/content.js:245-262 | two injections into an element without a checkbox leave exactly one checkbox |
| `Dom.FirstNonEmpty` | src/content.js:184-198 | picks the first selector in priority order that matches something; it is none exactly when no selector matches |
| `Dom.Targets` | src/content.js:184-198 | the elements a pass injects into: nothing exactly when no selector matches; otherwise the matches of a selector before which every selector matches nothing |
| `Dom.InjectionPass` | src/content.js:162-211 | the page after one pass: same length and containers; every target holds a checkbox; every other element is unchanged |
| `Dom.InjectedIntoStep` | src/content.js:207-210 | one more injection into an element extends the set of injected elements, even when that element was already injected |
| `Dom.InjectionPassEffect` | src/content.js:166-210 | after a pass every element the chosen selector matches holds a checkbox, exactly one if it held at most one before; other elements are unchanged; at most one checkbox per element is kept |
| `Dom.NoMatchNoChange` | src/content.js:200-205 | when no selector matches, the pass adds no checkbox |
| `Dom.InjectionPassIdempotent` | src/content.js:296-298 | re-running the pass, as each mutation notification does, changes nothing more |
| `Dom.SetAllChecked` | src/content.js:153-159 | the page after select-all: every checkbox child becomes `select`; every other child, every container and every length stays the same |
| `Dom.SelectAllCheckboxes` | src/content.js:153-159 | after select-all the page holds the same checkboxes, in the same order and with the same containers, each set to the chosen value |
| `Dom.CheckedBoxesAllSet` | src/content.js:312 | the `:checked` query keeps every box when all are checked and none when none is |
| `Dom.DeselectAllBlocksExport` | src/content.js:104 | after "Deselect All" nothing is selected, and each export only shows the please-select alert |
| `Dom.SelectAllSelectsEvery` | src/content.js:99 | after "Select All" the selection has one record per checkbox of the page, in document order |
| `Dom.Page.SelectedMessages` | src/content.js:310-330 | `getSelectedMessages()` on the current page: at most one record per checkbox on the page |
| `Dom.Page.SelectAllMessages` | src/content.js:151-160 | every checkbox gets `checked = select`; no element, child or container changes otherwise (the new page is `SetAllChecked` of the old); afterwards nothing is selected when `select` is false, and every checkbox is when it is true |
| `Dom.Page.AddCheckboxToMessage` | src/content.js:241-279 | only the element at `i` changes, and it becomes `WithMarker` of itself |
| `Dom.Page.AddCheckboxesToMessages` | src/content.js:162-211 | the new page is the reference `InjectionPass`: injection into exactly the elements of the first selector that matches anything |
| `Startup.WaitForChatInterface` | src/content.js:36-57 | returns the first non-null wait result in selector order, after exactly that many waits; fails with `Chat container not found` exactly when every selector yields null, after all four waits |

## Left out

- `waitForPageLoad`, the timeout and the `MutationObserver` inside `waitForElement`: these are asynchronous waits. `WaitForChatInterface` takes the awaited result of each wait as a function argument.
- `setupMessageObserver`: event observation. Its only effect is to re-run `addCheckboxesToMessages`, whose repetition `Dom.InjectionPassIdempotent` covers.
- `setupControls` and `setupExportPanel`: building and styling the panel. Only the button handlers they wire are modelled.
- The inline styles and `position: relative` set in `addCheckboxToMessage`: styling only. The `try`/`catch` around the insertion is not modelled either; insertion always succeeds in the model.
- `debugPrintMessageCandidates` and every `console.log`: logging only.
- `downloadFile`, `navigator.clipboard.writeText`, and the "copied" and "copy failed" alerts that follow the write: these are browser APIs. An export returns the effect it asks for (`Export.Effect`).
- `init`, `initializeExporter` and the `DOMContentLoaded` bootstrap: start-up wiring.
- CSS selector semantics and `closest`: matches are given as `matchesOf`, and containers are given per element. The model treats message elements as disjoint, not nested. An element's identity is its position, so aliasing between elements is not modelled. The wrappers the script injects are assumed to match none of the six message selectors. Their class `claude-export-checkbox-wrapper` contains neither `message` nor `chat`.
- `.prose` `textContent` is given data. The model does not add the injected wrapper's whitespace text to it, even if a wrapper sits inside a `.prose` element.
- `Text.IsWhitespace` lists the ECMAScript WhiteSpace and LineTerminator code points: tab, LF, VT, FF, CR, space, U+00A0, U+1680, U+2000–U+200A, U+2028, U+2029, U+202F, U+205F, U+3000 and U+FEFF. Strings are sequences of code points, not UTF-16 units.
