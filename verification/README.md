# Clickbait scanner content script, modelled in Dafny

The browser extension's content script (`chrome_extension/content_script.js`)
runs one *scan* each time it is asked to:

1. It reads the stored API base URL and normalises it so that its path names the `/predict_batch` endpoint.
2. It collects a label for every clickable element of the page, de-duplicated through a `Set`.
3. It injects an overlay panel if none is shown and reports how many labels were found.
4. It sends the first 250 labels to the backend, through the background page.
5. It renders one row per label with its verdict badge, then outlines in place every clickable element whose label came back "Malicious".

If no labels were found, the panel says so and no request is made. Any failure replaces the panel's content with "API Error".

The model follows the script's own structure:

| file | module | what it holds |
|---|---|---|
| `wrappers.dfy` | `Wrappers` | `Option` and `Result` |
| `text.dfy` | `Text` | JavaScript's `String.prototype.trim`, with the ECMAScript whitespace set |
| `escape.dfy` | `Escape` | `escapeHtml`, as the code behaves |
| `labels.dfy` | `Labels` | the element record, the selector, both label rules (the collector's and the highlighter's), and the collection specified as a function (`CollectedLabels`) |
| `api_client.dfy` | `ApiClient` | the URL normalisation of `getApiBase`, the 250-label batch, and the reading of the background page's reply |
| `panel.dfy` | `Panel` | the panel body, the results rows, and the highlighted document as a function of the old one |
| `content_script.dfy` | `ContentScript` | class `Page`, described below |

Class `Page` holds the mutable state:
- the document's elements, as an array;
- the `panelInjected` flag;
- the panel body.

Its methods are the script's steps (`CollectButtonTexts`, `InjectPanel`, the close handler, the two render functions, `HighlightMalicious`, `RunScan`). Each method is proved against the functions of the other modules.

## Model

| member | source | states |
|---|---|---|
| Text.Trim | chrome_extension/content_script.js:39-42 | `String.prototype.trim`, as called at lines 39-42, 59 and 144: leading whitespace dropped, then trailing whitespace dropped, with the ECMAScript whitespace set |
| Text.TrimSound | chrome_extension/content_script.js:39-42 | a trimmed label has no whitespace at either end, is no longer than the raw field, and is empty exactly when the field is blank |
| Text.TrimOfPadded | chrome_extension/content_script.js:39-42 | trimming any blank padding around a trimmed string gives that string back (with TrimSound, this pins `trim` down) |
| Text.TrimIdempotent | chrome_extension/content_script.js:39 | trimming twice is trimming once |
| Escape.RunLength | chrome_extension/content_script.js:155 | the greedy `[&<>"]+` match at the front: every character before it is special, the one after it is not |
| Escape.Entity | chrome_extension/content_script.js:155 | each table entry starts with `&`, ends with `;` and holds no `<`, `>` or `"` |
| Escape.Replacement | chrome_extension/content_script.js:155 | what the callback yields for a matched run: the run's entity when it is one character long, "undefined" otherwise; never holds markup |
| Escape.EscapeHtml | chrome_extension/content_script.js:155 | `escapeHtml`: the text with each maximal run of special characters replaced by `Replacement` of the run, everything else copied |
| Escape.EscapeHtmlNoMarkup | chrome_extension/content_script.js:154-156 | for every input, the escaped text contains no `<`, `>` or `"` |
| Escape.EscapePlain | chrome_extension/content_script.js:155 | text with none of `&<>"` comes back unchanged |
| Escape.EscapeConcat | chrome_extension/content_script.js:155 | escaping distributes over concatenation whenever the cut does not split a run of special characters |
| Escape.EscapeSingle | chrome_extension/content_script.js:155 | a lone special character between non-special neighbours becomes its entity |
| Escape.EscapeRun | chrome_extension/content_script.js:155 | a maximal run of two or more special characters becomes the text "undefined" |
| Escape.RunsBecomeUndefined | chrome_extension/content_script.js:155 | `<<` and `&&` both escape to "undefined" |
| Escape.LoneCharacterBecomesEntity | chrome_extension/content_script.js:155 | `a<b` escapes to `a&lt;b` |
| Labels.Clickable | chrome_extension/content_script.js:35 | the selector: A and BUTTON elements, any element with role "button", and INPUT elements of type "button" or "submit" |
| Labels.ExtractionLabel | chrome_extension/content_script.js:38-44 | the collector's `getLabel`: trimmed inner text, else the trimmed value of an INPUT, else the trimmed aria-label, else the trimmed title |
| Labels.HighlightLabel | chrome_extension/content_script.js:144 | the highlighter's `getLabel`: the first non-empty of inner text, value, aria-label and title, trimmed |
| Labels.ExtractionLabelSound | chrome_extension/content_script.js:38-44 | the collector's label is trimmed; it is empty iff inner text, the value (INPUT only), aria-label and title are all blank; otherwise it is one of the trimmed fields |
| Labels.ExtractionIsFirstNonBlank | chrome_extension/content_script.js:38-44 | the collector's label is the trim of the first non-blank field in the order inner text, value (INPUT only), aria-label, title |
| Labels.ExtractionPrefersText | chrome_extension/content_script.js:39 | non-blank inner text decides the label |
| Labels.ExtractionIgnoresValueOfNonInputs | chrome_extension/content_script.js:40 | the value of an element that is not an INPUT never changes its label |
| Labels.HighlightLabelSound | chrome_extension/content_script.js:144 | the highlighter's label is trimmed, and it is empty exactly when the first non-empty field is blank |
| Labels.HighlightIsFirstNonEmpty | chrome_extension/content_script.js:144 | the highlighter's label is the trim of the first non-empty field among inner text, value (any tag), aria-label, title |
| Labels.LabelsAgreeOnVisibleText | chrome_extension/content_script.js:144 | where the inner text is not blank, both rules give the same label |
| Labels.BlankTextFallsThrough | chrome_extension/content_script.js:144 | whitespace-only inner text falls through to aria-label when collecting but gives the empty label when highlighting |
| Labels.ButtonValueIsRead | chrome_extension/content_script.js:144 | a non-INPUT element's value is read by the highlighter but not by the collector |
| Labels.CloseButtonIsIgnored | chrome_extension/content_script.js:92 | the panel's close button (text "✕", aria-label "Close") is neither collected nor matched, since its label has one character |
| Labels.Kept | chrome_extension/content_script.js:47-51 | an element adds its label to the `Set` when it matches the selector and its label is neither empty (line 49) nor shorter than two characters (line 50) |
| Labels.Candidates | chrome_extension/content_script.js:47-51 | every label the loop offers to the `Set` has at least two characters and is trimmed |
| Labels.CandidatesMembers | chrome_extension/content_script.js:47-51 | a label is offered iff some clickable element derives it with at least two characters |
| Labels.Dedup | chrome_extension/content_script.js:46-53 | a `Set` filled in order and read back with `Array.from`: each value once, at its first place |
| Labels.CollectedLabels | chrome_extension/content_script.js:33-54 | the result of `collectButtonTexts`: the de-duplicated labels the loop offers |
| Labels.DedupSound | chrome_extension/content_script.js:46-53 | the `Set` read back holds each value once, exactly the values added, in order of first addition |
| Labels.CollectedLabelsDistinct | chrome_extension/content_script.js:46-53 | the collected labels are pairwise distinct and each has at least two characters |
| Labels.CollectedLabelsSound | chrome_extension/content_script.js:46-53 | collected labels are trimmed, have at least two characters and are distinct; a label is collected iff some clickable element derives it; labels are ordered by first occurrence in document order |
| ApiClient.EndsInPredictBatch | chrome_extension/content_script.js:62 | the test `/\/predict_batch\/?$/`: the path ends in `/predict_batch` or `/predict_batch/` |
| ApiClient.RewritePath | chrome_extension/content_script.js:63 | the rewritten path is the old path followed by `/predict_batch`, with exactly one trailing slash dropped when the old path ends in one and nothing dropped otherwise |
| ApiClient.RewriteExamples | chrome_extension/content_script.js:63 | `/api/` becomes `/api/predict_batch`, and `/` becomes `/predict_batch` |
| ApiClient.Normalize | chrome_extension/content_script.js:60-65 | an unparseable value, or one whose path already ends in `/predict_batch` or `/predict_batch/`, is returned as is; a value that parses with any other path becomes its origin followed by the rewritten path, which ends in the endpoint |
| ApiClient.Preference | chrome_extension/content_script.js:59 | a non-empty stored value is kept as it is; an unset or empty one becomes the default; so the value to trim is never empty |
| ApiClient.ApiBase | chrome_extension/content_script.js:56-69 | `getApiBase`: the stored preference or the default, trimmed, then normalised |
| ApiClient.UnparseableIsOnlyTrimmed | chrome_extension/content_script.js:59-66 | when the trimmed value does not parse, the API base is that trimmed value |
| ApiClient.UnsetUsesDefault | chrome_extension/content_script.js:59-66 | with nothing (or the empty string) stored, the API base is `http://127.0.0.1:5000/predict_batch` |
| ApiClient.NormalizeIdempotent | chrome_extension/content_script.js:59-66 | normalising twice gives the same URL as normalising once |
| ApiClient.BlankPreferenceGivesEmptyUrl | chrome_extension/content_script.js:59-61 | a stored value made only of whitespace is not replaced by the default, and the API base becomes the empty string |
| ApiClient.Batch | chrome_extension/content_script.js:72 | the batch is the prefix of min(n, 250) labels |
| ApiClient.BatchCapsAt250 | chrome_extension/content_script.js:72 | at most 250 labels pass unchanged; more are cut to exactly the first 250, and the rest are dropped |
| ApiClient.CallApi | chrome_extension/content_script.js:71-82 | `callApi`: the reply of the backend to the batch of the first 250 labels, read by `ReadReply` |
| ApiClient.ReadReply | chrome_extension/content_script.js:78-81 | the call succeeds iff a reply exists with `ok` true, and then yields its `results`; otherwise it fails with the reply's `error` text, or "Unknown error" when there is none |
| Panel.Verdict | chrome_extension/content_script.js:133 | a row's verdict is entry i of the results when that entry exists and is not falsy, and "Unknown" otherwise; it is never empty |
| Panel.IsMalicious | chrome_extension/content_script.js:141 | the filter `results?.[i] === 'Malicious'`: there are results, entry i exists, and it is exactly "Malicious" |
| Panel.BadgeClass | chrome_extension/content_script.js:134 | `cb-mal` for the verdict "Malicious", `cb-safe` for every other |
| Panel.RenderRows | chrome_extension/content_script.js:132-136 | one row per label, in order; row i holds label i escaped and the verdict at position i; its class is `cb-mal` iff result i is exactly "Malicious", and `cb-safe` otherwise |
| Panel.RowsHaveNoMarkup | chrome_extension/content_script.js:135 | no row's label text contains `<`, `>` or `"` |
| Panel.RowsPastTheBatchAreUnknown | chrome_extension/content_script.js:132-136 | when the reply answers only the labels sent, every label past the first 250 still gets a row, showing "Unknown" with the safe class |
| Panel.MaliciousSet | chrome_extension/content_script.js:141 | the labels whose result at the same position is exactly "Malicious" |
| Panel.BadgeMatchesHighlight | chrome_extension/content_script.js:132-141 | for distinct labels, a row's badge is red exactly when its label is in the set the highlighter looks for |
| Panel.MaliciousSetFromTexts | chrome_extension/content_script.js:141 | every label the highlighter looks for is one of the labels sent; without results there are none |
| Panel.Mark | chrome_extension/content_script.js:145-151 | one turn of the highlighter's loop: the element outlined when it is clickable and its highlight label is in the set, otherwise unchanged |
| Panel.Highlighted | chrome_extension/content_script.js:145-151 | the document after the loop: `Mark` applied to every element, in place, the length unchanged |
| Panel.HighlightedSound | chrome_extension/content_script.js:145-151 | the same elements stay in the same places; an element is outlined iff it already was, or it is clickable and its highlight label is in the malicious set; nothing else about it changes |
| Panel.NothingMaliciousChangesNothing | chrome_extension/content_script.js:142 | with no malicious label the document is left as it is |
| Panel.HighlightIdempotent | chrome_extension/content_script.js:145-151 | highlighting twice is highlighting once |
| ContentScript.Page.constructor | chrome_extension/content_script.js:5 | a fresh page holds the document's elements, with no panel and the flag clear |
| ContentScript.Page.CollectButtonTexts | chrome_extension/content_script.js:33-54 | the loop over the elements returns exactly `CollectedLabels` of the document: distinct labels of at least two characters |
| ContentScript.Page.InjectPanel | chrome_extension/content_script.js:84-95 | a no-op while a panel is shown; otherwise sets the flag and shows "Scanning..."; the flag is set exactly while a panel exists |
| ContentScript.Page.ClosePanel | chrome_extension/content_script.js:112-116 | removes the panel and clears the flag |
| ContentScript.Page.RenderPanelLoading | chrome_extension/content_script.js:119-123 | shows the count when a panel exists, and does nothing otherwise |
| ContentScript.Page.RenderPanelResults | chrome_extension/content_script.js:125-138 | without a panel it does nothing; a non-empty error message becomes a single escaped note; otherwise the body is the rendered rows |
| ContentScript.Page.HighlightMalicious | chrome_extension/content_script.js:140-152 | the in-place loop leaves the element array equal to `Highlighted` of the old document and the malicious set |
| ContentScript.Page.RunScan | chrome_extension/content_script.js:14-31 | with no labels: "No clickable labels found", no request, document unchanged; otherwise the request carries the normalised URL and the first 250 labels; a failed reply gives "API Error", no rows and no outline; a successful one gives the rows and the highlighted document |
| ContentScript.EscapeLeavesMessages | chrome_extension/content_script.js:21-28 | the two fixed messages pass through `escapeHtml` unchanged |

## Behaviour worth knowing

- **Two label rules.** The highlighter (line 144) does not reuse the collector's rule. It takes `innerText || value || aria-label || title` and trims only at the end, so whitespace-only inner text does not fall through, and `value` is read on any tag. `Labels.BlankTextFallsThrough` and `Labels.ButtonValueIsRead` give elements on which the two rules differ.
- **Label order.** `Array.from` on the collector's `Set` (line 53) lists labels in order of first occurrence in the document; `Labels.CollectedLabelsSound` proves that order.
- **Escaping.**
  - The badge text (`results[i]`, line 135) is inserted into the markup without escaping; `Row.badge` carries it raw.
  - `escapeHtml` (line 155) turns any run of two or more special characters into "undefined", so the escaped text is free of markup but loses text.
- **Replies without results.** A reply with `ok` true and no `results` (lines 78-81) is not an error: every row then shows "Unknown".
- **Error text.** The message `callApi` throws (line 79) is never shown: `runScan`'s catch (line 28) shows "API Error" instead.
- **Blank preference.** A stored preference made only of whitespace is truthy at line 59, so the default does not replace it; it trims to the empty string (`ApiClient.BlankPreferenceGivesEmptyUrl`).
- **Path rewrite.** The rewrite at line 63 keeps only `origin` and `pathname`: the query and the fragment of the stored URL are dropped.

## Left out

- Messaging and storage are not modelled:
  - The `chrome.runtime` listener and `sendMessage`, and `chrome.storage.sync` (lines 8-12, 58, 74), are not modelled.
  - The stored preference is a parameter of `RunScan`.
  - The background page's answer is a function parameter from request to `Reply`.
- The `URL` constructor is not modelled. Parsing is a parameter `string -> Option<Url>`, where `None` means it throws.
- Async ordering is not modelled:
  - A scan is one sequential step, so overlapping scans and a document that changes while the request is pending are not captured.
  - `Labels.CloseButtonIsIgnored` shows why leaving the panel's own close button out of the element array changes nothing.
- `console.error` (line 29) is not modelled.
- The CSS, the HTML templates and the exact loading text are not modelled:
  - `Loading(count)` stands for "Found <count> items. Classifying...".
  - `Results(rows)` stands for the rows followed by the fixed note.
- Lengths are counted in Unicode characters, not UTF-16 code units, so a label made of one astral character counts as one character, not two.
- `Labels.Clickable`: matching of the `type` attribute is exact and lower-case. The browser matches these attribute values case-insensitively, and `tag` is taken as the upper-case `tagName`.
- Non-string entries in `results` are not modelled:
  - They are stored as strings.
  - A missing or falsy entry is the empty string.
  - An exception thrown while rendering them is not represented.
- Labels.HighlightLabel: every field is a string. A numeric `value` of 0 (the default of `li`, `progress` and `meter`) is falsy and behaves like the empty string, which the model's `""` already represents. A non-zero number (an `<li role="button" value="3">`, say) on an element with empty inner text reaches `trim` at line 144 and throws; `runScan`'s catch then replaces the rendered rows with "API Error", with the elements before it in the loop already outlined. The model's `HighlightMalicious` and `RunScan` cannot fail after a successful reply.
- ApiClient.NormalizeIdempotent: proved for parsers that read back the origin and path of a URL they produced (or reject it). Nothing is assumed about how `URL` parses in general.
- `chrome_extension/popup.js` is not part of this model; its trim-or-default rule is the stored value taken as input. Neither are `chrome_extension/generate_icons.py` (image drawing) nor the training scripts (library calls and floating point).
