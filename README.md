# .gitignore merge page: a verified model of its state machine

The page lets a user search the list of `.gitignore` templates of the
`github/gitignore` repository, select several languages, fetch their
templates, join them into one file and download it. All of its logic lives in
`app.js`. Under the DOM and `fetch` calls there is a small sequential state
machine, and this project models it in Dafny:

- `JsStrings` (`js_strings.dfy`) models the JavaScript built-ins the script
  relies on. `includes` is specified by a first-occurrence search. `replace`
  with a string pattern replaces the first occurrence. `toLowerCase` works on
  ASCII letters. `trim` removes ECMAScript whitespace and line terminators.
  `Array.prototype.join` is given with a proved layout: each part sits at its
  own offset, with one separator between consecutive parts.
- `Sequences` (`sequences.dfy`) defines subsequences and the no-duplicates
  property, with the facts about them that the other modules use.
- `Catalog` (`catalog.dfy`) holds the template-name derivation of line 17 and
  the search filter of lines 26-29.
- `Selection` (`selection.dfy`) holds the selection list operations: adding
  when absent (lines 47-48), and filtering every occurrence of a name out
  (line 73).
- `Combiner` (`combiner.dfy`) holds the pure parts of `combineGitignore`. It
  has the fixed messages and `Promise.all` as an all-or-nothing gather of the
  per-language results. It also has the body text joined by a blank line, and
  the label.
- `App` (`app.dfy`) has one `Controller` class whose fields are the script's
  state. These are `catalog` (`allLanguages`), `filtered`
  (`filteredLanguages`) and `selection` (`selectedLanguagesList`). Then the
  DOM state: `badges` (the badge texts, in order), `query` (the search box),
  `suggestions` (the rendered suggestion texts), `buffer` (the raw text
  assigned to the text area), `labelText` (the "combined languages" caption)
  and `downloadEnabled` (the download button). Each event handler is a method that updates these fields.
  `Download` returns the file it would offer.

The controller keeps `Valid()`:

- the selection has no duplicates;
- the badges equal the selection, element by element;
- `filtered` is a subsequence of `catalog`;
- `filtered` is the filter of the current query, unless a selection cleared
  the query (then it is stale);
- the suggestions are either empty or equal to `filtered`.

A second invariant, `SelectionFromCatalog()`, says that every selected name
is a catalog entry. `SelectLanguage` (for a catalog name), `ClickSuggestion`,
`KeyDown`, `RemoveBadge` and `Input` preserve it, stated in
`old(...) ==> ...` form. `Combine` changes neither the selection nor the
catalog. `LoadCatalog` does not preserve it in general: a
second listing that lacks a selected name would break it. `LoadCatalog`
establishes it only from an empty selection. In app.js the selection is empty
when the listing arrives, because the listing is fetched once (line 14).
Until it arrives `filteredLanguages` is empty, so neither Enter (line 138)
nor a suggestion click (no suggestion is rendered) can select anything. The
invariant also rests on clicks landing on rendered suggestions only (see
below).

Points where the code does something a reader might not expect; the model
follows the code:

- Line 17 removes the first `.gitignore` anywhere in a name, not only a
  suffix. `TemplateNameOfFile` proves that for `base.gitignore` the result is
  exactly `base`, when `base` holds no `.gitignore` of its own.
- Enter (lines 135-142) compares the trimmed query, case-sensitively, with
  the entries of `filteredLanguages`. That list was computed from the
  untrimmed query and is not recomputed by `selectLanguage`.
  `PaddedQueryNotFiltered` shows that the trim never helps. When the query has
  surrounding whitespace, the trimmed text is shorter than the untrimmed filter
  term and cannot contain it, so it is never in `filtered`, and Enter changes
  nothing (`KeyDown`).
- Enter selects only an entry of `filteredLanguages`, and a suggestion's own
  listener (line 39) selects only a filtered entry. The delegated listener
  (lines 127-131) selects the `textContent` of whatever `div` was clicked
  inside the suggestion list. The model has clicks on rendered suggestions
  only (see the `tagName` line under "## Left out"). Under that assumption
  every handler preserves `SelectionFromCatalog()`. A click on a `div` other
  than a suggestion is outside the model, and such a click could select the
  concatenated text of all suggestions, which is not a catalog name.
- Lines 89-95 never look at the HTTP status. A response with an error status
  still has its body read, so such a body is a present result here.
- The text area keeps the raw text assigned at line 98, but reading its
  `value` at line 110 gives that text with every CR LF pair and every lone CR
  turned into one LF. `Download` offers `NormalizeNewlines(buffer)`, which is
  the buffer itself whenever the buffer holds no CR.

## Model

| member | source | states |
|---|---|---|
| `JsStrings.IndexOfFrom` | app.js:28 | the result is the first index at or after `from` where the pattern occurs; None exactly when it occurs nowhere from there on |
| `JsStrings.Includes` | app.js:28 | `includes` holds exactly when the pattern occurs at some index |
| `JsStrings.IncludesEmpty` | app.js:28 | every string includes the empty string, so an empty term matches every entry |
| `JsStrings.ReplaceFirst` | app.js:17 | `replace` with a string pattern removes one occurrence's length and adds the replacement's when the pattern occurs, and keeps the length otherwise; `ReplaceFirstAbsent` and `ReplaceFirstAt` fix the content |
| `JsStrings.ReplaceFirstAbsent` | app.js:17 | `replace` leaves a string without the pattern unchanged |
| `JsStrings.ReplaceFirstAt` | app.js:17 | when `i` is the first occurrence, `replace` cuts out exactly that occurrence and inserts the replacement |
| `JsStrings.ToLower` | app.js:26-28 | lower-casing keeps the length, turns each ASCII capital into the matching small letter, and keeps every other character as it was |
| `JsStrings.ToLowerEmpty` | app.js:35 | the lower-cased query is empty exactly when the query is, so the `searchTerm !== ''` test is a test on the query |
| `JsStrings.TrimStart` | app.js:111 | the result is a suffix of the input, everything dropped is whitespace, and the result does not start with whitespace |
| `JsStrings.TrimEnd` | app.js:111 | the result is a prefix of the input, everything dropped is whitespace, and the result does not end with whitespace |
| `JsStrings.Trim` | app.js:111 | the result is one stretch of the input with only whitespace before and after it, neither starting nor ending with whitespace, and it is empty exactly when the input is whitespace only |
| `JsStrings.Join` | app.js:97 | the join of no parts is empty, and a join starts with its first part; `JoinLength`, `JoinPartAt` and `JoinSeparatorAt` fix the rest of the layout |
| `JsStrings.JoinLength` | app.js:97 | a join is as long as all parts plus one separator between each consecutive pair |
| `JsStrings.JoinPartAt` | app.js:97 | part `k` appears whole in the join at its offset, so the parts keep their order |
| `JsStrings.JoinSeparatorAt` | app.js:97 | exactly one separator stands between part `k` and part `k + 1` |
| `Sequences.SubsequenceMembers` | app.js:27-29 | every element of a subsequence is an element of the original |
| `Sequences.SubsequenceNoDuplicates` | app.js:73 | a subsequence of a duplicate-free sequence is duplicate-free |
| `Catalog.TemplateName` | app.js:17 | a name loses exactly the length of `.gitignore` when it contains it, and keeps its length otherwise; `TemplateNamePassThrough` and `TemplateNameOfFile` fix the content |
| `Catalog.TemplateNamePassThrough` | app.js:17 | a listing name without `.gitignore` (a folder, `LICENSE`) passes through unchanged |
| `Catalog.TemplateNameOfFile` | app.js:17 | for `base.gitignore`, where `base` has no `.gitignore` of its own, the derived name is exactly `base` |
| `Catalog.DeriveCatalog` | app.js:17 | the catalog has one entry per listing entry, none longer than the name it came from; `DeriveCatalogEntry` gives each entry |
| `Catalog.DeriveCatalogOfFiles` | app.js:17 | the catalog keeps the listing's length and order; a listing of template files gives back exactly their base names |
| `Catalog.DeriveCatalogEntry` | app.js:17 | entry by entry, whatever else the listing holds: a name without `.gitignore` (a folder, `LICENSE`) is kept, and `base.gitignore` gives `base` when `base` has no `.gitignore` of its own |
| `Catalog.Matches` | app.js:28 | the empty term matches every entry, and no entry shorter than the term matches |
| `Catalog.Filter` | app.js:27-29 | the result is no longer than the catalog and every kept entry matches the term; `FilterSubsequence` and `FilterCounts` fix it exactly |
| `Catalog.FilterSubsequence` | app.js:27-29 | the filtered list is a subsequence of the catalog, in catalog order |
| `Catalog.FilterCounts` | app.js:27-29 | the filter keeps every occurrence of each entry whose lower-case form contains the term and none of the others; membership holds both ways |
| `Catalog.FilterEmptyTerm` | app.js:26-29 | with an empty query the filtered list is the whole catalog |
| `Selection.Selected` | app.js:47-48 | the name is in the result, the old selection is a prefix of it, and it grew by one exactly when the name was absent |
| `Selection.SelectedIdempotent` | app.js:47-48 | adding the same name twice gives the same selection as adding it once |
| `Selection.SelectedNoDuplicates` | app.js:47-48 | adding keeps the selection duplicate-free |
| `Selection.Without` | app.js:73 | the filtered-out name occurs nowhere in the result |
| `Selection.WithoutKeepsOthers` | app.js:73 | every other name keeps its number of occurrences |
| `Selection.WithoutSubsequence` | app.js:73 | the remaining names keep their relative order |
| `Selection.WithoutAbsent` | app.js:73 | filtering out a name that is absent changes nothing |
| `Selection.WithoutAppend` | app.js:73 | filtering distributes over concatenation |
| `Selection.WithoutAppendOne` | app.js:73 | filtering a list extended by one element extends the filtered list by that element, unless it is the filtered-out name |
| `Selection.WithoutNoDuplicates` | app.js:73 | filtering keeps the selection duplicate-free |
| `Selection.RemoveUndoesSelect` | app.js:68-76 | removing a name just added to a selection that lacked it restores that selection |
| `Combiner.Gather` | app.js:89-95 | all-or-nothing: bodies exist exactly when every result is present, and then they are the results in selection order |
| `Combiner.GatherFailsOnAnyFailure` | app.js:89-95 | one failed fetch fails the whole batch, whatever the others gave |
| `Combiner.CombinedText` | app.js:97 | no bodies give the empty text, and the text starts with the first body; `CombinedTextOrder` places every body |
| `Combiner.CombinedTextOrder` | app.js:97 | body `k` stands whole at its place in selection order, with a blank line before the next body |
| `Combiner.Label` | app.js:99 | the label starts with `Combined .gitignore files for: `, and is only that without names; `LabelOrder` places every name and separator |
| `Combiner.LabelOrder` | app.js:99 | after the fixed prefix, name `k` stands whole at its place in selection order, and one `", "` separates it from the next name |
| `Combiner.CombineExample` | app.js:97-99 | bodies "A" and "B" for Python and Node give "A\n\nB" and "Combined .gitignore files for: Python, Node" |
| `App.NormalizeNewlines` | app.js:110 | reading the text area yields no CR, is no longer than the raw text, and equals the raw text when it holds no CR; `LoneCarriageReturn` and `CarriageReturnLineFeed` say what each CR becomes |
| `App.NormalizeAppend` | app.js:110 | normalizing a concatenation normalizes each piece, unless a CR LF pair is split between them |
| `App.LoneCarriageReturn` | app.js:110 | a CR not followed by an LF becomes one LF, and the text around it is normalized on its own |
| `App.CarriageReturnLineFeed` | app.js:110 | a CR LF pair becomes one LF, and the text around it is normalized on its own |
| `App.NormalizeKeepsBlank` | app.js:110-111 | the read text is whitespace only exactly when the raw text is, so the trim guard decides the same on either |
| `App.PaddedQueryNotFiltered` | app.js:137-138 | a query with surrounding whitespace never has its trimmed form in the list filtered by that query |
| `App.RenderSuggestions` | app.js:36-41 | one suggestion per filtered entry, in the filtered order |
| `App.BadgeWalkStep` | app.js:70-74 | one step of the badge walk: removing or keeping the current badge extends the already-filtered part by one |
| `App.Controller.constructor` | app.js:9-11 | the script starts with empty lists, an empty search box and no suggestions or badges, in a valid state |
| `App.Controller.FilterLanguages` | app.js:25-43 | `filtered` becomes the filter of the lower-cased query (the whole catalog for an empty query); suggestions repeat it, or are empty for an empty query |
| `App.Controller.LoadCatalog` | app.js:14-22 | a listing sets the catalog to the derived names and re-filters; a failed listing changes nothing |
| `App.Controller.Input` | app.js:124 | typing sets the query and re-filters the catalog with it |
| `App.Controller.SelectLanguage` | app.js:46-65 | appends the name when absent, else keeps the selection; clears query and suggestions; keeps the invariants; leaves `filtered` stale |
| `App.Controller.ClickSuggestion` | app.js:127-132 | a suggestion click runs two selects (lines 39 and 130) and adds the suggestion at most once |
| `App.Controller.KeyDown` | app.js:135-142 | Enter selects the trimmed query exactly when it is in the current, possibly stale, `filtered`; otherwise nothing changes; a padded query never selects |
| `App.Controller.RemoveBadge` | app.js:68-76 | the selection loses every occurrence of the name and keeps the rest in order; badges still equal the selection; with no matching badge nothing changes |
| `App.Controller.Combine` | app.js:79-106 | three outcomes: no-selection message, or joined bodies with the label and download enabled, or the error message; download is disabled and the label kept on the two failing paths |
| `App.Controller.Download` | app.js:109-118 | no file when the text area is whitespace only; otherwise `combined.gitignore`, `text/plain`, with the text area's value, which is its raw text with line breaks normalized and exactly the raw text when it holds no CR |

## Left out

- The network and JSON parsing (app.js lines 14-16 and 89-95) are inputs.
  The listing is an optional sequence of names. The per-language results are
  a sequence of optional bodies in selection order. `None` stands for a
  rejected fetch or body read. Any HTTP status counts as a present body, as
  in the code.
- `Promise.all` concurrency is left out, and so is the race between two
  overlapping combine clicks. Each `Combine` call completes atomically.
- DOM element creation, `innerHTML`, event-listener wiring and
  `console.error` are left out. The suggestion list and the badge list are
  modelled by their texts.
- The `Blob`, `URL.createObjectURL`, `link.click()` and `revokeObjectURL`
  mechanics (lines 114-120) are left out. `Download` returns the artifact's
  name, type and content instead.
- `App.Controller.RemoveBadge`: the `'×'` close glyph and the badge
  comparison of line 71 are left out. Badges are plain name strings, and a
  badge matches exactly when its name equals the removed name. In app.js the
  comparison first removes the first `×` of the badge text, then trims it.
  A selected name with its own `×` loses that `×` instead (`A×B` gives
  `AB×`). A name with leading or trailing whitespace loses it (` X` gives
  `X`). Such names never match their badge, so app.js cannot remove them,
  while the model removes them.
- The `tagName` check of the delegated click listener (line 128) is left out.
  The model has clicks only on rendered suggestions. A click on any other
  `div` inside the suggestion list depends on the page markup, which is not
  part of this model. `SelectionFromCatalog()` is proved under this
  assumption only.
- `JsStrings.LowerChar`: lower-cases only ASCII `A`-`Z`, because full
  Unicode case mapping is out of reach. Other characters are kept.
- User edits of the text area are not modelled. `buffer` changes only where
  app.js assigns the text area. `Download`'s contract holds for any `buffer`,
  so edited text is covered by it.
- The initial text area, caption and button state come from the page markup.
  The markup is not part of this model, so they are constructor parameters.
- A disabled download button never fires its click handler. `Download`, like
  `downloadGitignore`, does not check the button itself.
