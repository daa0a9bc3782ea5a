# Product description generator: form model

A Dafny model of the single page of the product description generator
(`app/page.tsx`). The page lets a user upload a product image, pick up to three
target languages from a fixed catalog of eight, and ask a backend endpoint for
one marketing description per language. The model covers the page's own logic:

- `Languages` (`languages.dfy`): the static catalog (`en`, `es`, `fr`, `de`,
  `it`, `ja`, `ko`, `zh` with their English names) and the first-match lookup
  `languages.find(l => l.code === code)?.name` that labels chips and results.
- `Selection` (`selection.dfy`): `handleLanguageSelect` as a pure function on
  the list of selected codes. A selected code is filtered out, an unselected
  code is appended while fewer than three are selected, and otherwise nothing
  changes. Lemmas prove the order-preserving removal, the append, the ignored
  fourth pick and the undo of a double click. They also prove the invariant
  that any run of clicks from the empty selection keeps at most three codes
  and no repeats.
- `Form` (`form.dfy`): the component state (`image`, `selectedLanguages`,
  `descriptions`, `isLoading`) as the class `FormController`. Each handler is
  a method that overwrites those fields the way the React setters do.
  `handleSubmit` is split at its `await` into `BeginSubmit` and
  `CompleteSubmit`. `BeginSubmit` runs the guard, enters loading and returns
  the request body. `CompleteSubmit` takes the endpoint's response as a
  parameter. The generate button's `disabled` expression and the click it
  gates are modelled too (`SubmitDisabled`, `PressGenerate`).
- `Wrappers` (`wrappers.dfy`): the `Option` type, used for `string | null` and
  for the `undefined` a failed `find` returns.

Points where the model follows the code's exact behaviour:

- The guard `!image` in `handleSubmit` and in the `disabled` expression is
  JavaScript truthiness. It rejects a missing image and also an empty URL
  string. `HasImage` says so, and `SubmitGuardCases` lists both cases.
- `filter(l => l !== lang)` drops every occurrence of the code (`Without`).
  Under the no-repeats invariant that is exactly one entry (`ToggleSelected`).
- Removing the image does not clear earlier results (`RemoveImage` keeps
  `descriptions`).
- The results section is shown when `Object.keys(descriptions).length > 0`.
  For the array the page stores there, that is the array's length
  (`ShowsResults`).

## Model

| member | source | states |
|---|---|---|
| `Languages.FindIndex` | app/page.tsx:126 | the lookup stops at the first catalog entry whose code matches, and finds nothing exactly when no entry matches |
| `Languages.Find` | app/page.tsx:126 | the lookup finds nothing exactly when no entry has the code; otherwise it returns an entry with that code, and no earlier entry has it |
| `Languages.NameOf` | app/page.tsx:166 | a code has a display name exactly when the catalog lists it, and that name is the one listed beside the code; otherwise the label is undefined |
| `Languages.CatalogDistinct` | app/page.tsx:18-27 | no code appears twice in the catalog |
| `Languages.FindDistinct` | app/page.tsx:126 | in a list with distinct codes, looking up an entry's code returns that entry |
| `Languages.CatalogNames` | app/page.tsx:18-27 | every catalog code is labelled with the name listed beside it (en is English, ..., zh is Chinese) |
| `Languages.Names` | app/page.tsx:121-128 | resolving a list of codes gives one label per code, in the same order |
| `Languages.NamesOfCatalogCodes` | app/page.tsx:138-143 | codes the picker can produce (catalog codes) all resolve to a name |
| `Selection.Without` | app/page.tsx:50 | filtering removes the code completely, keeps every other code's membership, and shortens the list when the code was present |
| `Selection.WithoutAbsent` | app/page.tsx:50 | filtering out a code that is not selected leaves the list unchanged |
| `Selection.WithoutAppend` | app/page.tsx:50 | filtering a concatenation is the concatenation of the filtered parts |
| `Selection.WithoutKeepsOrder` | app/page.tsx:50 | removing the single occurrence of a code closes the gap, keeping the entries before and after it in order |
| `Selection.WithoutNoDuplicates` | app/page.tsx:50 | filtering never introduces a repeated code |
| `Selection.Toggle` | app/page.tsx:48-54 | after a click the code is selected exactly when it was unselected and fewer than three were selected; every other code keeps its membership |
| `Selection.ToggleSelected` | app/page.tsx:49-50 | clicking the selected code at index i yields the list without index i, the rest in their original order |
| `Selection.ToggleUnselected` | app/page.tsx:51-52 | clicking an unselected code below capacity appends it at the end, earlier picks unchanged |
| `Selection.ToggleAtCapacity` | app/page.tsx:51-53 | clicking an unselected code while three are selected leaves the selection exactly as it was |
| `Selection.ToggleTwice` | app/page.tsx:48-54 | clicking the same unselected code twice below capacity restores the original selection |
| `Selection.ToggleValid` | app/page.tsx:48-54 | one click preserves the invariant: at most three codes, none repeated |
| `Selection.ToggleAllValid` | app/page.tsx:48-54 | any run of clicks from a valid selection preserves that invariant |
| `Selection.ReachableValid` | app/page.tsx:31 | from the initial empty selection, any run of clicks leaves at most three distinct codes |
| `Selection.ToggleAllWithin` | app/page.tsx:138-143 | clicks can only select codes that were selected before or were clicked, so a picker offering catalog codes keeps the selection inside the catalog |
| `Selection.FourthPickRefused` | app/page.tsx:48-54 | picking es, fr, de and then ja ends with the selection [es, fr, de]; ja is refused |
| `Form.SubmitGuardCases` | app/page.tsx:57 | a null image, an empty URL or an empty selection stops the submit; a non-empty URL with at least one language lets it through |
| `Form.SubmitDisabled` | app/page.tsx:154 | the generate button is enabled exactly when the submit guard at line 57 lets the request through and no request is in flight |
| `Form.Headings` | app/page.tsx:163-170 | the results show one heading per description, in response order, each the catalog name of its language code |
| `Form.FormController.constructor` | app/page.tsx:30-35 | the page starts with no image, no languages, no descriptions and not loading |
| `Form.FormController.SetImage` | app/page.tsx:45 | a finished upload puts its URL in the image slot and changes nothing else |
| `Form.FormController.RemoveImage` | app/page.tsx:98 | removal empties the image slot and keeps the selection, loading flag and earlier results |
| `Form.FormController.ToggleLanguage` | app/page.tsx:48-54 | the selection becomes the toggle of the old one, the invariant (at most three catalog codes, no repeats) is kept, and nothing else changes |
| `Form.FormController.BeginSubmit` | app/page.tsx:56-67 | with no image or no language nothing changes and nothing is sent; otherwise loading starts and the request carries exactly the current selection and image URL |
| `Form.FormController.CompleteSubmit` | app/page.tsx:69-73 | the response replaces all descriptions at once, loading ends, and image and selection are untouched |
| `Form.FormController.PressGenerate` | app/page.tsx:152-155 | a click starts a request exactly when the button is enabled, so never while another request is in flight; the request carries the current selection and image |
| `Form.FormController.ChipLabels` | app/page.tsx:121-128 | one chip per selected code, in picking order, each labelled with that code's catalog name, which always exists |
| `Form.FormController.ShowsResults` | app/page.tsx:160 | the results section appears exactly when it has at least one heading block (one per description) to render |

`Form.EnglishScenario` is a client of the class whose assertions follow one session: upload, pick
English, generate, a second click that does nothing while loading, receive one
English description, then remove the image. The results heading is "English"
and the results stay after the removal.

## Left out

- The S3 upload (`useS3Upload`, `uploadToS3`, app/page.tsx:36-43) is a foreign library doing network I/O. Its result is the `url` parameter of `SetImage`. Choosing no file, which returns early, is the absence of a `SetImage` call.
- The `fetch` to `/api/generateDescriptions` and `response.json()` (app/page.tsx:61-69) are network I/O and untyped JSON parsing. The request body is the value `BeginSubmit` returns, and the parsed response is the `response` parameter of `CompleteSubmit`, taken to be a list of language/description pairs. A non-array JSON value is not modelled.
- A failed upload or a rejected request has no handler in the source. A failed request leaves `isLoading` true for good. The model has no recovery step: after `BeginSubmit`, only `CompleteSubmit` (the success path) exists.
- Interleaving of the handlers is modelled at handler granularity. Each method is one handler step that runs to completion, and the methods may be called in any order. So an upload, a removal or a toggle may land between `BeginSubmit` and `CompleteSubmit`, and responses may arrive in any order. What is not modelled is the pairing of a response with the request that produced it: `CompleteSubmit` accepts any response, and a response is not tied to an earlier `BeginSubmit`.
- Form.FormController.ToggleLanguage: requires the code to be a catalog code. The source's only caller, the picker at app/page.tsx:138-143, passes `lang.code` from the catalog. `Selection.Toggle` itself accepts any code.
- JSX rendering, CSS classes, the dropdown wiring (`preventDefault` on select) and `console.log` (app/page.tsx:44, 70, 76-174) are left out. The only parts kept are the labels, the results condition and the button's `disabled` expression.
