# A verified model of the jymd Markdown page controller

`jymd.js` is the script of a one-page Markdown tool. It runs as a single controller object,
`MarkdownParser`, which:

- renders the text area through a Markdown engine;
- keeps a catalogue of the images in the rendered output;
- lets the user download the images one at a time or together as a ZIP archive;
- loads `.txt`/`.md` files into the text area.

This project models that controller in Dafny and proves properties of the model.

The model has six modules:

- `Wrappers`: the `Option` type.
- `JsText`: the JavaScript string operations the controller relies on:
  - the `\s` character class;
  - `trim`, `trimStart` and `trimEnd`;
  - `toLowerCase`;
  - `split('.').pop()`;
  - the decimal rendering of a number in a template literal.
- `FileNames`: `sanitizeFilename`, `getImageExtension` (given the URL's pathname), and the
  `{stem}.{extension}` name under which an image is saved.
- `Upload`: the acceptance test of `handleFileUpload`. A file passes on its type OR its
  extension, and then only when it is at most 10 MiB.
- `Catalogue`:
  - the records `extractImages` builds from the `img` elements found in the output;
  - the URLs `downloadImages` fetches;
  - the archive it fills, as a fold over the fetch results in catalogue order.
- `Session`:
  - the class `MarkdownParser`, whose fields are the controller's state together with the
    page elements it drives (text area, output, file control, file-name label, bulk
    button, last toast);
  - a datatype `Page` holding the same state as a value;
  - for each handler, a function from the page as it was to the page it leaves.

Each handler is a method of the class. The method's postcondition ties the new fields
(`Snapshot()`) to that function of the old ones. The page invariants are lemmas about the
functions:

- the catalogue always matches what the output shows;
- the bulk button is disabled exactly when the catalogue is empty.

The lemmas cover parsing, clearing, loading a file and downloading.

Collaborators the controller cannot see into are parameters:

| collaborator | modelled as |
|---|---|
| the Markdown engine (`marked.parse`) | `string -> Option<Document>`; None when it throws |
| the `img` query of the output | the document's image list |
| the result of `fetch` for each image | `Option<Blob>` |
| `new URL(src).pathname` | `string -> Option<string>`; None when the URL does not parse |
| whether JSZip generates the archive | a `bool` |
| what `FileReader` produces | `Option<string>`; None for `onerror` |

Two consequences of the code that the lemmas spell out:

- Every catalogue record gets a non-empty label, because `extractImages` falls back to
  `图片{i+1}`. So the `image_{i+1}` stem of the download code never applies to catalogue
  images (`Catalogue.CatalogueNeverFallsBack`).
- Archive names are not distinct in general. Two images with the same label and extension
  collide. So do labels that differ only in reserved characters or whitespace: "a b" and "a_b"
  are both saved as `a_b.{extension}` (`FileNames.DifferentLabelsCollide`). In the code, the
  entry kept under a shared name is the blob of whichever fetch resolves last. In the model's
  in-order fold, it is the later one in catalogue order (`Catalogue.CollectLastWins`). The
  archive has one entry per successful fetch only when the names are pairwise different
  (`Catalogue.CollectCount`).

Where a prose description of the tool and the code differ, the model follows the code:

- A rejected upload empties the file control but leaves `currentFile` as it was
  (jymd.js:331-341).
- The success toast of a bulk download reports the number of catalogue images, not the
  number of images actually fetched (jymd.js:188).
- Fetches are started together and awaited with `Promise.all`. Each fetch adds its archive
  entry as it resolves, and the model adds the entries in catalogue order.

## Model

| member | source | states |
|---|---|---|
| JsText.IsWhitespace | jymd.js:307 | the characters of JavaScript's `\s` class: the ASCII space and control whitespace, NBSP, OGHAM SPACE MARK, U+2000–U+200A, the line and paragraph separators, NARROW NBSP, MEDIUM MATHEMATICAL SPACE, IDEOGRAPHIC SPACE and the BOM; its properties are used through TrimStartSpec and CollapseWhitespace |
| JsText.TrimStart | jymd.js:47 | `trimStart`: drops leading `\s` characters one at a time; what it keeps and drops is stated by TrimStartSpec |
| JsText.TrimEnd | jymd.js:47 | `trimEnd`: drops trailing `\s` characters one at a time; stated by TrimEndSpec |
| JsText.Trim | jymd.js:47 | `trim` as `trimEnd` after `trimStart`; stated by TrimSpec |
| JsText.TrimStartSpec | jymd.js:47 | what `trimStart` drops is a whitespace-only prefix, and what it keeps is a suffix that is empty or starts with a non-whitespace character |
| JsText.TrimEndSpec | jymd.js:47 | what `trimEnd` drops is a whitespace-only suffix, and what it keeps is a prefix that is empty or ends with a non-whitespace character |
| JsText.TrimSpec | jymd.js:47 | `trim` is empty iff the text is all whitespace; otherwise it starts and ends with non-whitespace; text that already does is unchanged |
| JsText.LowerChar | jymd.js:327 | `toLowerCase` on a character: A–Z move to a–z, KELVIN SIGN goes to 'k', everything else is kept; no upper-case ASCII letter remains |
| JsText.Lower | jymd.js:327 | lowering keeps the length and lowers each character in place |
| JsText.LowerOfLowerWord | jymd.js:327 | lowering leaves a lower-case ASCII word unchanged |
| JsText.LowerIdempotent | jymd.js:327 | lowering twice is lowering once |
| JsText.AfterLastDot | jymd.js:295 | `split('.').pop()` is the longest '.'-free suffix: it contains no '.', it is a suffix, and it is preceded by a '.' whenever it is shorter than the text |
| JsText.AfterLastDotNoDot | jymd.js:327 | a name with no '.' is its own last piece |
| JsText.AfterLastDotOfJoin | jymd.js:295 | the last piece of `stem.ext` is `ext` whatever the stem, when `ext` has no '.' |
| JsText.Digit | jymd.js:79 | one decimal digit renders as a character '0'–'9' |
| JsText.Decimal | jymd.js:79 | `${n}` renders as non-empty digits, with a leading '0' only for 0 |
| JsText.DecimalRoundTrip | jymd.js:79 | reading the rendered digits back gives n |
| JsText.DecimalInjective | jymd.js:79 | different numbers render as different strings |
| FileNames.IsReserved | jymd.js:306 | membership in the class of characters `sanitizeFilename` replaces (`<`, `>`, `:`, `"`, `/`, backslash, the vertical bar, `?`, `*`); its disjointness from whitespace is ReservedIsNotWhitespace |
| FileNames.ReplaceReserved | jymd.js:306 | each of `< > : " / \ \| ? *` becomes '_' and every other character is kept, position by position |
| FileNames.CollapseWhitespace | jymd.js:307 | replacing `\s+` by '_' gives a result with no whitespace, no longer than the input, empty only for empty input, and every character is '_' or comes from the input |
| FileNames.CollapseWithoutWhitespace | jymd.js:307 | text without whitespace is left unchanged |
| FileNames.TrimStartSkipsRun | jymd.js:307 | the regex engine's whitespace run is exactly the leading whitespace of the text |
| FileNames.CollapseRun | jymd.js:307 | a whitespace run of any length becomes a single '_' |
| FileNames.CollapseWord | jymd.js:307 | characters other than whitespace pass through unchanged |
| FileNames.SanitizeFilename | jymd.js:303-309 | null exactly for an absent or empty name; otherwise a non-empty stem of at most 50 characters with no reserved character and no whitespace |
| FileNames.SanitizeSafeStem | jymd.js:303-309 | a non-empty safe stem of at most 50 characters comes back unchanged |
| FileNames.SanitizePrefix | jymd.js:303-309 | for a non-empty name, the stem is the first min(50, n) characters of the replaced and collapsed text of length n |
| FileNames.SanitizeLong | jymd.js:308 | a safe stem longer than 50 characters is cut to its first 50 |
| FileNames.SanitizeIdempotent | jymd.js:303-309 | sanitizing a sanitized name changes nothing |
| FileNames.ReservedIsNotWhitespace | jymd.js:306-307 | the two replacements act on disjoint character sets |
| FileNames.ReplaceReservedIdentity | jymd.js:306 | text with no reserved character passes the first replacement unchanged |
| FileNames.SanitizeUnreserved | jymd.js:303-309 | for text with no reserved character whose collapsed form fits in 50 characters, the result is that collapsed form |
| FileNames.SanitizeTwoWords | jymd.js:303-309 | "w1 <whitespace run> w2" sanitizes to "w1_w2" |
| FileNames.SanitizeReserved | jymd.js:303-309 | "w1 c w2", for a reserved character c, sanitizes to "w1_w2" |
| FileNames.ImageExtension | jymd.js:292-301 | always one of jpg, jpeg, png, gif, webp, bmp, svg; the lowered last piece of the pathname when that piece is in the list; `jpg` otherwise, including when the URL does not parse |
| FileNames.ImageExtensionShape | jymd.js:292-301 | the extension has no '.' and lowering it changes nothing |
| FileNames.ImageExtensionsAreLowerWords | jymd.js:296 | every allowed extension is a lower-case word without '.' |
| FileNames.ImageExtensionOfPath | jymd.js:292-301 | a path ending in `.ext` whose lowered ext is allowed gives that lowered ext |
| FileNames.LowerPng | jymd.js:295 | "PNG" lowers to "png" |
| FileNames.ImageExtensionUpperCase | jymd.js:292-301 | a path ending in `.PNG` gives `png` |
| FileNames.ImageExtensionNoDot | jymd.js:292-301 | a '.'-free path longer than four characters gives `jpg` |
| FileNames.TiffIsNotAnImageExtension | jymd.js:296 | `tiff` lowers to itself and is not an allowed image extension |
| FileNames.ImageExtensionUnknown | jymd.js:292-301 | a path ending in `.tiff` gives `jpg`, and so does an unparsable URL |
| FileNames.FallbackStem | jymd.js:167 | the stem `image_{i+1}` used when a label sanitizes to null; ExportStem states when it applies |
| FileNames.ExportStem | jymd.js:167 | the stem is never empty: the sanitized label when the label is non-empty, `image_{i+1}` when it is empty |
| FileNames.ExportName | jymd.js:166-168 | the saved name is `stem.extension`, and its last '.'-piece is exactly the image extension |
| FileNames.DifferentLabelsCollide | jymd.js:166-168 | the labels "a b" and "a_b", at any two positions, get the same download name whatever the extension |
| Upload.FileExtension | jymd.js:327 | `file.name.split('.').pop().toLowerCase()`; stated by ExtensionOfDottedName and DotlessNameIsItsOwnExtension |
| Upload.IsTextFile | jymd.js:326-330 | the type test passes when the MIME type or the extension is allowed; stated by RejectedIff and the examples |
| Upload.CheckUpload | jymd.js:330-341 | the verdict of handleFileUpload's two tests, in the order they run; stated by CheckUploadCases |
| Upload.CheckUploadCases | jymd.js:326-341 | rejected as unsupported iff neither the type nor the extension is allowed; too large iff the type test passes and the size exceeds 10 MiB; accepted otherwise |
| Upload.RejectedIff | jymd.js:326-341 | a file is rejected iff (type not allowed and extension not allowed) or size > 10·1024·1024 |
| Upload.SizeBoundary | jymd.js:337 | exactly 10 MiB is accepted, and one byte more is too large |
| Upload.ExtensionOfDottedName | jymd.js:327 | the extension of `stem.ext` is ext lowered |
| Upload.LowerMd | jymd.js:327 | "MD" lowers to "md" |
| Upload.MarkdownExamples | jymd.js:326-341 | `.md` and `.MD` files of 1 KiB pass whatever their type, and an 11 MiB `.md` file is too large |
| Upload.CsvRejected | jymd.js:326-334 | a `.csv` file reported as `text/csv` is unsupported |
| Upload.PlainTextTypeSuffices | jymd.js:330 | a `.csv` file reported as `text/plain` passes on its type alone |
| Upload.DotlessNameIsItsOwnExtension | jymd.js:327 | for a name without '.', the extension is the whole name lowered |
| Upload.FileNamedMarkdownAccepted | jymd.js:326-341 | a file named just `Markdown` passes the extension test |
| Upload.LowerMarkdown | jymd.js:327 | "Markdown" lowers to "markdown" |
| Catalogue.FallbackAlt | jymd.js:79 | the label `图片{i+1}` of an image without alt text; its injectivity is FallbackAltInjective |
| Catalogue.FallbackAltInjective | jymd.js:79 | images at different positions get different fallback labels |
| Catalogue.Record | jymd.js:77-82 | a record keeps src and title; alt is kept when non-empty and becomes `图片{i+1}` when empty; the label is never empty |
| Catalogue.BuildCatalogue | jymd.js:72-84 | one record per `img` element |
| Catalogue.CatalogueAt | jymd.js:72-84 | record k is the record of element k, in document order |
| Catalogue.CatalogueLabelled | jymd.js:78 | every catalogue label is non-empty |
| Catalogue.CatalogueNeverFallsBack | jymd.js:167 | a catalogue image is always saved under its sanitized label, never under `image_{i+1}` |
| Catalogue.Sources | jymd.js:162-163 | one URL per image, in order: image k's src |
| Catalogue.EntryName | jymd.js:166-168 | the archive name of the image at a position, its export name from its label and its src's pathname; EntryNames lists them |
| Catalogue.EntryNames | jymd.js:166-168 | position k holds the export name of image k |
| Catalogue.Collect | jymd.js:162-176 | the archive after adding, in position order, one entry per successful fetch, a later entry of the same name replacing an earlier one; stated by CollectStep, CollectKeys, CollectLastWins and CollectCount |
| Catalogue.ZipEntries | jymd.js:162-176 | the archive of a catalogue, Collect over its export names; stated by ZipEntriesSpec |
| Catalogue.CollectStep | jymd.js:162-176 | one more fetch result adds its entry, or nothing when the fetch failed |
| Catalogue.CollectKeys | jymd.js:162-176 | a name is in the archive iff some fetch succeeded at a position with that name |
| Catalogue.CollectLastWins | jymd.js:168 | a name holds the blob of the last successful fetch at a position with that name |
| Catalogue.Successes | jymd.js:164 | the number of successful fetches is at most the number of fetches |
| Catalogue.CollectCount | jymd.js:162-176 | with pairwise different names, there is exactly one entry per successful fetch |
| Catalogue.ZipEntriesSpec | jymd.js:162-176 | the same two facts for a catalogue's archive, stated over images and their export names |
| Catalogue.OneOfThreeFails | jymd.js:170-172 | a failed fetch is skipped without affecting the others: of three images with the second failing, the archive holds the first and the third |
| Session.RenderOf | jymd.js:46-69 | what parseMarkdown makes of the text area: refused when blank after trimming, otherwise the engine's result or its failure; stated by RenderOfCases and RenderOfTrimmed |
| Session.AfterDisplay | jymd.js:89-96 | the page displayImageList leaves; stated by ExtractMatches |
| Session.AfterExtract | jymd.js:72-87 | the page extractImages leaves; stated by ExtractMatches |
| Session.AfterParse | jymd.js:46-69 | the page parseMarkdown leaves; stated by ParseKeepsInvariants, ParseOutcome and ParseIdempotent |
| Session.AfterHide | jymd.js:380-384 | the page hideFileName leaves: label hidden, no current file, empty file control |
| Session.AfterClear | jymd.js:311-318 | the page clearContent leaves; stated by ClearResets |
| Session.AfterRead | jymd.js:348-371 | the page readFile leaves; stated by UploadOutcome and UploadThenParse |
| Session.AfterUpload | jymd.js:321-345 | the page handleFileUpload leaves; stated by UploadKeepsInvariants, UploadOutcome and UploadThenParse |
| Session.AfterDownload | jymd.js:148-196 | the page downloadImages leaves; stated by DownloadKeepsInvariants |
| Session.SingleNotice | jymd.js:200-257 | the toast downloadSingleImage ends with: missing image, failed fetch, or saved under the stem |
| Session.RenderOfCases | jymd.js:46-69 | the input is refused iff it is all whitespace; otherwise the engine gets the trimmed text, and either it throws or its document is rendered |
| Session.RenderOfTrimmed | jymd.js:47 | an input and its trimmed form render the same way |
| Session.ExtractMatches | jymd.js:72-96 | after `extractImages` the catalogue is exactly the output's images, one record per `img` in document order, fully replacing the previous catalogue; after `displayImageList` the button is disabled iff the catalogue is empty |
| Session.ParseKeepsInvariants | jymd.js:46-69 | parsing preserves both page invariants and establishes them when it renders; it never touches the input or the file state |
| Session.ParseOutcome | jymd.js:46-69 | the toast is "empty input" iff the input is blank, "failed" iff the engine throws on the trimmed text, "parsed" iff it returns a document, which is then what the output shows; unless it parsed, output, catalogue and button are unchanged |
| Session.ParseIdempotent | jymd.js:46-69 | parsing twice leaves the same page as parsing once |
| Session.ClearResets | jymd.js:311-318 | clearing empties the input, puts the placeholder back in the output, empties the catalogue, disables the button, forgets the file, satisfies both invariants, and a parse after it only reports the empty input |
| Session.UploadKeepsInvariants | jymd.js:321-345 | loading a file preserves both page invariants |
| Session.UploadOutcome | jymd.js:321-371 | a rejected file changes nothing but the file control (emptied) and the toast, and keeps `currentFile`; an accepted file becomes `currentFile`; its text replaces the input and its name is shown; a failed read only toasts |
| Session.UploadThenParse | jymd.js:348-360 | a file that loads has already been parsed: parsing again changes nothing |
| Session.DownloadKeepsInvariants | jymd.js:148-196 | a bulk download changes only the button and the toast, and leaves the button in step with the catalogue |
| Session.MarkdownParser.constructor | jymd.js:2-27 | the page starts with the placeholder, no image and no file |
| Session.MarkdownParser.ParseMarkdown | jymd.js:46-69 | the new state is `AfterParse` of the old one |
| Session.MarkdownParser.ExtractImages | jymd.js:72-87 | the loop builds the catalogue front to back; the new state is `AfterExtract` of the old one |
| Session.MarkdownParser.DisplayImageList | jymd.js:89-96 | the new state is `AfterDisplay` of the old one: the button flag follows the catalogue |
| Session.MarkdownParser.ClearContent | jymd.js:311-318 | the new state is `AfterClear` of the old one |
| Session.MarkdownParser.ShowFileName | jymd.js:374-377 | the file name is shown with the given text, and nothing else changes |
| Session.MarkdownParser.HideFileName | jymd.js:380-384 | the label is hidden, `currentFile` is forgotten and the file control emptied |
| Session.MarkdownParser.HandleFileUpload | jymd.js:321-345 | with the user's choice put in the file control first, the new state is `AfterUpload` of the old one |
| Session.MarkdownParser.ReadFile | jymd.js:348-371 | the new state is `AfterRead` of the old one |
| Session.MarkdownParser.CollectEntries | jymd.js:159-178 | the URLs fetched are the catalogue's sources, and the loop's archive is `ZipEntries` of the catalogue and the fetch results |
| Session.MarkdownParser.DownloadImages | jymd.js:148-196 | with an empty catalogue nothing is fetched; otherwise every image is fetched once; with a generated archive the user gets exactly `ZipEntries`; the button ends enabled and the toast reports `images.length` |
| Session.MarkdownParser.DownloadSingleImage | jymd.js:200-257 | no fetch when there is no image at that index; otherwise exactly that image is fetched, and on success the file is saved as `stem.extension` and the toast names the stem |
| Wrappers.Option.GetOr | jymd.js:167 | `x \|\| fallback` on a possibly-null value |

## Left out

- `marked`, `fetch`, `response.blob()`, JSZip's archive generation and `new URL(...)`. These are foreign code. Their results are parameters.
- The URL resolution in `fetchImageAsBlob` (jymd.js:272-290). It only decides which URL the network sees.
- Concurrency. `Promise.all` and the asynchronous `FileReader` are modelled as completed in order. The model does not capture the order in which fetch callbacks run, which decides which blob wins when two names collide.
- The archive's own name, `markdown_images_{timestamp}.zip`. It depends on the clock.
- `copyText`, `fallbackCopy` and `copyTitle`. These are clipboard I/O.
- The toast's text, severity and timer. A toast is modelled as one `Notice` constructor per message, keeping the values it interpolates.
- The transient "downloading" label of the bulk button.
- The HTML that `displayImageList` writes.
- The mobile branch of `downloadSingleImage` (new window, user-agent test). The model follows the desktop branch.
- The `setTimeout` call that revokes object URLs (jymd.js:262-264). It names `imageUrl` and `downloadLink`, which are declared inside the branches. The callback would throw, and the URLs are never revoked. This is timer and memory behaviour and is not modelled.
- `initializeElements`/`bindEvents` wiring. The initial text and initial button state come from the page's markup, so they are constructor parameters.
- Session.InitialPage: the initial output also comes from the page's markup. The model fixes it to the placeholder, which is the text that `copyText` (jymd.js:119) tests for.
- ImageInfo.element: the back-reference from a catalogue record to its DOM node is not kept.
- JsText.LowerChar: models `toLowerCase` only on characters whose lower case is a single ASCII letter (A–Z and KELVIN SIGN). Every other character is kept, and multi-character case mappings are not modelled. That is enough for every comparison against the all-ASCII allow-lists, but not for general text.
- FileNames.SanitizeFilename: `substring(0, 50)` counts UTF-16 code units, and the model counts characters. They differ for labels containing characters outside the Basic Multilingual Plane.
- JsText.Decimal: the decimal rendering is exact for every natural number. JavaScript switches to exponent notation from 1e21, far beyond any image count.
