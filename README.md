# Image converter front end: a Dafny model

The system converts an uploaded image to another format. It has two parts: a
server endpoint (`POST /api/convert`) and a browser page that submits to it.
The conversions themselves are done by an image library, an ICO encoder and
a ZIP archiver. This model treats each of those calls as an opaque function
that either yields bytes or fails. What it models and proves is the logic
around them:

- the output-filename rule, which exists twice: once on the server and once on the page;
- request validation and the dispatch on the lower-cased target format
  (`ico` → ZIP of `.ico` files, `svg` → pass-through, png/jpeg/jpg/webp/avif → re-encode, anything else → 400);
- the quality setting for the lossy encoders: clamped to 1–100, default 92, only for jpeg, webp and avif;
- the loop that renders one `.ico` per size (16, 24, 32, 48, 64, 128, 256) and adds each success to an archive;
- the `Content-Disposition` header the server emits, and the page's regular expression and fallback that recover the download name from it;
- the page's state: the drop handler's extension filter and the submit handler.

Modules, one per concern:

- `Common`: Option, bytes.
- `Text`: JavaScript's `toLowerCase`, `indexOf`/`includes`, `lastIndexOf` and decimal rendering.
- `FileNames`: both copies of the filename rule.
- `Quality`: quality, MIME type and encoder name.
- `IcoBundle`: the JSZip archive as a class, and the ICO loop.
- `ContentDisposition`: the header and its parser.
- `ConvertRoute`: the handler, as a method.
- `Page`: the page state, as a class.

## Model

| member | source | states |
|---|---|---|
| `Text.LastIndexOf` | src/app/api/convert/route.ts:8 | the result is -1 exactly when the character is absent; otherwise it holds the character and none follows it |
| `Text.LowerIdempotent` | src/app/api/convert/route.ts:92 | lower-casing an already lower-cased format changes nothing, so re-lowering `lowerTargetFormat` is harmless |
| `Text.DecimalRoundTrip` | src/app/api/convert/route.ts:57 | reading back the decimal text of a size gives the size |
| `FileNames.ServerStem` | src/app/api/convert/route.ts:8 | the stem is the whole name exactly when the name has no '.' after its first character; otherwise it is the non-empty prefix before the last '.' |
| `FileNames.ClientStem` | src/app/page.tsx:44-45 | the stem is the whole name exactly when there is no '.'; otherwise it is the (possibly empty) prefix before the last '.' |
| `FileNames.ServerSubstitutesExtension` | src/app/api/convert/route.ts:7-13 | for `base.ext` with a non-empty base: `base.` plus the lower-cased format, or `base-icons.zip` for a bundle |
| `FileNames.ClientSubstitutesExtension` | src/app/page.tsx:43-51 | for `base.ext`: `base-icons.zip` when the format lower-cases to ico, else `base.` plus the lower-cased format |
| `FileNames.NoDotKeepsWholeName` | src/app/api/convert/route.ts:8-12 | a name without a '.' is kept whole and gets the new extension appended |
| `FileNames.ClientServerAgree` | src/app/page.tsx:43-51 | page and server produce the same name whenever the last '.' is not at index 0 |
| `FileNames.LeadingDotOnlyDisagrees` | src/app/page.tsx:44-45 | for a name whose only '.' is its first character, the page's stem is empty and the server's is the whole name, so the two names differ |
| `FileNames.PngExample` | src/app/api/convert/route.ts:92 | `photo.JPG` to png is named `photo.png` |
| `FileNames.IcoExample` | src/app/api/convert/route.ts:70 | `photo.JPG` to ico is named `photo-icons.zip` |
| `FileNames.WebpExample` | src/app/api/convert/route.ts:92 | `photo` to webp is named `photo.webp` |
| `FileNames.DotFileExample` | src/app/api/convert/route.ts:8 | `.png` to webp: the server says `.png.webp`, the page `.webp` |
| `Quality.Clamp` | src/app/api/convert/route.ts:101 | the result is always in 1..100; in-range values are kept; values below become 1 and values above become 100 |
| `Quality.QualitySetting` | src/app/api/convert/route.ts:94-112 | a quality is set exactly for jpeg, webp and avif when the field is not unparseable (so never for png or jpg); it is in 1..100; it is 92 when none was sent and the clamped request otherwise |
| `Quality.BuildOptions` | src/app/api/convert/route.ts:94-112 | the options built by assigning `quality` on the applicable branch carry exactly the quality `QualitySetting` describes |
| `Quality.MimeTypeAliases` | src/app/api/convert/route.ts:91 | two formats share a MIME type exactly when they are equal or are jpg and jpeg |
| `Quality.QualityExamples` | src/app/api/convert/route.ts:98-112 | 150% gives 100, 0% gives 1, no quality gives 92; png and jpg get none |
| `IcoBundle.IcoNameInjective` | src/app/api/convert/route.ts:57 | different sizes give different `icon-{d}x{d}.ico` names |
| `IcoBundle.PutNewName` | src/app/api/convert/route.ts:57 | adding a file under a new name appends it to the archive |
| `IcoBundle.PutExistingName` | src/app/api/convert/route.ts:57 | adding a file under a name already present replaces the first entry of that name in its position (`entries[i := e]`); all other entries and the entry count stay as they were |
| `IcoBundle.ZipArchive.constructor` | src/app/api/convert/route.ts:45 | a new archive is empty |
| `IcoBundle.ZipArchive.File` | src/app/api/convert/route.ts:57 | the archive afterwards is the old one with the file put in |
| `IcoBundle.EntriesFollowSucceeded` | src/app/api/convert/route.ts:48-62 | entry k is named after the k-th successful size and holds that size's rendering; one entry per success |
| `IcoBundle.SucceededMembers` | src/app/api/convert/route.ts:48-62 | a size succeeded exactly when it was visited and rendered; there are never more successes than sizes |
| `IcoBundle.SucceededAscending` | src/app/api/convert/route.ts:44-48 | visiting ascending sizes yields successes in ascending order |
| `IcoBundle.EntryNamesDistinct` | src/app/api/convert/route.ts:57 | no two entries of the bundle share a name |
| `IcoBundle.NoEntriesIffAllFailed` | src/app/api/convert/route.ts:59-66 | the bundle is empty exactly when every size failed |
| `IcoBundle.BundleContents` | src/app/api/convert/route.ts:44-62 | at most seven entries, ascending, named after and holding the successful renderings, no duplicates |
| `IcoBundle.BuildIcoBundle` | src/app/api/convert/route.ts:44-62 | the loop leaves a fresh archive with exactly the bundle's entries, and the counter equals the number of entries |
| `ContentDisposition.ExtractFilename` | src/app/page.tsx:82-95 | with no header, or a header in which `attachment` occurs at no position, the name is the page's default |
| `ContentDisposition.AttachmentRoundTrip` | src/app/api/convert/route.ts:139 | the header `attachment; filename="N"` parses back to N for every non-empty N without `"` or line terminator |
| `ContentDisposition.AttachmentHeaderSafe` | src/app/api/convert/route.ts:139 | the header value for a file name is acceptable to `Headers.set` (every character at most U+00FF, none NUL, CR or LF) exactly when the name is |
| `ContentDisposition.UnquotedForm` | src/app/page.tsx:85-90 | `filename=V` with V not opening with a quote gives the longest prefix of V without `;` or newline, when non-empty |
| `ContentDisposition.FallbackNeedsEmptyCapture` | src/app/page.tsx:86-94 | whenever the header contains `filename=` the expression matches, so the split fallback runs only after an empty capture |
| `ConvertRoute.Post` | src/app/api/convert/route.ts:24-153 | missing file or format gives its 400 without any library call; an unknown lower-cased format gives 400 naming the format as sent; svg passes the bytes through only for `image/svg+xml`, else 400; ico gives 500 when no size rendered, the archiver's message when generation fails, else the archive as `application/zip` named `stem-icons.zip`; raster formats are encoded with `QualitySetting` and answered with `MimeType` and the format's extension, or 500; every success goes through `Respond`, so a refused header gives 500 |
| `ConvertRoute.Respond` | src/app/api/convert/route.ts:137-153 | the bytes are sent with `Content-Type` and the `attachment` header exactly when every character of the file name is one `Headers.set` accepts; otherwise the outer `catch` answers 500 with the error's message |
| `ConvertRoute.SafeNameKeepsHeader` | src/app/api/convert/route.ts:7-13 | a file name and format made of acceptable characters give an output name made of acceptable characters, so such uploads are never refused at the header |
| `ConvertRoute.NonLatin1NameFails` | src/app/api/convert/route.ts:139 | an SVG named with two CJK characters (U+5199 U+771F) plus `.svg` is converted but answered with 500, because its header value is refused |
| `ConvertRoute.JpgKeepsItsExtension` | src/app/api/convert/route.ts:91-92 | a jpg request is named `.jpg` while its MIME type is `image/jpeg` |
| `Page.QualityApplicableAgrees` | src/app/page.tsx:13 | the page's quality check never admits a format the server gives no quality, and for the offered formats the two agree |
| `Page.AcceptedDropHasExtension` | src/app/page.tsx:165-167 | a dropped file is accepted exactly when its name has a '.' and a dot followed by the lower-cased text after the last one is in `acceptedTypes`; a name with no dot is refused |
| `Page.ServerErrorReachesPage` | src/app/page.tsx:76-78 | a non-empty error message of the server is what the page shows |
| `Page.DownloadNameReachesPage` | src/app/page.tsx:81-88 | a converted response is downloaded with the server's bytes under the name in its header |
| `Page.BuildForm` | src/app/page.tsx:62-68 | the form carries a quality exactly when quality applies to the selected format |
| `Page.PageQualityReachesEncoder` | src/app/page.tsx:66-68 | for an offered format the encoder gets the page's quality, clamped, exactly when it takes one; the default 92 never applies |
| `Page.Page.constructor` | src/app/page.tsx:6-10 | nothing selected, format png, quality 92%, no error, not converting |
| `Page.Page.HandleFileSelect` | src/app/page.tsx:15-22 | clears the error and records the selection, nothing else |
| `Page.Page.HandleDropAsWritten` | src/app/page.tsx:158-176 | while converting nothing changes; an accepted file is selected; a refused or missing file leaves no selection and no error |
| `Page.Page.HandleDrop` | src/app/page.tsx:158-176 | as above, but a refused file leaves the message naming its extension |
| `Page.Page.HandleSubmit` | src/app/page.tsx:53-117 | without a selection it sets "Please select a file first!" and sends nothing; otherwise it sends the form, shows the network or server error, or downloads under `ExtractFilename` of the header with the page's name as default; not converting afterwards |
| `Page.BmpIsRefused` | src/app/page.tsx:166-167 | `photo.bmp` is checked as `.bmp` and refused |
| `Page.RefusedDropAsWritten` | src/app/page.tsx:170-171 | dropping `photo.bmp` with the handler as written leaves neither selection nor message |
| `Page.RefusedDrop` | src/app/page.tsx:170-171 | with the corrected handler the same drop shows "Unsupported file type: .bmp. …" |

## Left out

- The image library's resize and encode calls, `pngToIco`, and the archive's DEFLATE generation: foreign code. They are the function-typed fields of `ConvertRoute.Library`. Each call is either bytes or a failure; a failed archive generation carries the message the handler's outer `catch` reports.
- `parseFloat`, the float multiply and `Math.round` of the quality: floating point. The handler receives `QualityField`: missing (including the empty string, which is falsy), unparseable (NaN), or the already-rounded percentage. An infinite quality is not modelled.
- The page's slider value and its `toString`/`parseFloat` round trip: floating point. The page keeps the slider as an integer percentage.
- Form-data and request decoding, `file.arrayBuffer()`, the `NextResponse` constructor and logging: I/O. Failures of these reach the outer `catch` and give a 500. Two such failures are modelled: a failed archive generation, and `Headers.set` refusing the `Content-Disposition` value. A `file` field sent as text rather than a file is not modelled.
- `ConvertRoute.Post`: the text of the `TypeError` that `Headers.set` throws comes from the runtime. The model takes it as the `headerError` field of `Library` and does not fix its wording. Only the characters of the file name are checked; the runtime's trimming of leading and trailing whitespace cannot matter, because the value always starts with `attachment` and ends with `"`.
- The `!outputBuffer` check: a Buffer object is always truthy, so this branch cannot be reached.
- `toLowerCase` maps ASCII letters only, so non-ASCII letters keep their case in the model. Two non-ASCII characters lower-case to something containing an ASCII letter: the Kelvin sign becomes `k`, and `İ` (U+0130) becomes `i` followed by a combining dot (U+0307). No format name and no accepted extension contains a `k`, and the combining dot never matches. So the server's dispatch and the page's drop acceptance are exact. The lower-cased names and extensions of supported formats are exact too. The text differs in one place: `Page.DroppedExtension`, and therefore `Page.UnsupportedTypeMessage`. The page shows the extension of a refused file lower-cased, so for `photo.ÉPS` it shows `.éps`, while the model shows `.ÉPS`.
- React hooks and rendering, drag-over styling, the file input's `accept` attribute, `handleFileInputChange`, `handleFormatChange` and `handleQualityChange`: UI.
- `fetch`, `response.json()` and the Blob download are I/O. `fetch` is a function parameter of `HandleSubmit`; the JSON body is `ErrorBody`; the download is a `Download` value.
- Handlers running while a submission is awaited: each handler is modelled as one atomic step, so `isConverting` is only seen before and after a submission.
- Two places where the code does less than it suggests; the model follows the code:
  - jpg is marked "Alias for jpeg" at src/app/api/convert/route.ts:88, and it gets jpeg's MIME type and encoder. But the quality branches (route.ts:99 and route.ts:107) test only jpeg, webp and avif, so jpg gets neither a requested nor a default quality. `QualitySetting` keeps this.
  - The page's `getClientSideOutputFileName` (src/app/page.tsx:43-51) is a default name meant to match the server's. The two differ for names whose only '.' comes first. `LeadingDotOnlyDisagrees` states this.

## Findings

| source | as written | input that shows it | evidently intended | confidence | as-written member | corrected member |
|---|---|---|---|---|---|---|
| src/app/page.tsx:170-171 | the drop handler sets the "Unsupported file type" error, then calls `handleFileSelect(null)`, which sets the error back to null | dropping `photo.bmp` while idle | the selection is cleared and the message stays on screen | high; not executed | `Page.RefusedDropAsWritten` (over `Page.Page.HandleDropAsWritten`) | `Page.RefusedDrop` (over `Page.Page.HandleDrop`) |
