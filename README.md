# FileCon converter logic in Dafny

FileCon is a browser page that converts documents, images, video and audio
by handing the file to a remote conversion service through a serverless
proxy. It has no conversion engine of its own. This project models the
logic around that remote call and proves what that logic promises.

- **The converter page (script.js)**, module `Page`:
  - the per-category format table;
  - auto-detection of the category and input format from a filename;
  - the output-format list, which leaves out the chosen input format;
  - the convert button's enable rule;
  - the pre-flight checks of the convert click, in their order;
  - the output-filename rewrite;
  - the bounded status-polling loop, with its quirk: a reported failure is swallowed unless it arrives on the last of the 30 attempts.

  The page's module-level state, the two selects and the button live in the class `Page.Converter`. Its methods change that state in place. Every method is proved to keep the selects consistent. The pure parts are functions, each with its partner lemmas. `PollConversion` is the source's counted loop, proved equal to the recursive specification `PollFrom`. The loop of `detectFileFormat` is proved equal to `DetectCategory`.
- **The helpers (utils.js)**, module `Utils`:
  - extension extraction;
  - the file-type and file-size validators over the configuration;
  - the duration formatter on whole seconds, proved against a parser that reads its output back;
  - the level test of `log`.
- **The live proxy handler (netlify/functions/convert.js, lines 244-304)**, module `Proxy`. It is a function from the parsed request body, the API key and the conversion service's answer to the outbound request (if any) and the HTTP response.
- **The configuration (config.js)**, module `Config`:
  - the size limit;
  - the polling budget;
  - the accepted-extension tables;
  - the error strings.

  Module `Consistency` proves that the values script.js writes out again by hand agree with these.

The network is a parameter everywhere. Each remote call is replaced by the reply it would receive:
- `ApiReply`, `UploadReply` and `PollReply` on the page;
- `Upstream` in the proxy.

Where the live code and the earlier handler differ, the model follows the live code. The commented-out earlier handler in netlify/functions/convert.js has a 405 method check (lines 145-150), an API-key check (line 155) and a rewritten output filename (lines 95-96 and 213). The live handler has none of these: it checks no method and no key, and returns the caller's filename unchanged.

## Model

| member | source | states |
|---|---|---|
| Config.CategoryNamed | utils.js:33 | a property lookup in `ACCEPTED_TYPES` hits an entry exactly for "document", "image", "video" and "audio" |
| Config.AcceptedExtensions | config.js:19-67 | the accepted extensions of each category in the listed order; they are well shaped (`ExtensionsAreShaped`), disjoint across categories (`ExtensionsDisjoint`) and equal to the page's input lists (`Consistency.TablesAgree`) |
| Config.ConstantValues | config.js:12-18 | the size limit is 104857600 bytes and the polling budget is 30 × 2000 ms = 60000 ms |
| Config.ExtensionsAreShaped | config.js:19-67 | every accepted extension is non-empty, dot-free and has no character that lower-casing folds to ASCII (A-Z or the Kelvin sign), so `getFileExtension` can return it |
| Config.ExtensionsDisjoint | config.js:19-67 | no extension is accepted by two categories |
| Utils.LastIndexOf | utils.js:22 | the position of the last occurrence of a character, -1 exactly when it is absent, with none after it |
| Utils.Lower | utils.js:22 | lower-casing keeps the length and the dots, leaves no character that folds to ASCII and fixes extension-shaped strings |
| Utils.LowerChar | utils.js:22 | one character lower-cased as `toLowerCase` does for the characters whose lower case is ASCII: A-Z and the Kelvin sign U+212A, which becomes `k` |
| Utils.LowerIdempotent | utils.js:22 | lower-casing twice is lower-casing once |
| Utils.GetFileExtension | utils.js:21-23 | the text after the last dot (the whole name when there is none), lower-cased; characterised by `GetFileExtensionSpec` and `ExtensionIgnoresCase` |
| Utils.GetFileExtensionSpec | utils.js:21-23 | the extension is the lower-cased text after the last dot, holds no dot, is the whole name lower-cased when there is no dot, and is empty after a trailing dot |
| Utils.ExtensionIgnoresCase | utils.js:21-23 | the extension of the lower-cased name is the extension of the name |
| Utils.AllowedExtensions | utils.js:33 | an unknown category name allows no extension |
| Utils.ValidateFileType | utils.js:31-35 | a file is valid iff the name is a category and its extension is in that category's accepted list |
| Utils.ValidateFileTypeUnique | utils.js:31-35 | a file is valid for at most one category name |
| Utils.ValidateFileTypeIgnoresCase | utils.js:31-35 | validation gives the same answer for the lower-cased name |
| Utils.KelvinSignValidates | utils.js:21-35 | a name whose extension is written with the Kelvin sign, "clip.m\u212Av", has extension "mkv" and is a valid video |
| Utils.ValidateFileSize | utils.js:42-44 | a size is valid iff it is at most 104857600; the limit is inclusive |
| Utils.NatToString | utils.js:272-280 | `${n}` for a whole number: its decimal digits, most significant first; never empty, and read back by `ParseNatToString` |
| Utils.NatToStringDigits | utils.js:272-280 | a numeral is a non-empty run of digits without a leading zero (JavaScript's rendering below 1e21) |
| Utils.ParseNatToString | utils.js:272-280 | reading a rendered numeral gives the number back |
| Utils.FormatDuration | utils.js:270-282 | `formatDuration` on whole seconds: "Ns" under a minute, "Mm Ss" under an hour, "Hh Mm" otherwise; read back by `FormatDurationMeaning` |
| Utils.FormatDurationMeaning | utils.js:270-282 | under 60 s only seconds are shown; under an hour minutes and seconds with m·60+s = seconds; otherwise hours and minutes, seconds dropped; every minutes or seconds part is below 60 |
| Utils.IndexOf | utils.js:206-207 | `indexOf`: the first position of the level, -1 exactly when it is not in the list |
| Utils.ShouldLog | utils.js:202-209 | the level test of `log`: debug enabled and the message's level index at most the configured one; characterised by the four lemmas below |
| Utils.ShippedConfigLogsNothing | utils.js:202 | with debug disabled, as shipped, no level is ever logged |
| Utils.UnknownLevelPassesTest | utils.js:204-209 | a level outside the list (index -1) passes the test whatever is configured |
| Utils.KnownLevelsOrdered | utils.js:204-209 | between known levels a message is logged iff its level is no more verbose than the configured one |
| Utils.LoggingMonotone | utils.js:204-209 | raising the configured level never silences a message that was logged |
| Page.Rank | script.js:125 | each category's position in the order the table's entries are visited |
| Page.InputFormats | script.js:2-19 | each category's input formats in table order; equal to the configured extensions (`Consistency.TablesAgree`) |
| Page.OutputFormats | script.js:2-19 | each category's output formats in table order; free of repeats and empty entries (`OutputFormatsWellFormed`) |
| Page.OutputFormatsWellFormed | script.js:2-19 | no output list repeats a format, and no listed format is empty |
| Page.OrElse | script.js:245 | JavaScript's or of two strings is the first when it is non-empty, and is never empty when the second is not |
| Page.DetectFrom | script.js:125-136 | the scan of the table from a given position, stopping at the first category whose inputs contain the extension; characterised by `DetectFromFirstMatch` |
| Page.DetectCategory | script.js:122-137 | the category `detectFileFormat` switches to, if any: the scan from the first entry; characterised by `DetectCategoryFirstMatch` |
| Page.DetectFromFirstMatch | script.js:125-136 | from any table position the scan finds the first category listing the extension, and none iff none from there on lists it |
| Page.DetectCategoryFirstMatch | script.js:122-137 | detection picks the first of document, image, video, audio whose inputs contain the extension, and none iff no category lists it |
| Page.WithoutFormat | script.js:166-173 | the rebuilt output list never offers the input format and offers nothing outside the category outputs |
| Page.WithoutFormatKeeps | script.js:166-173 | every category output other than the input format is kept, and a list without the input format is kept whole |
| Page.WithoutFormatRemovesOne | script.js:166-173 | on a list without repetitions the filter removes exactly that one entry and keeps the order |
| Page.SelectValue | script.js:132 | a select takes a value only when one of its options carries it, otherwise it shows the placeholder "" |
| Page.IsReady | script.js:178-181 | the readiness rule: a file is selected and both format values are non-empty; `PreflightImpliesReady` relates it to the click's checks |
| Page.PreflightError | script.js:205-219 | the click is refused iff not (file, both formats, different formats); the messages are checked in order: no file, then a missing format, then identical formats |
| Page.PreflightImpliesReady | script.js:205-214 | a click that passes the pre-flight checks satisfies the button's readiness rule |
| Page.ExtensionAt | script.js:281 | where a match of `\.[^/.]+$` starts: a dot before the last character, followed to the end by neither `.` nor `/` |
| Page.ExtensionAtUnique | script.js:281 | at most one position starts a match of `\.[^/.]+$` |
| Page.ExtensionAtLastDot | script.js:281 | a match can only start at the last dot, with no `/` after it |
| Page.LastDotIsExtension | script.js:281 | the last dot starts a match when something follows it and no `/` does |
| Page.StripExtension | script.js:281 | `replace(/\.[^/.]+$/, '')`: the name without its matched extension, never longer than the name; characterised by `StripExtensionSpec` |
| Page.StripExtensionSpec | script.js:281 | the name loses its matched extension, and only when there is one; the rest is a prefix of the name |
| Page.OutputFilename | script.js:281 | the new name always ends with "." + target; a name without a dot gets it appended |
| Page.OutputFilenameReplaces | script.js:281 | where the name has an extension, exactly that extension is replaced |
| Page.OutputFilenameAppends | script.js:281 | where it has none (no dot, trailing dot, `/` after the last dot) the target is appended |
| Page.Progress | script.js:349 | the progress shown is between 70 and 95 |
| Page.ProgressMonotone | script.js:349 | the progress never decreases with the attempt |
| Page.CompletesOn | script.js:341 | a status reply that ends polling with its data: `success` set and status "completed" |
| Page.RaisesOn | script.js:343-357 | a reply that makes the `try` block throw: a reported failure or a transport error |
| Page.RaisedMessage | script.js:343-357 | the message of that error: the transport error's own, or the reply's message with "Conversion failed" in its place when empty |
| Page.PollFrom | script.js:326-361 | polling issues between 1 and 30 requests, more than the starting attempt, and a completed result is the reply to the last request |
| Page.PollProgressShown | script.js:347-351 | the progress values shown lie between the first attempt's value and 95 and are non-decreasing |
| Page.PollReturnsFirstCompletion | script.js:326-342 | the first completed reply within the 30 attempts is the result, after exactly that many requests |
| Page.PollGivesUp | script.js:343-361 | with no completion, all 30 requests are made; the last attempt's error is rethrown if it threw, earlier errors are swallowed, otherwise "Conversion timed out" |
| Page.PollConversion | script.js:322-362 | the counted loop returns, throws and shows progress exactly as `PollFrom` specifies |
| Page.StatusQueries | script.js:328-337 | the status requests sent: n identical queries for the conversion id |
| Page.RemoteConversion | script.js:221-319 | the requests the `try` block sends and its outcome, each failing step ending it with its message; `RemoteConversionShape` states its promises and `RunRemote` is proved equal to it |
| Page.RemoteConversionShape | script.js:221-319 | the first request is always the prepare call; at most 33 requests are sent; a result is kept only after the start request carried the task id, both formats and the rewritten filename, and only for a successful completed reply |
| Page.RunRemote | script.js:221-313 | the steps of the `try` block, each failure ending it with its message, send exactly the requests and reach exactly the outcome `RemoteConversion` describes |
| Page.AfterDetection | script.js:122-137 | with no listing category nothing changes; otherwise the detected category becomes current with its input list, the extension becomes the input, the output is reset, the button is disabled and the outputs leave the extension out |
| Page.Converter.constructor | script.js:40-48 | page load: the document category with both lists built, nothing selected, button disabled |
| Page.Converter.UpdateFormatOptions | script.js:139-158 | both selects are rebuilt for the current category and both values reset |
| Page.Converter.CheckConvertReady | script.js:178-181 | the button is disabled iff not (a file is selected and both format values are non-empty) |
| Page.Converter.UpdateToFormatOptions | script.js:160-176 | the output select is rebuilt without the input format and reset, so the button ends up disabled |
| Page.Converter.SelectConversionType | script.js:59-68 | a tab click makes the category current, rebuilds the selects, hides the error and leaves file, data and button alone |
| Page.Converter.SelectFromFormat | script.js:71 | choosing an input rebuilds the outputs without it and disables the button |
| Page.Converter.SelectToFormat | script.js:72 | choosing an output re-evaluates the readiness rule |
| Page.Converter.DetectFileFormat | script.js:122-137 | the controls end as `AfterDetection` of the controls before, for the file's extension |
| Page.Converter.SwitchToDetected | script.js:126-134 | the detected category is current, the extension is the input, the outputs leave it out and the button is disabled |
| Page.Converter.HandleFileSelection | script.js:100-105 | the file is kept, detection applied as `AfterDetection`, the error hidden, the conversion data untouched |
| Page.Converter.ResetConverter | script.js:192-203 | no file, no conversion data, empty format values, button disabled, error hidden |
| Page.Converter.ConvertFile | script.js:205-320 | a failing pre-flight check shows its message and sends nothing; otherwise the requests are those of `RemoteConversion`, a result is kept with the button left disabled, and an error is shown (or the generic message) with the button re-enabled |
| Page.SameFormatUnreachable | script.js:216-219 | while the selects are consistent the identical-formats message can never be shown |
| Proxy.Handle | netlify/functions/convert.js:246-304 | an outbound call is made iff all four fields are present and non-empty; 200 iff success, with the JSON header; 400 "Missing required fields" iff a field is missing; unparsable or null bodies give 500 |
| Proxy.Present | netlify/functions/convert.js:250 | JavaScript truthiness of a string field: present and non-empty |
| Proxy.Complete | netlify/functions/convert.js:250 | the negation of the missing-fields guard: a parsed object whose four fields `fileData`, `fromFormat`, `toFormat` and `filename` are all truthy |
| Proxy.BadInputNeverCallsOut | netlify/functions/convert.js:248-255 | a missing or empty field gives 400 "Missing required fields" and no outbound request |
| Proxy.NoCallNoDependence | netlify/functions/convert.js:248-255 | without an outbound request, the service's answer cannot affect anything |
| Proxy.ResponseIgnoresApiKey | netlify/functions/convert.js:257-265 | the response never depends on the API key, which is only forwarded as a header |
| Proxy.OutboundCarriesInputs | netlify/functions/convert.js:257-267 | the URL is exactly the service prefix, the input format, "/to/" and the output format; the file data is sent unchanged as JSON |
| Proxy.EndpointInjective | netlify/functions/convert.js:258 | when the input format holds no `/`, the URL determines both formats |
| Proxy.Endpoint | netlify/functions/convert.js:258 | the service URL: prefix, input format, "/to/", output format; `EndpointInjective` shows it determines both formats |
| Proxy.StatusPassedThrough | netlify/functions/convert.js:269-278 | a non-2xx answer is returned with its own status and "Cloudmersive error: " + status + " " + text |
| Proxy.UpstreamError | netlify/functions/convert.js:275 | "Cloudmersive error: " + status + " " + text; `UpstreamErrorNamesStatus` reads the status back |
| Proxy.UpstreamErrorNamesStatus | netlify/functions/convert.js:274-276 | the status printed in that message reads back as the upstream status |
| Proxy.FilenameNotRewritten | netlify/functions/convert.js:280-293 | success gives 200, the bytes, "application/octet-stream" and the caller's filename unchanged |
| Proxy.ExceptionHidden | netlify/functions/convert.js:294-302 | an exception gives 500 "Internal server error" and its own message is never exposed |
| Consistency.TablesAgree | config.js:19-67 | each category's accepted extensions equal the page's input list for it |
| Consistency.PollBudgetAgrees | config.js:12-13 | the page polls with the configured 30 attempts and 2000 ms interval |
| Consistency.MessagesAgree | config.js:105-107 | the page's pre-flight messages are the configured error strings |
| Consistency.DetectionAgreesWithValidation | utils.js:31-35 | a file is valid for a category iff the page's auto-detection picks that category for it |

## Left out

- DOM rendering and event wiring are not modelled: option elements, tab highlighting, file-info text, progress-bar widths (only the numbers), container visibility, drag and drop, `downloadFile`, notifications and the clipboard.
- All `fetch` calls are replaced by the reply each would receive. The multipart upload is reduced to whether its response was `ok`. The fields the page sends with the upload are not modelled.
- Time is not modelled: the 2-second waits between polls, the 1-second result delay, `debounce`, `throttle`, `sleep` and `generateId`.
- `formatFileSize` is not modelled: it works in floating point.
- `formatDuration` is not modelled on fractional seconds: its rounding is floating point.
- Browser sniffing (`getBrowserInfo`, `isMobileDevice`, `supportsDragAndDrop`) is not modelled: it reads the environment.
- Base64 encoding of the converted bytes is not modelled: the proxy returns the bytes as an opaque sequence.
- The commented-out earlier handler in netlify/functions/convert.js (lines 2-242) is dead code and is not modelled.
- Unused configuration sections are not modelled: MIME lists, UI, quality, features, endpoints, time-out, and the FILE_TOO_LARGE and FILE_NOT_SUPPORTED error strings, which no modelled code shows.
- Utils.NatToStringDigits: holds for every natural number, but a JavaScript template literal prints numbers of 1e21 or more in exponent form ("1e+21"), so the source's numerals are digit runs only below 1e21. Numbers are modelled as unbounded naturals.
- Utils.FormatDuration: `seconds` is a JavaScript double in the source and an unbounded natural here. Seconds of 2^53 or more are not modelled: there they are inexact, `Math.floor(seconds / 3600)` can differ from exact division, and from 1e21 the parts print in exponent form. The exact components proved by Utils.FormatDurationMeaning, and the digit-only parts from Utils.NatToStringDigits, hold of the source only below 2^53.
- Utils.ShouldLog: only the level test is modelled, not the write. A level outside the list passes the test (index -1), and for a name that is no console method, such as "fatal", `console[level](…)` at utils.js:214-216 then throws a TypeError and nothing is written.
- Utils.Lower: folds only the characters whose lower case is a single ASCII character (A-Z and the Kelvin sign). JavaScript's `toLowerCase` also folds other non-ASCII letters, to non-ASCII text, and U+0130 becomes two code units, so the model's extension can differ from the source's in such letters and in length. No accepted extension contains them, so validation and detection agree with the source.
- Page.Converter.ConvertFile: the click is modelled as one step that reads the page state once. `convertFile` is asynchronous, and other handlers can run between its awaits. The source reads the file name and both select values again at script.js:278-281. A file removed during the upload makes line 281 throw, and the catch at script.js:314-318 then shows that TypeError's message and re-enables the button. A select changed during the upload is sent without the pre-flight checks being run again. This interleaving is not modelled.
- Page.Converter.SelectConversionType: takes a `Category`. The source takes the tab's `data-type` attribute (script.js:64), and a name outside the format table makes `updateFormatOptions` throw. index.html, which holds the tabs, is not part of this model.
- Page.RemoteConversion: a successful prepare reply is always followed by the upload. In the source, `Object.entries(uploadData.uploadData)` (script.js:253) throws before any upload when the reply has no `uploadData`; that reply shape, and the engine's TypeError text, are not modelled.
- Proxy.Handle: JSON field values that are not strings, and the API-key value's text, are not modelled. A field is either absent or a string.
- Page.PollFrom: the environment supplies at least 30 replies, one per possible request; replies past the last request are never read.
- Page.Converter.constructor: the button's state at page load comes from index.html, which is not part of this model. It is taken to be disabled.
- Page.RemoteConversion: the re-check of `success` after polling (script.js:297) is left out. A completed poll result always has `success` set, so that check can never fail.
