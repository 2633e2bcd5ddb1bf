# DatePull ingestion and export core, in Dafny

This project models the deterministic core of DatePull, a service that reads appointments out of uploaded documents or pasted text and exports them to calendars. It covers four pieces.

- **Page selection and PDF subsetting** (`utils/pdfProcessor.js`):
  - `parsePageNumbers` turns a selection such as `1,3,5-8` into an ascending, duplicate-free list of zero-based page indices. A missing or blank selection gives `null`, meaning "all pages".
  - `extractPdfPages` copies the requested pages that exist, in the order requested, into a new document.
  - A PDF is a sequence of opaque pages. Loading and saving are function parameters.
- **Calendar export** (`src/utils/calendarUtils.ts`, over `CalendarEvent` from `src/types.ts`):
  - the compact and ISO date-time forms;
  - the Google, Outlook and Yahoo deep links, each as its ordered list of query parameters;
  - the iCalendar document, as content lines joined with CRLF.
- **The multipart reader of the serverless endpoint** (`api/analyze.ts`, `parseMultipartFormData`):
  - it checks the `Content-Type` header and extracts the boundary;
  - it views the body one character per byte and cuts it at `--` + boundary;
  - it lets each `file` or `text` part overwrite the field read so far.
- **The upload handler of the development server** (`dev-server.js`):
  - the decision to replace an uploaded PDF by the subset of its selected pages;
  - the `contents` list sent to the model;
  - the `events || []` default.

The modules are `Results` (Option, Result, Byte), `JsString`, `PdfProcessor`, `CalendarUtils`, `Multipart` and `DevServer`. `JsString` models the JavaScript string built-ins the code relies on: `indexOf`, `lastIndexOf`, `includes`, `split`, `join`, `trim`, `substring`, `slice` and a global one-character `replace`.

Loops that update state become methods proved against a specification function. These are:
- `ParsePageNumbers`, `AddTokenPages` and `AddRange`;
- `ExtractPdfPages`;
- `GenerateIcsContent` and its push helpers;
- `ParseMultipartFormData`;
- `SelectFile`, `BuildContents` and `AnalyzeRequest`.

Lemmas then state the properties the source promises about those functions.

Three behaviours of the code are worth stating outright:
- **A selection whose pages all lie outside the document.** The guard at `dev-server.js:79` tests that the parsed list is non-empty, not that any of its pages exists. So such a selection replaces the upload with a PDF of no pages. `DevServer.OutOfRangeSelectionEmpties` and `DevServer.ZeroSelectionEmpties` state this.
- **Malformed parts.** The multipart reader never rejects a part (`api/analyze.ts:72-91`). It fails only on the two header checks, or when the body is neither bytes nor a string and `Buffer.from` throws (`Multipart.HeaderDecides`, `Multipart.UnreadableBodyFails`).
- **The `text` field is not decoded.** It is cut from the byte-per-character view of the body (`api/analyze.ts:67`), so UTF-8 text comes back with one character per byte: "ö" typed by the client reads back as the two characters U+00C3 U+00B6 (`Multipart.TextBytesRoundTrip`, `Multipart.TextNotDecoded`).

## Model

| member | source | states |
|---|---|---|
| PdfProcessor.PageSelection | utils/pdfProcessor.js:8-35 | `null` exactly for a missing or blank selection; otherwise a strictly ascending list holding k exactly when some trimmed comma-separated token adds k |
| PdfProcessor.ParsePageNumbers | utils/pdfProcessor.js:8-35 | the Set-filling loop over the tokens returns exactly `PageSelection` |
| PdfProcessor.AddTokenPages | utils/pdfProcessor.js:17-31 | one iteration adds exactly the pages of the token to the set |
| PdfProcessor.AddRange | utils/pdfProcessor.js:22-24 | the inner loop adds exactly start-1 .. end-1 (nothing when start > end) |
| PdfProcessor.SortedFromSet | utils/pdfProcessor.js:34 | `Array.from(set).sort(...)` is strictly ascending, as long as the set, and holds exactly its members |
| PdfProcessor.Tokens | utils/pdfProcessor.js:15 | the trimmed comma-separated tokens; `TokensOfInput` states their number and shape |
| PdfProcessor.TokensOfInput | utils/pdfProcessor.js:15 | one token more than there are commas, none holding a comma or starting or ending with white space |
| PdfProcessor.TokenPages | utils/pdfProcessor.js:17-31 | the pages one token adds; `NumberToken`, `JunkToken`, `RangeTokenPages`, `HalfOpenRangeToken` and `TokenPagesAtLeastMinusOne` state them |
| PdfProcessor.NumberToken | utils/pdfProcessor.js:25-31 | a token that is the plain number n adds exactly the page n-1 |
| PdfProcessor.JunkToken | utils/pdfProcessor.js:25-31 | a hyphen-free token starting with neither digit, sign nor white space adds nothing, so parsing goes on |
| PdfProcessor.RangeTokenPages | utils/pdfProcessor.js:18-24 | `a-b` (followed by anything starting with '-') adds exactly a-1 .. b-1; nothing when a > b; `a-b-c` adds what `a-b` adds |
| PdfProcessor.HalfOpenRangeToken | utils/pdfProcessor.js:18-21 | `-n` and `n-` add nothing: an empty piece is NaN |
| PdfProcessor.ParseIntOfDecimal | utils/pdfProcessor.js:20-27 | `parseInt` of a number's digits followed by a non-digit gives that number |
| PdfProcessor.ParseIntSign | utils/pdfProcessor.js:20-27 | text without '-' never parses to a negative number, and a parse needs a digit |
| PdfProcessor.TokenPagesAtLeastMinusOne | utils/pdfProcessor.js:18-31 | every page a token adds is at least -1 |
| PdfProcessor.SelectedPagesOrderFree | utils/pdfProcessor.js:15-34 | the selected pages depend only on which tokens occur, not on their order or repetition |
| PdfProcessor.SelectionAtLeastMinusOne | utils/pdfProcessor.js:20-29 | every returned index is at least -1 |
| PdfProcessor.ExtractPdfPages | utils/pdfProcessor.js:43-62 | a source that does not load is an error; otherwise the saved copy of the pages at the requested indices (all pages for `null`) |
| PdfProcessor.PagesAtInRange | utils/pdfProcessor.js:47-58 | the copied pages are exactly the source pages at the in-range indices, in request order, duplicates kept and out-of-range indices dropped |
| PdfProcessor.InRange | utils/pdfProcessor.js:54 | the kept indices all lie in [0, totalPages) and are exactly the requested ones that do |
| PdfProcessor.NoneInRange | utils/pdfProcessor.js:53-58 | a request whose indices are all out of range copies no page |
| PdfProcessor.PagesAtAppend | utils/pdfProcessor.js:53-58 | the copy of a concatenated request is the concatenation of the copies |
| PdfProcessor.AllPagesCopied | utils/pdfProcessor.js:50-58 | with `null` indices the copy is the whole document, in order |
| PdfProcessor.Requested | utils/pdfProcessor.js:50 | the given indices, or every page index in order when there are none; `AllPagesCopied` and `ExtractPdfPages` state what is copied |
| CalendarUtils.FormatDateTime | src/utils/calendarUtils.ts:4-11 | the two forms; `CompactForm` and `CompactIsStrippedIso` state what they are and how they relate |
| CalendarUtils.CompactForm | src/utils/calendarUtils.ts:4-7 | for `YYYY-MM-DD` and `HH:MM` the compact form is the 15 characters `YYYYMMDDTHHMM00` |
| CalendarUtils.CompactIsStrippedIso | src/utils/calendarUtils.ts:4-10 | the compact form is the ISO form `date T time :00` with every '-' and ':' removed |
| CalendarUtils.Get | src/utils/calendarUtils.ts:23-33 | a query parameter is absent exactly when its name is not among the keys |
| CalendarUtils.GoogleCalendarUrl | src/utils/calendarUtils.ts:21-34 | base address, '&' and the encoded query; `GoogleLinkQuery`, `LinksAgreeOnTimes` and `LinksIgnore` state the query |
| CalendarUtils.OutlookCalendarUrl | src/utils/calendarUtils.ts:36-47 | base address, '&' and the encoded query; `OutlookLinkQuery` and `LinksIgnore` state the query |
| CalendarUtils.YahooCalendarUrl | src/utils/calendarUtils.ts:49-60 | base address, '&' and the encoded query; `YahooLinkQuery`, `LinksAgreeOnTimes` and `LinksIgnore` state the query |
| CalendarUtils.GoogleLinkQuery | src/utils/calendarUtils.ts:21-34 | keys text, dates, details, location, ctz in order; `dates` is compact start '/' compact end; ctz Europe/Berlin; a final `recur=RRULE:...` exactly when there is a recurrence |
| CalendarUtils.OutlookLinkQuery | src/utils/calendarUtils.ts:36-47 | fixed keys in order, ISO start and end, no recurrence |
| CalendarUtils.YahooLinkQuery | src/utils/calendarUtils.ts:49-60 | fixed keys in order, compact start and end, no recurrence |
| CalendarUtils.LinksAgreeOnTimes | src/utils/calendarUtils.ts:21-60 | Yahoo's times are Outlook's with separators removed, and Google's `dates` is Yahoo's start '/' end |
| CalendarUtils.LinksIgnore | src/utils/calendarUtils.ts:21-60 | Outlook and Yahoo links never depend on the recurrence; no link depends on attendees, the all-day flag or the calendar |
| CalendarUtils.GenerateUid | src/utils/calendarUtils.ts:14-19 | the filled template and the domain; `UidLayout`, `UidHexDigits` and `UidReads` state its shape and its draws |
| CalendarUtils.FillAt | src/utils/calendarUtils.ts:15-17 | filling the UID template keeps every other character, puts a hex digit for 'x' and one of 8, 9, a, b for 'y' |
| CalendarUtils.FillReads | src/utils/calendarUtils.ts:15-17 | the filling reads exactly as many random draws as the template has placeholders |
| CalendarUtils.UidLayout | src/utils/calendarUtils.ts:14-19 | an identifier has 48 characters: 8-4-4-4-12 with version digit '4', variant 8/9/a/b, then `@datepull.ai` |
| CalendarUtils.UidHexDigits | src/utils/calendarUtils.ts:14-19 | every other character of the first 36 is a lower-case hex digit |
| CalendarUtils.UidReads | src/utils/calendarUtils.ts:14-19 | an identifier depends only on its 31 draws |
| CalendarUtils.TemplateDraws | src/utils/calendarUtils.ts:15 | the template holds 31 placeholders |
| CalendarUtils.Stamp | src/utils/calendarUtils.ts:70 | the DTSTAMP value; `StampOfInstant` states it for every `toISOString()` text |
| CalendarUtils.StampOfInstant | src/utils/calendarUtils.ts:70 | the stamp of `YYYY-MM-DDTHH:MM:SS.sssZ` is `YYYYMMDDTHHMMSSZ` |
| CalendarUtils.EscapeText | src/utils/calendarUtils.ts:83 | the DESCRIPTION value; `EscapeTextNoNewline` and `BlockDescription` state it |
| CalendarUtils.EscapeTextNoNewline | src/utils/calendarUtils.ts:83 | the escaped notes hold no line feed and keep every other character |
| CalendarUtils.GenerateIcsContent | src/utils/calendarUtils.ts:62-89 | the pushes and the join give the CRLF-joined rendering of header, one block per event, footer |
| CalendarUtils.PushVEvent | src/utils/calendarUtils.ts:72-85 | one iteration pushes exactly the rendered block of the event |
| CalendarUtils.PushOpening | src/utils/calendarUtils.ts:73-77 | the five opening lines of a block, pushed in order |
| CalendarUtils.PushOptional | src/utils/calendarUtils.ts:78-83 | a line is pushed exactly when its field is non-empty |
| CalendarUtils.PushLine | src/utils/calendarUtils.ts:73-84 | one push appends the rendered line |
| CalendarUtils.CalendarOpens | src/utils/calendarUtils.ts:63-68 | the document's first four lines are BEGIN:VCALENDAR, VERSION:2.0, the PRODID line and CALSCALE:GREGORIAN, whatever the events |
| CalendarUtils.VEvent | src/utils/calendarUtils.ts:73-84 | the lines of one event block; `BlockOnce`, `BlockRecurrence`, `BlockLocation` and `BlockDescription` state which lines it holds |
| CalendarUtils.BlockOnce | src/utils/calendarUtils.ts:72-85 | each block has exactly one BEGIN, END, UID, DTSTAMP, DTSTART, DTEND and SUMMARY line, with the expected values |
| CalendarUtils.BlockRecurrence | src/utils/calendarUtils.ts:78-80 | an RRULE line exactly when the event has a recurrence |
| CalendarUtils.BlockLocation | src/utils/calendarUtils.ts:82 | a LOCATION line exactly when the location is non-empty |
| CalendarUtils.BlockDescription | src/utils/calendarUtils.ts:83 | a DESCRIPTION line exactly when there are notes, escaped and without line feed |
| CalendarUtils.EventBegins | src/utils/calendarUtils.ts:72-73 | one `BEGIN:VEVENT` per event |
| CalendarUtils.EventEnds | src/utils/calendarUtils.ts:84 | one `END:VEVENT` per event |
| CalendarUtils.EventTitles | src/utils/calendarUtils.ts:72-81 | the SUMMARY lines carry the titles in input order |
| CalendarUtils.EventUids | src/utils/calendarUtils.ts:74 | the i-th block carries the i-th identifier |
| CalendarUtils.EventStamps | src/utils/calendarUtils.ts:70-75 | every block carries the same DTSTAMP |
| CalendarUtils.CalendarBegins | src/utils/calendarUtils.ts:62-89 | the document opens the calendar once, then each event once |
| CalendarUtils.CalendarEnds | src/utils/calendarUtils.ts:62-89 | the document closes each event, then the calendar |
| CalendarUtils.CalendarStamps | src/utils/calendarUtils.ts:70-75 | every DTSTAMP of the document is the stamp of the export time |
| CalendarUtils.CalendarTitles | src/utils/calendarUtils.ts:72-81 | the document's titles are the events' titles, in order |
| CalendarUtils.CalendarUids | src/utils/calendarUtils.ts:72-74 | the document's identifiers come from consecutive runs of 31 draws |
| CalendarUtils.DocumentText | src/utils/calendarUtils.ts:87-88 | the text starts with `BEGIN:VCALENDAR` and ends with `END:VCALENDAR`, with no trailing CRLF |
| CalendarUtils.CalendarIgnores | src/utils/calendarUtils.ts:62-89 | attendees, the all-day flag and the calendar never change the document |
| Multipart.Binary | api/analyze.ts:67 | the byte-per-character view has one character per byte, whose code is the byte |
| Multipart.BinaryBytesOfBinary | api/analyze.ts:66-83 | reading bytes as characters and writing them back gives the same bytes |
| Multipart.BoundaryOf | api/analyze.ts:60-63 | a boundary found is non-empty and holds no `boundary=` |
| Multipart.FirstCapture | api/analyze.ts:74-78 | a regular-expression capture is absent exactly when the expression matches nowhere |
| Multipart.ParseMultipartFormData | api/analyze.ts:53-96 | the header checks, the split and the overwriting loop give exactly `ParseForm` |
| Multipart.AbsentHeader | api/analyze.ts:54-58 | an absent header reads as `''` and fails with `Invalid content type` |
| Multipart.HeaderDecides | api/analyze.ts:54-95 | for a body of bytes or a string, only the header decides failure, with one of its two messages; the body's content never causes an error |
| Multipart.UnreadableBodyFails | api/analyze.ts:54-66 | a body that is neither bytes nor a string fails with `Buffer.from`'s TypeError, unless a header check has already failed |
| Multipart.NoBoundaryParam | api/analyze.ts:60-63 | a header without `boundary=` has no boundary, which the reader rejects with `No boundary found in content-type` |
| Multipart.BoundaryAtEnd | api/analyze.ts:60-63 | after the first `boundary=`, the boundary is everything that follows, quotes and '=' kept; an empty one is missing |
| Multipart.BoundaryBeforeSecond | api/analyze.ts:60-63 | the boundary runs from the first `boundary=` to the second |
| Multipart.BrowserHeader | api/analyze.ts:54-67 | `multipart/form-data; boundary=B` is accepted for any B without `boundary=`, and the body is cut at `--B` |
| Multipart.ApplyPart | api/analyze.ts:72-91 | one part's effect on the form; `SinglePartForm`, `TextPartReads`, `IgnoredAnywhere` and `IgnoredSuffix` state it |
| Multipart.IgnoredAnywhere | api/analyze.ts:72-77 | a part without a disposition, or naming another field, changes nothing wherever it sits |
| Multipart.IgnoredSuffix | api/analyze.ts:72-77 | ignored parts added at the end change nothing |
| Multipart.TextIsLast | api/analyze.ts:72-93 | the `text` field is the payload of the last `text` part, and absent when there is none |
| Multipart.FileIsLast | api/analyze.ts:72-93 | the `file` field holds bytes and media type of the last `file` part, and is absent when there is none |
| Multipart.FieldName | api/analyze.ts:74-75 | the first `name="..."` capture; `DispositionNames` and `FirstCapture` state it |
| Multipart.MediaType | api/analyze.ts:78-79 | the first `Content-Type: ` value, trimmed, or the default; `FileMediaType` states it |
| Multipart.Payload | api/analyze.ts:81-89 | the cut between the first blank line and the last line break; `PayloadOf` and `FileBytesPreserved` state it |
| Multipart.DispositionNames | api/analyze.ts:74-75 | a disposition line naming `name` gives the part that field name, whatever follows it |
| Multipart.PayloadOf | api/analyze.ts:81-89 | the payload of head, blank line, v, CRLF is exactly v, line breaks in v included |
| Multipart.FileBytesPreserved | api/analyze.ts:81-83 | the file's bytes read back as characters are exactly the payload: no decoding happens |
| Multipart.FileMediaType | api/analyze.ts:78-79 | the media type of a file part is its `Content-Type` value, trimmed |
| Multipart.SinglePartForm | api/analyze.ts:67-93 | a body with one part and its close delimiter reads as that part alone |
| Multipart.TextRoundTrip | api/analyze.ts:67-90 | a body text with one `text` part carrying v reads back as v, if v holds no delimiter |
| Multipart.TextBytesRoundTrip | api/analyze.ts:54-90 | body bytes with one `text` part carrying the bytes `data` yield as text the byte-per-character view of `data`, undecoded |
| Multipart.TextNotDecoded | api/analyze.ts:67-90 | the UTF-8 bytes C3 B6 read back as the two characters U+00C3 U+00B6, not as U+00F6 |
| Multipart.FileRoundTrip | api/analyze.ts:67-90 | a body with one `file` part carrying bytes reads back as exactly those bytes and the trimmed media type |
| DevServer.SelectFile | dev-server.js:70-89 | the guarded parse and extraction give exactly `Forwarded` |
| DevServer.BuildContents | dev-server.js:95-100 | the file's bytes and type first when there is a file, the prompt last |
| DevServer.AnalyzeRequest | dev-server.js:70-100 | the handler up to the model call gives exactly `RequestContents` |
| DevServer.OrEmpty | dev-server.js:71-72 | a missing field reads as the empty string; `AbsentFieldsReadEmpty` states its effect on the request |
| DevServer.AbsentFieldsReadEmpty | dev-server.js:71-72 | a missing `text` or `pdfPages` field makes the same request as an empty one |
| DevServer.Subsets | dev-server.js:75-79 | the decision to cut the upload; `SubsetsIff` states it without the trim test |
| DevServer.SubsetsIff | dev-server.js:75-79 | the upload is cut exactly when it is a PDF and the selection parses to a non-empty list |
| DevServer.UnselectedUploadSent | dev-server.js:70-100 | an upload that is not a PDF, or whose selection parses to no list or an empty one, reaches the model unchanged before the prompt; no upload, the prompt alone |
| DevServer.ReplacementKeepsFields | dev-server.js:82-86 | a cut upload keeps its other fields, its buffer is the saved subset and its size that buffer's length |
| DevServer.OutOfRangeSelectionEmpties | dev-server.js:79-86 | a selection entirely out of range still replaces the upload, with a PDF of no pages |
| DevServer.NumberSelection | utils/pdfProcessor.js:25-34 | the selection `n` parses to the single index n-1 |
| DevServer.ZeroSelection | utils/pdfProcessor.js:27-29 | the selection `0` parses to `[-1]` |
| DevServer.ZeroSelectionEmpties | dev-server.js:75-86 | a PDF upload with selection `0` is replaced by a PDF of no pages |
| DevServer.RequestOrder | dev-server.js:93-100 | the prompt is the last entry, and the only one without an upload |
| JsString.JoinSplit | api/analyze.ts:67 | joining the pieces of a split with the separator gives back the text |
| JsString.TrimEmptyIff | utils/pdfProcessor.js:11 | `trim` gives the empty string exactly when the text is all white space |

## Left out

- Base64 encoding of the file (`api/analyze.ts:84`, `dev-server.js:97`). It is a library encoder. The model keeps the file's bytes.
- The text encoder `Buffer.from(string)` for a body that arrives as a string. It is the parameter `encode`.
- `URLSearchParams` percent-encoding. It is the parameter `encode` of the link functions. The query is kept as its ordered list of name/value pairs.
- pdf-lib (`PDFDocument.load`, `create`, `copyPages`, `addPage`, `save`). These are the parameters `load` and `save`. Pages are values of an opaque type, and a failed load is the error `InvalidPdf`.
- `Math.random()` in `generateUid` is a stream `random` of draws. The clock behind the DTSTAMP is the `toISOString()` text `isoNow`.
- The prompt text, the response schema and the call to the model (`dev-server.js:91-93`, `102-113`). The prompt is the parameter `getPrompt`. Parsing the JSON answer is left out, and `EventsOrEmpty` starts from its optional `events` list.
- Logging, the 500 response, and the route, CORS and upload middleware. These are server plumbing.
- `parseInt` is modelled as `parseInt(s, 10)`: leading white space is skipped, one '+' or '-' sign is read, then the longest run of leading digits, and no digits gives NaN. Only −0 and the rounding of large values (next line) are not modelled. The page-selection parser never passes it a '-'.
- PdfProcessor.ParseInt: numbers are unbounded integers. JavaScript's `parseInt` gives a double, which is rounded above 2^53 (`9007199254740993` parses to 9007199254740992). The model gives the exact value.
- PdfProcessor.ParseIntOfDecimal: it claims `parseInt` returns n for every n. JavaScript does so only up to 2^53.
- PdfProcessor.AddRange: a JavaScript `Set` holds at most 2^24 entries in V8, so a range such as `1-20000000` throws a RangeError inside the loop at `utils/pdfProcessor.js:22-24`. The model has no such limit and returns every index. Memory limits of the runtime are not modelled.
- Multipart.Unreadable: it stands for every value `Buffer.from` rejects. Array-like objects, which `Buffer.from` accepts, are not modelled. The TypeError message is kept up to its first sentence: Node appends the received value, and that part is not modelled.
- DevServer.EventsOrEmpty: the `events || []` default is a plain definition with no contract beyond its body.
- Multipart.FieldName: the first `name="..."` match of a part may sit inside `filename="..."`, as in the source. The model keeps that behaviour and proves nothing about parts whose `filename` comes before `name`.
- iCalendar line folding and TEXT escaping other than line feeds. The source does neither.
