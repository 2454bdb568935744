# Photo intake and grouping — a Dafny model

This project models the photo intake core of the ProjectPoint event-photo
system. Photos reach it by three routes, and the last two end at the same
upload endpoint:

* **Batch processing** (`BatchProcessor`): the browser scans each photo for
  a QR code. It tries a ladder of strategies: native `BarcodeDetector`,
  then jsQR on an 800 px resample, then a contrast/grayscale pass, then
  full resolution below 3000 px. It reads the EXIF capture time, works in
  chunks of three, sorts by timestamp, and walks the sorted list. Each
  QR photo ("separator") opens a new group labelled by the QR's JSON
  `name`/`id`, and the following photos join that group.
* **Quality-control staging** (`qc/page`): a list of staged photos. Each
  photo is assigned to a customer and uploaded one by one, or all together
  with "link all". It moves IDLE → UPLOADING → DONE/ERROR.
* **Hot-folder watcher** (`scripts/watcher.js`): a debounce table that
  waits 30 s after a file appears and cancels the upload if the file is
  deleted first. Once the wait is over, it sends the file as a hand-built
  multipart/form-data body.
* **Upload route** (`api/upload`): it checks the credentials and then signs
  the Cloudinary request. The signature is the SHA-1 of the sorted
  `key=value` pairs followed by the secret. It then upserts the day's
  walk-in event (`walk-in-<date>`) and stores the photo as APPROVED or
  PENDING_REVIEW.
* **Event manager** (`EventManager`): it splits the events list into
  today's walk-in session and the rest, and shows each date up to its `T`.

Modules:

* `Common`: options, JavaScript truthiness, and the walk-in slug.
* `Grouping`: separators, labels and the grouping walk.
* `QrLadder`: the scan strategies.
* `Scanner`: timestamps, chunked scanning, the stable sort, and the whole
  `processFiles`.
* `Staging`: the QC list.
* `Watcher`: debounce, UTF-8 and the multipart body.
* `UploadRoute`: the POST handler.
* `EventSessions`: the event manager's split.

Everything the code gets from its environment is a parameter of the model:

* `JSON.parse` is a `Parser` function.
* A browser `File` carries a `handle` for its object identity, so two
  files with the same name and modification time (picked from sibling
  folders) can still decode differently.
* The decoders (BarcodeDetector, jsQR on a canvas, exifr) are outcome
  parameters.
* SHA-1 is a `string -> string` function.
* The Cloudinary call is a `CloudRequest -> CloudReply` function.
* The clock is given as `nowMs` and the Chicago date string.
* The file system is the `onDisk` flag of a directory event.
* Timers are handles issued by the model; an expiry is an explicit input naming the file and the handle, and a cleared or fired handle is spent.
* The database's event table is a map.

Three behaviours of the code are stated as lemmas:

* A QR payload whose JSON has only a truthy `type` is a system QR, yet its
  group label is its falsy `id`, usually `undefined`
  (`Grouping.TypeOnlyPayloadLabelsUndefined`).
* An image the browser cannot decode never fires `onload`, so its scan and
  the whole batch wait forever; an image more than 800 times longer than it
  is wide resamples to a canvas side below one pixel, whose `getImageData`
  throws uncaught. Either way no groups are produced (`Scanner.ProcessFiles`).
* The upload route creates the walk-in event row by `id` and sets no
  `slug`. The event manager looks the walk-in up by `slug`. So that row
  is never shown as today's walk-in and is always listed with the other
  events (`EventSessions.SluglessEventListed`).

## Model

| member | source | states |
|---|---|---|
| Common.Or | app/admin/BatchProcessor.tsx:155 | `a \|\| b` yields `a` exactly when `a` is truthy, otherwise `b` |
| Common.WalkInSlug | app/api/upload/route.ts:74-75 | the walk-in event id is the fixed prefix `walk-in-` followed by the whole date string, unchanged |
| Common.WalkInSlugInjective | app/api/upload/route.ts:74-75 | two dates give the same walk-in id only if they are the same date, so each day has its own event |
| Grouping.IsSeparator | app/admin/BatchProcessor.tsx:148 | a photo whose scan gave null or the empty string is not a separator; a separator carries a non-empty payload |
| Grouping.Classify | app/admin/BatchProcessor.tsx:150-161 | a QR payload is a system QR exactly when it parses to an object with a truthy `id`, `type` or `name`; otherwise the raw text is kept |
| Grouping.SubjectOf | app/admin/BatchProcessor.tsx:150-157 | the group label is the JSON `name` if truthy, else the JSON `id` for a system QR, else the raw payload text |
| Grouping.Seal | app/admin/BatchProcessor.tsx:163-179 | closing a group keeps the groups emitted so far and appends the open group exactly when it has an anchor or a photo |
| Grouping.TypeOnlyPayloadLabelsUndefined | app/admin/BatchProcessor.tsx:154-155 | a payload object whose only truthy field is `type` is accepted as a system QR but labels its group with its falsy `id` (usually `undefined`), never with its own text |
| Grouping.Walk | app/admin/BatchProcessor.tsx:147-179 | the walk keeps every group well formed and loses or reorders no photo: the flattened groups are the sealed groups, then the open group, then the unread photos |
| Grouping.GroupImages | app/admin/BatchProcessor.tsx:144-179 | grouping partitions the sorted photos in order. Every group is non-empty. Only the first group may lack a QR anchor, and each anchor is a separator labelled from its payload. |
| Grouping.PartitionUnique | app/admin/BatchProcessor.tsx:163-173 | two well-formed groupings of the same photo sequence are equal, so the grouping is determined by its properties |
| Grouping.GroupImagesCharacterised | app/admin/BatchProcessor.tsx:144-179 | a grouping is the code's result if and only if it is well formed and flattens to the input |
| Grouping.NoSeparatorsOneGroup | app/admin/BatchProcessor.tsx:145-179 | without QR photos everything lands in one UNKNOWN group, and no photos give no groups |
| Grouping.AllSeparatorsSingletons | app/admin/BatchProcessor.tsx:163-171 | consecutive QR photos each form their own group with no photos |
| Grouping.SingletonsPartition | app/admin/BatchProcessor.tsx:163-171 | the one-group-per-separator list is a well-formed partition of an all-separator input |
| Grouping.AnchorsAreSeparators | app/admin/BatchProcessor.tsx:148-171 | the QR anchors of the groups, in order, are exactly the separator photos of the input |
| Grouping.GroupCount | app/admin/BatchProcessor.tsx:163-179 | the number of groups is the number of separators, plus one if the photos before the first separator form an UNKNOWN group |
| Grouping.FirstGroupSize | app/admin/BatchProcessor.tsx:145-173 | the first group is anchored iff the first photo is a separator, and it holds the run of non-separators up to the next separator |
| QrLadder.Ratio | app/admin/BatchProcessor.tsx:68-73 | the scale factor of an oversized image is in (0,1), fits both sides into 800 px and makes one side exactly 800 px |
| QrLadder.Resample | app/admin/BatchProcessor.tsx:65-73 | an image over 800 px on either side is scaled to fit 800 px with its aspect ratio kept; a smaller one is unchanged; no side ever grows |
| QrLadder.RatioOfLonger | app/admin/BatchProcessor.tsx:68-73 | `Math.min(800 / w, 800 / h)` is 800 over the longer side |
| QrLadder.CanvasSize | app/admin/BatchProcessor.tsx:65-89 | the 800 px passes draw within 800 px, the full-resolution pass at the natural size, and no pass draws larger than the image |
| QrLadder.Attempt | app/admin/BatchProcessor.tsx:33-91 | the native rung yields the first barcode's raw value iff the detector found one; each jsQR rung reads the canvas at its own size with its own filter (plain, or contrast and grayscale for the second pass) |
| QrLadder.TooThinIsDegenerate | app/admin/BatchProcessor.tsx:65-73 | the closed-form thinness test holds exactly when the resampled canvas has a side below one pixel |
| QrLadder.ThrowsAtFirstCanvasRung | app/admin/BatchProcessor.tsx:48-89 | once the detector has missed, the scan throws iff some jsQR rung it can reach reads a canvas with a side below one pixel, which `getImageData` rejects |
| QrLadder.Allowed | app/admin/BatchProcessor.tsx:33-91 | the ladder contains the native rung iff a detector exists, always the two 800 px passes, and full resolution iff both sides are under 3000 px |
| QrLadder.FirstSuccess | app/admin/BatchProcessor.tsx:27-94 | the reference search: the rungs tried are a prefix of the ladder, each failed rung came back empty, and the answer is the first success or nothing after the whole ladder |
| QrLadder.SoftwareScan | app/admin/BatchProcessor.tsx:75-93 | the jsQR passes run in order, stop at the first truthy result, and run full resolution only under the 3000 px cap |
| QrLadder.ScanImage | app/admin/BatchProcessor.tsx:27-94 | the scan tries a non-empty prefix of the allowed ladder and never decodes full resolution at 3000 px or more |
| QrLadder.ScanImageIsFirstSuccess | app/admin/BatchProcessor.tsx:27-94 | the code's strategy chain equals the first-success search over the allowed ladder |
| QrLadder.SoftwareRungsFirstSuccess | app/admin/BatchProcessor.tsx:75-93 | the three jsQR passes as coded are the first-success search over the resampled, enhanced and (under the cap) full-resolution rungs |
| QrLadder.OversizedImageNotFound | app/admin/BatchProcessor.tsx:86-93 | a 4000 px image with no detector whose two 800 px passes fail is reported as having no QR after exactly two attempts |
| Scanner.ResolveTimestamp | app/admin/BatchProcessor.tsx:117-125 | the EXIF DateTimeOriginal wins when present; a failed or empty EXIF read falls back to the file's lastModified |
| Scanner.ProcessFile | app/admin/BatchProcessor.tsx:27-130 | a file the browser cannot decode leaves its scan waiting forever; a scan that reaches a canvas side below one pixel rejects; otherwise the record keeps its file and takes the resolved capture timestamp |
| Scanner.ProcessFilePayload | app/admin/BatchProcessor.tsx:127-129 | for a file that scans, the QR payload is the answer of the first successful rung of the allowed ladder, or nothing when all rungs fail |
| Scanner.Both | app/admin/BatchProcessor.tsx:132 | combining two `Promise.all` results: fulfilled iff both are, rejected iff either is, and the values appended |
| Scanner.AllOf | app/admin/BatchProcessor.tsx:132 | `Promise.all` fulfils iff every promise does, with their values in order, and rejects iff one rejects; otherwise it never settles |
| Scanner.AllOfConcat | app/admin/BatchProcessor.tsx:132 | `Promise.all` over two lists laid end to end combines their two results |
| Scanner.ProcessChunk | app/admin/BatchProcessor.tsx:115-132 | a chunk yields one record per file, in file order, iff every file scans; it rejects iff some file's scan rejects, and otherwise waits forever |
| Scanner.Chunks | app/admin/BatchProcessor.tsx:110-112 | the files are cut into non-empty chunks of at most 3, all but the last exactly 3, that concatenate back to the list, ceil(n/3) of them |
| Scanner.ProcessChunkConcat | app/admin/BatchProcessor.tsx:132-133 | the outcome for two pieces laid end to end combines the outcomes of the pieces |
| Scanner.AwaitInOrder | app/admin/BatchProcessor.tsx:110-137 | awaiting chunk results one after another fulfils iff every one fulfils |
| Scanner.AwaitFirstFailure | app/admin/BatchProcessor.tsx:110-137 | when that fails, the outcome is the first result that did not fulfil, all before it having fulfilled |
| Scanner.ScanChunks | app/admin/BatchProcessor.tsx:110-137 | the chunked scan fulfils iff every chunk does; otherwise it ends with the outcome of the first chunk that did not, since later chunks never start |
| Scanner.ScanChunksCons | app/admin/BatchProcessor.tsx:110-137 | the first chunk decides: a failing chunk is the outcome whatever later chunks would give, and a fulfilled one puts its records before the rest |
| Scanner.ScanStep | app/admin/BatchProcessor.tsx:111-133 | one turn of the loop over `files.slice(i, i + 3)`: a failing chunk is the scan's outcome, a fulfilled one joins the records already pushed |
| Scanner.FirstChunkHangWins | app/admin/BatchProcessor.tsx:111-133 | a file of the first chunk that never loads stalls the whole scan even when a later file would reject, since the later chunk never starts |
| Scanner.ScanChunksOnePerFile | app/admin/BatchProcessor.tsx:111-133 | the chunked scan fulfils iff the whole selection scanned at once does, and then gives the records of all the chunks end to end |
| Scanner.ChunkedScanIsPerFile | app/admin/BatchProcessor.tsx:106-137 | the chunked scan fulfils iff every file scans, and then record k is file k processed alone |
| Scanner.ScanFiles | app/admin/BatchProcessor.tsx:106-137 | the loop ends with exactly the outcome of the chunk-by-chunk scan: one record per file in input order iff every file scans, otherwise the outcome of the first chunk that does not fulfil, traced to a file that rejects or never loads |
| Scanner.ChunkFailure | app/admin/BatchProcessor.tsx:130-133 | a chunk that does not fulfil contains a file that fails in the same way, so the selection does not scan |
| Scanner.Insert | app/admin/BatchProcessor.tsx:143 | inserting into a timestamp-sorted list keeps it sorted and adds exactly that image |
| Scanner.SortByTime | app/admin/BatchProcessor.tsx:143 | the sort returns a permutation of its input ordered by timestamp |
| Scanner.SortByTimeStable | app/admin/BatchProcessor.tsx:143 | photos with equal timestamps keep their relative order, as `Array.prototype.sort` guarantees |
| Scanner.InsertLatest | app/admin/BatchProcessor.tsx:143 | a record later than every sorted record is inserted at the end |
| Scanner.ProcessFiles | app/admin/BatchProcessor.tsx:96-183 | the sort and the grouping run iff every file scans; then the result is a stable timestamp sort of the records and the groups partition it; otherwise no groups, and the run waits forever or rejects exactly as the chunk-by-chunk scan does |
| Scanner.SortThree | app/admin/BatchProcessor.tsx:143 | three photos with distinct timestamps come out in time order |
| Scanner.AliceScenario | app/admin/BatchProcessor.tsx:143-179 | an "Alice" QR shot first, then two photos, all shuffled, yields one group labelled Alice holding the two photos |
| Staging.SelectFiles | app/admin/qc/page.tsx:39-52 | picked files are appended after the existing items as IDLE, unassigned, and in order |
| Staging.AssignCustomer | app/admin/qc/page.tsx:54-58 | the item with that id gets the customer and nothing else changes |
| Staging.AssignAll | app/admin/qc/page.tsx:60-65 | every IDLE item gets the customer; items in any other status are untouched |
| Staging.RemoveItem | app/admin/qc/page.tsx:67-69 | exactly the items with other ids remain |
| Staging.RemoveItemConcat | app/admin/qc/page.tsx:67-69 | removal works piecewise over a concatenation, so it keeps order |
| Staging.RemoveAbsentId | app/admin/qc/page.tsx:67-69 | removing an id no item has leaves the list unchanged |
| Staging.SetStatus | app/admin/qc/page.tsx:75-93 | the status update touches only the items with the given id |
| Staging.Settled | app/admin/qc/page.tsx:84-94 | an ok response ends in DONE; a failed response or a thrown fetch ends in ERROR |
| Staging.UploadItem | app/admin/qc/page.tsx:71-95 | an item is uploaded iff it is IDLE with a customer; the upload sets it to UPLOADING, then to DONE or ERROR, and leaves the other items alone |
| Staging.UploadWalksStatus | app/admin/qc/page.tsx:72-94 | an eligible item moves IDLE → UPLOADING → DONE/ERROR, each step a permitted transition |
| Staging.LinkAllSelection | app/admin/qc/page.tsx:98 | "link all" picks exactly the IDLE items that have a customer |
| Staging.LinkAllSelectionConcat | app/admin/qc/page.tsx:98 | the selection of a concatenation is the concatenation of the selections |
| Staging.LinkAll | app/admin/qc/page.tsx:98-102 | with nothing eligible "link all" changes nothing |
| Staging.UploadEachSettles | app/admin/qc/page.tsx:106-108 | after the sequential loop every selected item is DONE or ERROR, as its response says, and the others are unchanged |
| Staging.UploadEach | app/admin/qc/page.tsx:106-108 | the sequential uploads never add or drop list entries |
| Staging.LinkAllSettles | app/admin/qc/page.tsx:97-110 | after "link all" every item is either settled by its response or unchanged |
| Staging.LinkAllSettlesQualifying | app/admin/qc/page.tsx:97-110 | with distinct ids, an item is settled iff it was IDLE with a customer; ineligible items are untouched |
| Watcher.HandleNewFile | scripts/watcher.js:46-58 | a tracked name schedules nothing; a new name gets its own fresh 30 s timer and the other entries stay |
| Watcher.OnFsEvent | scripts/watcher.js:25-44 | nameless, hidden and non-rename events are ignored; a rename of an existing file is a new file; a rename of a missing file clears its pending timer, which is spent, and untracks it |
| Watcher.OnTimerFired | scripts/watcher.js:52-55 | the live timer of a tracked name uploads the file and stops tracking it; a cleared or already fired handle does nothing |
| Watcher.StepsKeepInv | scripts/watcher.js:36-57 | every tracked name holds a timer that was issued, differs from every other name's, and was neither cleared nor fired, before and after each step |
| Watcher.Run | scripts/watcher.js:25-58 | any sequence of events and expiries preserves that invariant |
| Watcher.RepeatedCreationSchedulesOnce | scripts/watcher.js:47 | a burst of creation events for one file schedules a single upload |
| Watcher.UntrackedStaysSilent | scripts/watcher.js:25-58 | a file that is not tracked and is not created again is never uploaded and stays untracked |
| Watcher.DeletedFileNotUploaded | scripts/watcher.js:35-55 | a file deleted while its timer is pending is never uploaded unless it is created again |
| Watcher.CreatedThenDeletedSilent | scripts/watcher.js:33-55 | a file created and deleted inside the buffer is scheduled and cancelled, and the cleared timer uploads nothing |
| Watcher.CreatedFileUploaded | scripts/watcher.js:46-57 | a new file whose timer runs out undisturbed is scheduled once for 30 s and then uploaded once |
| Watcher.EncodeMulti | scripts/watcher.js:92 | a non-ASCII code point becomes a UTF-8 lead byte and 1 to 3 continuation bytes |
| Watcher.EncodeMultiRoundTrip | scripts/watcher.js:92 | decoding a multi-byte form gives back the code point it encodes |
| Watcher.Utf8Length | scripts/watcher.js:92 | a string takes between one and four bytes per character |
| Watcher.Utf8Concat | scripts/watcher.js:92 | encoding distributes over concatenation |
| Watcher.Utf8Ascii | scripts/watcher.js:92 | an ASCII string encodes to one byte per character, the character's code |
| Watcher.MakeBoundary | scripts/watcher.js:81 | the boundary is `----WebKitFormBoundary` (22 characters) followed by the random digits, unchanged |
| Watcher.BoundaryValid | scripts/watcher.js:81 | the generated boundary is a valid RFC 2046 boundary: 1 to 70 allowed characters, not ending in a space |
| Watcher.Body | scripts/watcher.js:83-92 | the body is exactly as long as the encoded headers, the file and the encoded close-delimiter, and the file bytes sit unchanged right after the headers |
| Watcher.BodyFraming | scripts/watcher.js:83-92 | the body is the encoded headers, the file bytes unchanged, then the encoded close-delimiter |
| Watcher.BodyDelimiters | scripts/watcher.js:85-92 | the body starts with the dash-boundary line and ends with the close-delimiter line |
| Watcher.ContentLength | scripts/watcher.js:92-98 | the Content-Length sent is 2·\|boundary\| + encoded filename length + file length + 98 |
| UploadRoute.RoundSeconds | app/api/upload/route.ts:29 | the timestamp is the whole second nearest the clock, halves rounding up |
| UploadRoute.RoundSecondsUnique | app/api/upload/route.ts:29 | that nearest second is unique |
| UploadRoute.NatToString | app/api/upload/route.ts:31 | decimal rendering gives a non-empty digit string without a leading zero |
| UploadRoute.IntToString | app/api/upload/route.ts:31 | `toString` puts a minus sign in front exactly when the timestamp is negative |
| UploadRoute.NatToStringRoundTrip | app/api/upload/route.ts:31 | reading the decimal text back gives the number |
| UploadRoute.IntToStringInjective | app/api/upload/route.ts:29-31 | distinct timestamps render as distinct strings |
| UploadRoute.BelowTotal | app/api/upload/route.ts:37 | the default sort order is total on distinct keys |
| UploadRoute.BelowTransitive | app/api/upload/route.ts:37 | the default sort order is transitive |
| UploadRoute.SortKeys | app/api/upload/route.ts:37 | the sorted keys are a strictly ascending permutation of the keys |
| UploadRoute.AscendingUnique | app/api/upload/route.ts:37 | there is only one ascending arrangement of a set of keys |
| UploadRoute.SignatureInputOrderFree | app/api/upload/route.ts:37-38 | the string to sign does not depend on the order in which the parameters were listed |
| UploadRoute.UploadSignatureInput | app/api/upload/route.ts:30-38 | the route signs `folder=project-point_raw&timestamp=<t>` followed by the secret |
| UploadRoute.Pairs | app/api/upload/route.ts:38 | no keys give the empty string; otherwise the string starts with the first `key=value` and goes on with `&` exactly when more keys follow |
| UploadRoute.SignatureInput | app/api/upload/route.ts:37-38 | the string to sign ends with the secret, and is longer than the secret exactly when there are parameters |
| UploadRoute.StatusCode | app/api/upload/route.ts:12-118 | 200 is sent iff the photo was saved, and 400 iff no file was given; every other outcome is 500 |
| UploadRoute.MessageOr | app/api/upload/route.ts:112-118 | the error text is the thrown message when non-empty and the fallback when it is empty, so it is never empty |
| UploadRoute.Upsert | app/api/upload/route.ts:78-87 | the upsert creates the row only when its id is absent and never changes an existing row |
| UploadRoute.UpsertIdempotent | app/api/upload/route.ts:78-87 | upserting the same id again changes nothing |
| UploadRoute.WalkInRow | app/api/upload/route.ts:81-86 | the created row has the walk-in slug as its id, the name `Walk-in (<date>)` and the type FIELD |
| UploadRoute.Decide | app/api/upload/route.ts:96-98 | a photo is APPROVED and linked iff a non-empty customer id came with it, otherwise PENDING_REVIEW and unlinked |
| UploadRoute.BuildRequest | app/api/upload/route.ts:29-54 | the request carries the file, key, rounded timestamp, the folder and the SHA-1 of the sorted pair string plus secret |
| UploadRoute.Post | app/api/upload/route.ts:10-119 | missing credentials give 500 and a missing file gives 400, both before any request. Cloudinary is called iff the form parsed and has a file. A save happens iff Cloudinary stored the image, and it goes to the day's walk-in event. An unparsable form or an unreachable Cloudinary fails with the thrown message or "Internal Server Error", a refused upload with Cloudinary's message or "Cloudinary upload failed". Every failure leaves the events table as it was. |
| UploadRoute.SameDayUploadsShareEvent | app/api/upload/route.ts:74-87 | a second upload on the same day reuses the walk-in event the first one created |
| EventSessions.WalkInEvent | app/admin/EventManager.tsx:29-33 | the walk-in is found iff some event carries the slug `walk-in-<date>` for today's date, and what is found is such an event from the list |
| EventSessions.OtherEvents | app/admin/EventManager.tsx:35 | the other events are exactly those without today's slug |
| EventSessions.WalkInIsFirstOfToday | app/admin/EventManager.tsx:33 | `find` returns the first event with today's slug |
| EventSessions.PartitionCounts | app/admin/EventManager.tsx:33-35 | the walk-in candidates and the other events together account for every event once |
| EventSessions.WalkInNotListedTwice | app/admin/EventManager.tsx:34-35 | the walk-in is never also shown among the other events |
| EventSessions.OtherEventsInOrder | app/admin/EventManager.tsx:35 | the other events keep their list order |
| EventSessions.SluglessEventListed | app/admin/EventManager.tsx:29-35 | the walk-in row the upload route creates (id `walk-in-<date>`, no slug) is never taken for today's walk-in and is always listed with the other events |
| EventSessions.DisplayDate | app/admin/EventManager.tsx:163 | the shown date is the longest prefix without a `T` |
| EventSessions.IsoDateShown | app/admin/EventManager.tsx:162-163 | an ISO timestamp is shown as its calendar date |

## Left out

- Rendering, React state hooks, the progress status text, the elapsed-time interval, and the preview object URLs: these are display only.
- The decoders (BarcodeDetector, jsQR on a canvas, exifr) and `JSON.parse` are parameters. What they return for a given image or text is outside the model.
- The canvas context being unavailable is the `context2d` flag of a raster; the null answers of `scanCanvas` in that case are left to the canvas parameter, and the model does not check that the two agree.
- Pixel dimensions are real numbers. IEEE-754 rounding of `width *= ratio` is not modelled, and the canvas's truncation to integers only as far as a side below one pixel becoming zero.
- `Promise.all` concurrency inside a chunk and the `setTimeout(0)` yield between chunks: a chunk's outcome is `Promise.all` over its files' settled outcomes, in file order.
- Scanner.ProcessFile: what follows a scan that waits forever or rejects (the status text stuck at PROCESSING, the elapsed-time interval never cleared, the unhandled rejection) is UI; the model stops at the outcome, which produces no groups. Of the ways a canvas call can throw, only the zero-sized `getImageData` is modelled; browser canvas size limits and a throwing jsQR are not.
- Scanner.ResolveTimestamp: an EXIF date that `new Date(...)` cannot parse (NaN) is not modelled; the EXIF value is taken as a millisecond count.
- Scanner.SortByTime: timestamps are integers, so the NaN comparisons of the original comparator do not arise.
- The random staging ids of `handleFileSelect` are given by the caller; their uniqueness is assumed only where a lemma asks for distinct ids.
- The 2-second auto-removal timer after a successful QC upload, and the `alert` when nothing is eligible: these are timers and UI.
- `uploading` (the button's busy flag) in the QC page: UI state only.
- Clock, time zone and `toLocaleDateString('en-CA', America/Chicago)`: the date string and the millisecond clock are inputs.
- SHA-1 is a function parameter: the model fixes the string that is hashed, not the hash.
- `fetch`, Cloudinary's HTTP behaviour and response fields other than those stored are the `cloud` parameter.
- Prisma failures: the database calls are assumed to succeed, and the stored event row's `date` is not modelled.
- UploadRoute.Post: the `format`, `width` and `height` copied from Cloudinary's answer are carried over but not stated in the contract.
- UploadRoute.SortKeys: keys are compared by code point, which matches JavaScript's UTF-16 order for the ASCII parameter names used here but not for arbitrary strings.
- Watcher.Utf8Ascii: JavaScript strings are UTF-16; unpaired surrogates (which `Buffer.from` replaces by U+FFFD) are not modelled, since a Dafny `char` is a Unicode scalar value.
- The watcher's `uploadFile` re-check that the file still exists, the file read, the HTTP call and its logging are I/O; the model stops at the body and its length.
- `Math.random()` in the boundary is the `randomDigits` parameter.
- The events API, registration, checkout, gallery and the other admin routes are not part of this model.
