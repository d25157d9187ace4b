# Image-resizer core, modelled in Dafny

Image-resizer is a browser application. It takes image files, re-encodes them to AVIF,
JPEG, JPEG XL, PNG or WebP at a chosen quality, shows how much each one shrank, and saves
the results, one by one or as a single zip archive. This project models the rules the
application applies around the codecs. The codecs themselves are not modelled.

- **Format tables** (`Compression`): the mime type and file extension of each format, with
  their fall-backs for an unknown format string.
- **Encoder options** (`Compression`): the per-format option shape. AVIF and JPEG XL get
  the quality divided by 100, JPEG and WebP get the quality unchanged, and PNG gets no
  options.
- **Compression** (`Compression`): decode, encode, then wrap the bytes with their size, the
  saved percentage and the mime type. Every failure is passed on.
- **Download naming and export** (`Download`): the file name rule, the single-image save,
  and download-all. Download-all does nothing for zero items, saves one item directly, and
  for several items fills an archive one entry at a time (the `Zip` class) and saves it as
  `compressed_images.zip`.
- **Processor state** (`ImageProcessor`): the list held by the top-level component (the
  `Processor` class), its default settings, and its three updates: append new files, mark
  every item processed, and remove by identifier.
- **Image list view** (`ImageList`): the ids handed to auto-processing, the items offered
  for download, the smaller/larger label, and the `isDownloadingAll` flag that keeps a
  second download-all from starting (the `ListView` class).
- **Data types** (`Types`): output types, statuses and the image record with its optional
  fields.

The decoder, the five encoders and the archive generator are function parameters. Saves
are recorded as `SaveEvent` values rather than performed. Identifiers from
`crypto.randomUUID` and preview URLs from `URL.createObjectURL` are method parameters.

Behaviour of the code worth noting:

- File extensions and download names disagree. `getFileExtension` gives "jpg" for JPEG.
  Download names use the item's `outputType`, which is "jpeg" (`ExtensionMatchesOutputType`).
- An archive with one entry per item exists only when the export names are distinct.
  `zip.file` replaces an entry of the same name, so "a.png" and "a.jpg" exported as WebP
  leave a single entry (`NameCollisionKeepsLast`).
- The ratio is not always negative when the output is larger. `Math.round(-0.1)` is 0, so
  the ratio is negative exactly when `200 * (c - o) > o` (`CalculateCompressionRatio`).
- A download-all error is caught and logged by the list view
  (`ImageList.ListView.HandleDownloadAll`). `downloadAllImages` itself passes it on.
- A zero original size is not excluded. The ratio then takes the JavaScript values `NaN`
  (`0 / 0`) and `-Infinity`, both modelled.
- Colliding export names keep the later item's blob (`EntriesHoldLastBlob`).

## Model

| member | source | states |
|---|---|---|
| Types.OutputTypeName | src/types.ts:1 | each output type's tag is one of the five lower-case names, 3 or 4 letters long |
| Types.OutputTypeNamesAreExact | src/types.ts:1 | distinct output types have distinct tags, and the tags are exactly avif, jpeg, jxl, png and webp |
| Types.StatusName | src/types.ts:3 | each status's tag is one of the five lower-case status names |
| Types.StatusNamesAreExact | src/types.ts:3 | distinct statuses have distinct tags, and the tags are exactly pending, queued, processing, complete and error |
| ImageProcessor.FormatTag | src/components/image-processor.tsx:16 | each format's string value is one of the five upper-case tags |
| ImageProcessor.FormatsListEachOnce | src/components/format-selector.tsx:9 | the selector's list holds every format exactly once |
| ImageProcessor.NewImages | src/components/image-processor.tsx:24-29 | one record per added file, in input order, carrying that file, its id and preview, unprocessed and without error |
| ImageProcessor.MarkAllProcessed | src/components/image-processor.tsx:35-40 | marking keeps length, ids, files, previews and errors, and sets every record processed |
| ImageProcessor.MarkAllProcessedIdempotent | src/components/image-processor.tsx:35-40 | marking twice is marking once, and the identifiers stay in order |
| ImageProcessor.IdIsNot | src/components/image-processor.tsx:45 | the removal test keeps a record exactly when its id differs from the removed one |
| ImageProcessor.RemoveById | src/components/image-processor.tsx:44-46 | the kept records are exactly those whose id differs; the list does not grow |
| ImageProcessor.RemoveAbsentId | src/components/image-processor.tsx:44-46 | removing an id no record carries leaves the list unchanged |
| ImageProcessor.RemovePresentId | src/components/image-processor.tsx:44-46 | with unique ids, removing record k's id gives the list without position k, others in order |
| ImageProcessor.RemoveKeepsUniqueIds | src/components/image-processor.tsx:44-46 | removal keeps ids unique |
| ImageProcessor.AppendKeepsUniqueIds | src/components/image-processor.tsx:24-31 | appending records with fresh, distinct ids keeps ids unique |
| ImageProcessor.RemoveCommutesWithMark | src/components/image-processor.tsx:34-46 | a removal before or after the delayed completion step gives the same list |
| ImageProcessor.Processor.constructor | src/components/image-processor.tsx:19-21 | initial state: no images, format AVIF, quality 50, and unique ids |
| ImageProcessor.Processor.HandleFilesAdded | src/components/image-processor.tsx:23-31 | the new list is the old list followed by the new records; old items unchanged, one item per file, settings kept; fresh ids keep ids unique |
| ImageProcessor.Processor.CompleteSimulatedProcessing | src/components/image-processor.tsx:33-41 | every record, old or new, becomes processed; length and ids kept; settings kept; unique ids stay unique |
| ImageProcessor.Processor.HandleRemoveImage | src/components/image-processor.tsx:44-46 | the new list is the removal of the old one: exactly the records without that id remain; with unique ids, exactly the record at that id's position is dropped and ids stay unique |
| Compression.ParseFormat | src/lib/compression.ts:38-51 | a string names a format exactly when it equals that format's tag; every other string is unknown |
| Compression.ParseFormatTag | src/lib/compression.ts:38-51 | parsing a format's tag gives back that format |
| Compression.GetMimeType | src/lib/compression.ts:37-52 | every mime type starts with "image/"; an unknown string gets "image/jpeg" |
| Compression.MimeTypeTable | src/lib/compression.ts:37-52 | the five mime types as listed, distinct per format, JPEG's for an unknown string |
| Compression.GetFileExtension | src/lib/compression.ts:121-130 | every extension is 3 or 4 lower-case letters; an unknown string gets "jpg" |
| Compression.ExtensionTable | src/lib/compression.ts:121-130 | the five extensions as listed (JPEG gives "jpg"), distinct per format, JPEG's for an unknown string |
| Compression.MimeTypeIsImageSlashExtension | src/lib/compression.ts:37-52 | the mime type is "image/" plus the extension for every format except JPEG |
| Compression.OutputTypeOf | src/types.ts:1 | the output type paired with a format has the lower-cased format tag as its name |
| Compression.ExtensionMatchesOutputType | src/lib/compression.ts:124 | the extension equals the output type's tag for every format except JPEG ("jpg" against "jpeg") |
| Compression.EncoderOptions | src/lib/compression.ts:65-85 | PNG alone gets no options; AVIF and JXL get a quality q with q * 100 equal to the input; JPEG and WEBP get it unchanged |
| Compression.FractionalQuality | src/lib/compression.ts:66-84 | a quality in 1..100 becomes 0.01..1 for AVIF and JXL; 50 becomes 0.5; PNG's options do not depend on quality |
| Compression.RoundHalfUp | src/lib/compression.ts:106 | the rounding is the integer within half of x, with halves going up |
| Compression.CalculateCompressionRatio | src/lib/compression.ts:105-107 | for o > 0 a whole percentage equal to (200(o-c)+o) div 2o, at most 100, 100 for c = 0, 0 for c = o, at least 0 when smaller, at most 0 when larger, negative exactly when 200(c-o) > o; for o = 0, NaN when c = 0 and -Infinity otherwise |
| Compression.CompressImage | src/lib/compression.ts:55-102 | decode errors, unknown formats and encode errors are each returned; on success the blob holds the encoded bytes, size equals their length, mimeType and the blob type equal GetMimeType(format), and the ratio is computed from the file size and that size |
| Compression.PngIgnoresQuality | src/lib/compression.ts:78-80 | the PNG result does not depend on the requested quality |
| Download.BaseName | src/utils/download.ts:8 | the base name is a prefix of the name without a dot, followed in the name by a dot when shorter |
| Download.BaseNameUnique | src/utils/download.ts:8 | those three properties determine the base name |
| Download.ExtensionText | src/utils/download.ts:9-10 | the extension is the output type's tag, or "undefined" when no type is recorded |
| Download.ExportName | src/utils/download.ts:8-10 | the saved name is the base name, a dot, then the extension text |
| Download.ExportNameExamples | src/utils/download.ts:8-10 | "a.b.png" and "a.png" as webp give "a.webp"; "photo" as png gives "photo.png" |
| Download.DownloadImage | src/utils/download.ts:5-11 | no save without a blob; otherwise exactly one save of the blob under the export name |
| Types.IsExportable | src/utils/download.ts:14 | an item is exportable exactly when its status tag is "complete" and it holds a blob |
| Download.ExportableImages | src/utils/download.ts:14 | exactly the items that are complete and hold a blob; never more than the input |
| Download.ExportableConcat | src/utils/download.ts:14 | selection distributes over concatenation, so list order is kept |
| Download.PutEntry | src/utils/download.ts:32 | adding a file keeps the count when the name exists and adds one when it is new |
| Download.PutEntryNames | src/utils/download.ts:32 | after adding, the names are the old names plus the added one |
| Download.PutEntryAppendsNew | src/utils/download.ts:32 | a file with a new name is appended at the end |
| Download.PutEntryContents | src/utils/download.ts:32 | the added file is present, files of other names survive, nothing else appears, and names stay unique |
| Download.Zip.File | src/utils/download.ts:32 | the archive's entries become those with the file added, a same-named entry replaced |
| Download.Zip.constructor | src/utils/download.ts:25 | a new archive is empty |
| Download.ArchiveEntries | src/utils/download.ts:27-33 | the archive has unique names and no more entries than items |
| Download.ItemNamesMembership | src/utils/download.ts:27-33 | a name is an item name exactly when some item with a blob is exported under it |
| Download.ArchiveNames | src/utils/download.ts:27-33 | the archive's names are exactly the export names of the items with a blob |
| Download.OneEntryPerItem | src/utils/download.ts:27-33 | with distinct export names, entry k is item k's export name and blob, one entry per item |
| Download.NameCollisionKeepsLast | src/utils/download.ts:30-32 | any two items with blobs exported under the same name leave one entry, holding the later blob |
| Download.EntriesHoldLastBlob | src/utils/download.ts:27-33 | for any item list, every entry holds the blob of the last item with a blob exported under that entry's name |
| Download.DownloadAllSpec | src/utils/download.ts:13-38 | no save exactly when nothing is exportable; one item gives the single-image save; several give one archive saved as compressed_images.zip, or the generator's error |
| Download.DownloadAllImages | src/utils/download.ts:13-38 | the loop that fills the archive item by item produces exactly the outcome DownloadAllSpec describes |
| ImageList.PendingIds | src/components/ImageList.tsx:28-30 | every pending item's id is included, and only ids of pending items |
| ImageList.PendingIdsConcat | src/components/ImageList.tsx:28-30 | the pending ids of a concatenation are those of each part, in list order |
| ImageList.AutoProcessCall | src/components/ImageList.tsx:25-36 | the handler is called exactly when it is present and some item is pending, and it gets the non-empty pending ids |
| ImageList.HasCompletedImages | src/components/ImageList.tsx:40-41 | true exactly when some item is complete and holds a blob |
| ImageList.ItemDownloadMatchesExport | src/components/ImageList.tsx:99-101 | an item offers its own download exactly when download-all would export it; using it saves its blob under its export name |
| ImageList.SizeLabel | src/components/ImageList.tsx:154 | "smaller" exactly when the compressed size is below the original, otherwise "larger" |
| ImageList.SizeSummary | src/components/ImageList.tsx:147-154 | shown exactly when a nonzero compressed size is recorded, with the ratio and the label of that size |
| ImageList.LabelAgreesWithRatio | src/components/ImageList.tsx:151-154 | "smaller" always comes with a percentage of at least 0, and "larger" with one of at most 0, or NaN or -Infinity |
| ImageList.ListView.constructor | src/components/ImageList.tsx:22 | the flag starts lowered, with no saves and no logged errors |
| ImageList.ListView.BeginDownloadAll | src/components/ImageList.tsx:44-46 | it starts exactly when something is complete and no download-all is running, and then raises the flag |
| ImageList.ListView.FinishDownloadAll | src/components/ImageList.tsx:47-53 | the saves are recorded, or the error is logged instead of passed on; the flag is lowered either way |
| ImageList.ListView.HandleDownloadAll | src/components/ImageList.tsx:43-54 | a call with nothing complete, or while one runs, changes nothing; a started one ends with the flag lowered and exactly one save or one logged error matching DownloadAllSpec |

## Left out

- Decoding (`fileToImageData`, `imageDataToUint8Array`) uses the browser's bitmap and canvas. It is the `Decoder` parameter, which may fail.
- The `@jsquash` encoders are foreign libraries. They are the `Encoder` parameter, which may fail.
- `JSZip.generateAsync` is the `ArchiveGenerator` parameter. Archive bytes and compression are not modelled.
- `saveAs` is a recorded `SaveEvent`. The browser download it starts is not modelled.
- `formatFileSize` is floating-point text formatting (`Math.log`, `Math.pow`, `toFixed`). It is not modelled.
- `console.log` and `console.error` are not modelled. The error handed to `console.error` is kept in `ListView.errorLog`.
- `crypto.randomUUID` and `URL.createObjectURL` become parameters of `HandleFilesAdded`. `AppendKeepsUniqueIds` states the uniqueness the ids are assumed to have.
- The 1500 ms `setTimeout` delay is not modelled. Its callback is the separate method `CompleteSimulatedProcessing`.
- Preview URLs are opaque strings. The source does not revoke them on removal, and the model does not either.
- The top-level `handleDownloadAll` only shows an alert. It is not modelled.
- JSX rendering, event wiring, and the format and quality setters are not modelled, nor are the other UI components.
- React's asynchronous state updates, re-renders and effect timing are not modelled. Each handler is one atomic step, and `isDownloadingAll` is read as current, not as a stale closure value.
- A second download-all cannot overlap a running one in the model: the wait on `downloadAllImages` is one step, so the flag guard is shown only across calls.
- `ParseFormat` stands for the `switch` on the format string. The format selector only ever supplies the five tags, but the model accepts any string.
- Compression.CalculateCompressionRatio: computed on exact rationals. Floating-point rounding of `(o - c) / o * 100`, which can move a value that sits exactly on a half, and the `-0` that `Math.round` gives for values in [-0.5, 0), are not modelled.
- Types.CompressionOptions: declared as a datatype only. The source never reads it.
- `ImageFile.originalSize` and `compressedSize` are naturals, not JavaScript numbers. A fractional or negative size cannot occur.
- ImageList.SizeSummary: a recorded compressed size of 0 gives `None`. The source's `0 && …` then renders the digit 0, which is not modelled.
- Codec availability tracking, load timeouts, fallback format selection and a batch loop appear in no source file. They are not modelled.
