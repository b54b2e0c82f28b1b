# PDF segmentation service: a Dafny model

The system is a Spring Boot application. Its REST API takes an uploaded PDF and a number of cuts. It reads the vertical position of every glyph in the document, ranks the gaps between consecutive distinct positions and picks the largest ones as cut positions. It then writes one single-page PDF per cut position, returns them in a zip archive, and keeps metadata about the segmented file in memory. Further endpoints read, change and delete that metadata.

The model covers two classes:

- `PdfSegmentationService`: the cut selection, the splitting, the validation in `segmentPdf` and the metadata store.
- `PdfController`: the upload checks, the processing block, and the GET/PUT/PATCH/DELETE endpoints over the controller's own store.

Modules:

- `Outcomes`: the Java exceptions the core throws, plus `Result`, `Outcome` and `Option` (`Option` stands for a reference that may be null).
- `Ordering`: sorted and distinct sequences. `SortedDistinct` models `stream().distinct().sorted()`.
- `GapRanking`: the ranking loop of `findCutPositions` as pure functions. `State(g, n)` is the gap list after `n` rounds. `Picks(g, n)` is the list of positions recorded in those rounds.
- `CutSelection`: `findCutPositions` as a method with loops, proved against the function `CutPositions`, together with the properties of `CutPositions`.
- `SegmentNaming`: segment file names (`String.replace` of ".pdf" by "_segment_" + (i + 1) + ".pdf").
- `Partition`: the loop of `splitPdf`.
- `SegmentationService`: `segmentPdf` and the metadata store.
  - The store is a class whose map holds `PdfMetadata` objects, and the update operations change those objects in place.
  - Every method is proved to move the store's value view (`View()`) exactly as a pure transition function says.
  - Lemmas state what those transitions do.
- `Controller`: the upload endpoint and the metadata endpoints, modelled the same way. A response is a status code and a body.

Glyph positions are integers in the model, so `Math.round` is the identity. The model never looks inside a page: every datatype and function that holds pages takes their type as a type parameter `P`.

### Behaviour of the code worth knowing

- **The lower end of a gap is reported.** A cut position is `Math.round(sortedYPositions.get(index))`, where `index` is the position of the gap in the gap list. That is the smaller of the two positions around the gap.
  - Positions 10, 10, 50, 51, 200 with 2 cuts give [10, 51] (`CutSelection.ExampleTwoCuts`).
- **Asking for more cuts than there are gaps repeats the smallest position.** Each round overwrites the chosen gap with 0. Once every gap is 0, the largest gap is at index 0, so index 0 is chosen in every later round.
  - Positions 1, 2 with 5 cuts give [1, 1, 1, 1, 1] (`CutSelection.ExampleOverRequest`).
  - The general statement is `CutSelection.OverRequest`.
- **Fewer than two distinct positions is an error.** There is then no gap, and `Collections.max` on the empty list throws `NoSuchElementException`. `segmentPdf` lets it escape (`CutSelection.ExampleSinglePosition`, `CutSelection.CutPositionsFailure`).
- **A file name without ".pdf" cannot be cut more than once.** Every segment of such a file gets the original name. With two or more cuts, the second `putNextEntry` of that name throws a `ZipException` ("duplicate entry: " and the name), and the upload is answered with 500. The metadata has already been stored by then (`Controller.ArchiveErrors`, `Controller.PdfController.SegmentPdf`).

## Model

| member | source | states |
|---|---|---|
| Ordering.SortedDistinct | src/main/java/com/pdfprocessor/pdf_segmentation/service/PdfSegmentationService.java:88 | the distinct, sorted positions: strictly increasing and holding exactly the values of the input |
| Ordering.Sort | src/main/java/com/pdfprocessor/pdf_segmentation/service/PdfSegmentationService.java:99 | `sorted()`: the result is in ascending order and is a permutation of its input |
| Ordering.Dedup | src/main/java/com/pdfprocessor/pdf_segmentation/service/PdfSegmentationService.java:88 | `distinct()`: no value twice, and exactly the values of the input |
| Ordering.SortedUnique | src/main/java/com/pdfprocessor/pdf_segmentation/service/PdfSegmentationService.java:99 | two sorted sequences with the same multiset are equal, so the sorted list is determined by its elements |
| Ordering.StrictlySortedUnique | src/main/java/com/pdfprocessor/pdf_segmentation/service/PdfSegmentationService.java:88 | two strictly increasing sequences with the same values are equal |
| Ordering.SortDistinct | src/main/java/com/pdfprocessor/pdf_segmentation/service/PdfSegmentationService.java:99 | sorting values that are pairwise different gives a strictly increasing list |
| GapRanking.MaxOf | src/main/java/com/pdfprocessor/pdf_segmentation/service/PdfSegmentationService.java:95 | `Collections.max`: an element of the list that no element exceeds |
| GapRanking.IndexOf | src/main/java/com/pdfprocessor/pdf_segmentation/service/PdfSegmentationService.java:96 | `indexOf`: a position holding the value, with no earlier occurrence |
| GapRanking.Pick | src/main/java/com/pdfprocessor/pdf_segmentation/service/PdfSegmentationService.java:95-96 | the position recorded in one round: its gap is the largest, and every earlier gap is strictly smaller |
| GapRanking.State | src/main/java/com/pdfprocessor/pdf_segmentation/service/PdfSegmentationService.java:94-98 | the gap list after `n` rounds keeps its length |
| GapRanking.Picks | src/main/java/com/pdfprocessor/pdf_segmentation/service/PdfSegmentationService.java:94-98 | `n` rounds record `n` positions, each a valid gap index |
| GapRanking.PicksPrefix | src/main/java/com/pdfprocessor/pdf_segmentation/service/PdfSegmentationService.java:94-98 | the first `t` rounds record the same positions whatever the total number of rounds |
| GapRanking.StateZeroesPicks | src/main/java/com/pdfprocessor/pdf_segmentation/service/PdfSegmentationService.java:97 | after `n` rounds, exactly the recorded positions hold 0 and the others keep their original gap |
| GapRanking.ExhaustedState | src/main/java/com/pdfprocessor/pdf_segmentation/service/PdfSegmentationService.java:95-97 | once there have been as many rounds as positive gaps, every gap is 0 and the next round records index 0 |
| GapRanking.PicksRankGaps | src/main/java/com/pdfprocessor/pdf_segmentation/service/PdfSegmentationService.java:94-98 | for positive gaps, every round before the gaps run out records a new position whose gap is at least every unrecorded gap and strictly above every unrecorded gap before it; every later round records 0 |
| GapRanking.PicksNonIncreasing | src/main/java/com/pdfprocessor/pdf_segmentation/service/PdfSegmentationService.java:94-98 | the gaps are recorded in non-increasing size, and ties are broken by ascending position |
| GapRanking.PicksCoverAll | src/main/java/com/pdfprocessor/pdf_segmentation/service/PdfSegmentationService.java:94-98 | with at least as many rounds as gaps, the rounds before the gaps run out record every gap |
| CutSelection.Gaps | src/main/java/com/pdfprocessor/pdf_segmentation/service/PdfSegmentationService.java:89-92 | one gap fewer than there are positions; the gaps of strictly increasing positions are all positive |
| CutSelection.ComputeGaps | src/main/java/com/pdfprocessor/pdf_segmentation/service/PdfSegmentationService.java:89-92 | the first loop computes `Gaps(sorted)` |
| CutSelection.SelectLargestGaps | src/main/java/com/pdfprocessor/pdf_segmentation/service/PdfSegmentationService.java:93-98 | the second loop: no rounds for `cuts <= 0`, `NoSuchElementException` when there is no gap, and otherwise `Picks(gaps, cuts)` |
| CutSelection.CutPositions | src/main/java/com/pdfprocessor/pdf_segmentation/service/PdfSegmentationService.java:87-100 | what `findCutPositions` returns: a failure only for a positive count, and then `NoSuchElementException`; on success an ascending list of exactly `cuts` positions (none for `cuts <= 0`) |
| CutSelection.LowerEndpoints | src/main/java/com/pdfprocessor/pdf_segmentation/service/PdfSegmentationService.java:99 | one position per recorded gap index: the sorted position at that index, which is the lower end of the gap |
| CutSelection.FindCutPositions | src/main/java/com/pdfprocessor/pdf_segmentation/service/PdfSegmentationService.java:87-100 | `findCutPositions` computes `CutPositions(ys, cuts)` |
| CutSelection.TwoDistinctValues | src/main/java/com/pdfprocessor/pdf_segmentation/service/PdfSegmentationService.java:88-92 | there is a gap exactly when the input holds two different positions |
| CutSelection.CutPositionsFailure | src/main/java/com/pdfprocessor/pdf_segmentation/service/PdfSegmentationService.java:94-95 | the selection fails exactly for a positive `cuts` with fewer than two distinct positions, and then with `NoSuchElementException` |
| CutSelection.CutPositionsShape | src/main/java/com/pdfprocessor/pdf_segmentation/service/PdfSegmentationService.java:87-100 | on success there are exactly `cuts` positions (none for `cuts <= 0`), in ascending order, each an input position below the largest one |
| CutSelection.CutPositionsDependOnValuesOnly | src/main/java/com/pdfprocessor/pdf_segmentation/service/PdfSegmentationService.java:88 | input order and repetitions do not change the result |
| CutSelection.CutPositionsDistinctIff | src/main/java/com/pdfprocessor/pdf_segmentation/service/PdfSegmentationService.java:94-99 | with two distinct positions, the result is strictly increasing if and only if `cuts` is at most the number of gaps |
| CutSelection.SortedOverRequest | src/main/java/com/pdfprocessor/pdf_segmentation/service/PdfSegmentationService.java:94-99 | with at least as many rounds as gaps, the sorted lower ends are copies of the smallest position followed by the remaining lower ends |
| CutSelection.OverRequest | src/main/java/com/pdfprocessor/pdf_segmentation/service/PdfSegmentationService.java:94-99 | asking for at least as many cuts as gaps gives `cuts - gaps + 1` copies of the smallest position, then every other lower end in order |
| CutSelection.ExampleTwoCuts | src/main/java/com/pdfprocessor/pdf_segmentation/service/PdfSegmentationService.java:87-100 | positions 10, 10, 50, 51, 200 with 2 cuts give [10, 51] |
| CutSelection.ExampleRanking | src/main/java/com/pdfprocessor/pdf_segmentation/service/PdfSegmentationService.java:94-98 | gaps 40, 1, 149 ranked twice record positions 2 and 0 |
| CutSelection.ExampleOverRequest | src/main/java/com/pdfprocessor/pdf_segmentation/service/PdfSegmentationService.java:87-100 | positions 1, 2 with 5 cuts give [1, 1, 1, 1, 1] |
| CutSelection.ExampleSinglePosition | src/main/java/com/pdfprocessor/pdf_segmentation/service/PdfSegmentationService.java:95 | a single position with one cut fails with `NoSuchElementException` |
| SegmentNaming.ReplaceAll | src/main/java/com/pdfprocessor/pdf_segmentation/service/PdfSegmentationService.java:107 | `String.replace`: every non-overlapping occurrence of the pattern, scanning from the left, is replaced; its properties are `ReplaceAbsent`, `ReplaceDistinguishes` and `ReplaceAfterStem` |
| SegmentNaming.SegmentName | src/main/java/com/pdfprocessor/pdf_segmentation/service/PdfSegmentationService.java:107 | the name of segment i: every ".pdf" of the original name replaced by "_segment_" + (i + 1) + ".pdf"; its properties are `SegmentNamesDistinct`, `SegmentNameWithoutSuffix` and `SegmentNameOfPdf` |
| SegmentNaming.DecimalString | src/main/java/com/pdfprocessor/pdf_segmentation/service/PdfSegmentationService.java:107 | `"" + (i + 1)`: a non-empty string of decimal digits |
| SegmentNaming.DecimalRoundTrip | src/main/java/com/pdfprocessor/pdf_segmentation/service/PdfSegmentationService.java:107 | parsing the decimal rendering gives back the number |
| SegmentNaming.DecimalInjective | src/main/java/com/pdfprocessor/pdf_segmentation/service/PdfSegmentationService.java:107 | different numbers are rendered differently |
| SegmentNaming.ReplaceAbsent | src/main/java/com/pdfprocessor/pdf_segmentation/service/PdfSegmentationService.java:107 | `replace` leaves a string without the pattern unchanged |
| SegmentNaming.ReplaceDistinguishes | src/main/java/com/pdfprocessor/pdf_segmentation/service/PdfSegmentationService.java:107 | when the pattern occurs, two replacement texts that differ at some shared position give different results |
| SegmentNaming.SegmentNameWithoutSuffix | src/main/java/com/pdfprocessor/pdf_segmentation/service/PdfSegmentationService.java:107 | a name without ".pdf" is given unchanged to every segment |
| SegmentNaming.SegmentNamesDistinct | src/main/java/com/pdfprocessor/pdf_segmentation/service/PdfSegmentationService.java:107 | a name containing ".pdf" gives different segments different names |
| SegmentNaming.ReplaceAfterStem | src/main/java/com/pdfprocessor/pdf_segmentation/service/PdfSegmentationService.java:107 | in a stem without '.' followed by ".pdf", only the final ".pdf" is replaced |
| SegmentNaming.SegmentNameOfPdf | src/main/java/com/pdfprocessor/pdf_segmentation/service/PdfSegmentationService.java:107 | "stem.pdf" gives "stem_segment_<i+1>.pdf" |
| SegmentNaming.ExampleSegmentName | src/main/java/com/pdfprocessor/pdf_segmentation/service/PdfSegmentationService.java:107 | the first segment of "report.pdf" is "report_segment_1.pdf" |
| Partition.Segments | src/main/java/com/pdfprocessor/pdf_segmentation/service/PdfSegmentationService.java:104-110 | the files `splitPdf` writes for `count` cut positions: file i holds page i under segment name i; its properties are `SplitPdf` and `SegmentFileNames` |
| Partition.SplitPdf | src/main/java/com/pdfprocessor/pdf_segmentation/service/PdfSegmentationService.java:102-114 | succeeds exactly when there are no more cut positions than pages, and then gives one file per cut position (file i holds page i under segment name i); otherwise it fails with `IndexOutOfBoundsException` at the page count |
| Partition.SegmentFileNames | src/main/java/com/pdfprocessor/pdf_segmentation/service/PdfSegmentationService.java:104-110 | segment names are pairwise different when the original name contains ".pdf", and all equal to the original name otherwise |
| SegmentationService.UsableFile | src/main/java/com/pdfprocessor/pdf_segmentation/service/PdfSegmentationService.java:22 | the file reference is non-null, the file exists and it is a regular file |
| SegmentationService.Segmentation | src/main/java/com/pdfprocessor/pdf_segmentation/service/PdfSegmentationService.java:20-39 | what `segmentPdf` returns or throws. A success has a usable file and one segment per cut; a checked exception comes only from an unusable file or an unreadable document |
| SegmentationService.SegmentationCheckOrder | src/main/java/com/pdfprocessor/pdf_segmentation/service/PdfSegmentationService.java:20-29 | an unusable file is reported first whatever the cuts; a non-positive count is reported next, whatever the document holds |
| SegmentationService.SegmentationSucceeds | src/main/java/com/pdfprocessor/pdf_segmentation/service/PdfSegmentationService.java:20-47 | success if and only if: the file is usable, the count is positive, the document is readable, it has two distinct glyph positions, and it has at least `cuts` pages. A success yields exactly `cuts` segments, and segment i holds page i under segment name i |
| SegmentationService.SegmentationFailures | src/main/java/com/pdfprocessor/pdf_segmentation/service/PdfSegmentationService.java:20-47 | an IOException comes exactly from an unusable file or an unreadable document; other failures are `NoSuchElementException` (fewer than two positions) or `IndexOutOfBoundsException` (too few pages) |
| SegmentationService.SegmentFiles | src/main/java/com/pdfprocessor/pdf_segmentation/service/PdfSegmentationService.java:20-40 | the checks, reading, cut selection and splitting compute `Segmentation(file, cuts)` |
| SegmentationService.Store | src/main/java/com/pdfprocessor/pdf_segmentation/service/PdfSegmentationService.java:42-44 | `put`: the record for the id replaces any earlier one, and every other entry is kept |
| SegmentationService.SetCutsTransition | src/main/java/com/pdfprocessor/pdf_segmentation/service/PdfSegmentationService.java:56-79 | the store change of `updateSegmentation` and `modifySegmentation`: a non-positive count is rejected first, then an unknown id; otherwise that entry's cuts are set. Its properties are `SetCutsEffect`, `SetCutsIdempotent` and `SetCutsKeepsIds` |
| SegmentationService.SetCutsEffect | src/main/java/com/pdfprocessor/pdf_segmentation/service/PdfSegmentationService.java:56-79 | an update fails exactly for a non-positive count (checked first) or an unknown id, each with `IllegalArgumentException` and its own message, and then changes nothing. Otherwise only that entry's cuts change; its id, its segment count and every other entry are kept |
| SegmentationService.SetCutsIdempotent | src/main/java/com/pdfprocessor/pdf_segmentation/service/PdfSegmentationService.java:56-66 | setting the same count twice is the same as setting it once |
| SegmentationService.SetCutsKeepsIds | src/main/java/com/pdfprocessor/pdf_segmentation/service/PdfSegmentationService.java:56-66 | every record stays stored under its own id |
| SegmentationService.Delete | src/main/java/com/pdfprocessor/pdf_segmentation/service/PdfSegmentationService.java:82-84 | `remove`: the id is gone, the other entries are kept, and an unknown id changes nothing |
| SegmentationService.PdfMetadata.constructor | src/main/java/com/pdfprocessor/pdf_segmentation/service/PdfSegmentationService.java:143-147 | the three fields hold the given values |
| SegmentationService.PdfMetadata.SetCuts | src/main/java/com/pdfprocessor/pdf_segmentation/service/PdfSegmentationService.java:161-163 | the cuts take the new value; the id and the segment count cannot change |
| SegmentationService.PdfSegmentationService.constructor | src/main/java/com/pdfprocessor/pdf_segmentation/service/PdfSegmentationService.java:18 | the store starts empty |
| SegmentationService.PdfSegmentationService.SegmentPdf | src/main/java/com/pdfprocessor/pdf_segmentation/service/PdfSegmentationService.java:20-48 | returns or throws what `Segmentation` says. On success a fresh record under the file name holds the segment count and the cuts; on failure the store is unchanged |
| SegmentationService.PdfSegmentationService.StoreMetadata | src/main/java/com/pdfprocessor/pdf_segmentation/service/PdfSegmentationService.java:42-44 | a fresh object is stored under the id, and the value view moves as `Store` says |
| SegmentationService.PdfSegmentationService.GetPdfMetadata | src/main/java/com/pdfprocessor/pdf_segmentation/service/PdfSegmentationService.java:51-53 | the stored object, or null for an unknown id |
| SegmentationService.PdfSegmentationService.UpdateSegmentation | src/main/java/com/pdfprocessor/pdf_segmentation/service/PdfSegmentationService.java:56-66 | the outcome and the new view are those of `SetCutsTransition`; the map itself is unchanged and the object is updated in place |
| SegmentationService.PdfSegmentationService.ModifySegmentation | src/main/java/com/pdfprocessor/pdf_segmentation/service/PdfSegmentationService.java:69-79 | the same outcome and change as `updateSegmentation` |
| SegmentationService.PdfSegmentationService.DeletePdf | src/main/java/com/pdfprocessor/pdf_segmentation/service/PdfSegmentationService.java:82-84 | the entry for the id is removed and every other entry is kept |
| Controller.UploadRejection | src/main/java/com/pdfprocessor/pdf_segmentation/controller/PdfController.java:49-64 | the 400 message of the first failing request check (type, then size, then cuts), or none; its properties are `UploadValidation` |
| Controller.UploadedFile | src/main/java/com/pdfprocessor/pdf_segmentation/controller/PdfController.java:169-173 | the file `convertMultipartFileToFile` hands to the service: non-null, named as the original file, holding the upload's content; it passes the service's `exists()`/`isFile()` check exactly when the copy is found there (`copiedFileFound`) |
| Controller.UploadValidation | src/main/java/com/pdfprocessor/pdf_segmentation/controller/PdfController.java:34-64 | a request passes exactly when it is "application/pdf", at most 10485760 bytes, and has a positive cut count. The type is checked first, then the size |
| Controller.EntryNames | src/main/java/com/pdfprocessor/pdf_segmentation/controller/PdfController.java:180-183 | one archive entry per segment, named as the segment file |
| Controller.DuplicateEntry | src/main/java/com/pdfprocessor/pdf_segmentation/controller/PdfController.java:180-187 | the first entry name that `putNextEntry` refuses because it was put before, if any; a refused name is always one of the entries |
| Controller.DuplicateEntryIff | src/main/java/com/pdfprocessor/pdf_segmentation/controller/PdfController.java:180-187 | no name is refused exactly when the names are pairwise different and none was put before |
| Controller.Zip | src/main/java/com/pdfprocessor/pdf_segmentation/controller/PdfController.java:176-192 | `createZipFromFiles`: a failure is always an IOException, either a duplicate entry or a segment that cannot be read |
| Controller.ZipEntries | src/main/java/com/pdfprocessor/pdf_segmentation/controller/PdfController.java:176-192 | the archive is built exactly when the entry names are pairwise different and the segments can be read, and it then lists every segment's name in order |
| Controller.CreateZipFromFiles | src/main/java/com/pdfprocessor/pdf_segmentation/controller/PdfController.java:176-192 | the loop over the segments computes `Zip` |
| Controller.SegmentEntriesDistinct | src/main/java/com/pdfprocessor/pdf_segmentation/controller/PdfController.java:180-187 | the segment names of one file are pairwise different exactly when its name contains ".pdf" or there is at most one segment; otherwise the original name is the entry refused |
| Controller.SegmentsArchive | src/main/java/com/pdfprocessor/pdf_segmentation/controller/PdfController.java:79-91 | the archive reply for the segments of a file: 500 with "duplicate entry: " and the name when the name lacks ".pdf" and there are several segments, else 500 when a segment cannot be read, else 201 with the segment names |
| Controller.UploadReply | src/main/java/com/pdfprocessor/pdf_segmentation/controller/PdfController.java:44-92 | the response of `segmentPdf`, or the exception that escapes it: 400 only with a check's message, 500 for a failed copy, a copy not found, an unreadable document or a failed archive, 201 only with an archive; its properties are `UploadCreated`, `UploadErrors` and `ArchiveErrors` |
| Controller.ProcessingReply | src/main/java/com/pdfprocessor/pdf_segmentation/controller/PdfController.java:66-91 | the processing block: 500 when the copy fails, the service's failure as `ErrorReply` says (500 "Invalid PDF file." for a copy it does not find), otherwise the archive reply |
| Controller.ErrorReply | src/main/java/com/pdfprocessor/pdf_segmentation/controller/PdfController.java:88-91 | the `catch (IOException e)`: an IOException becomes 500 with "Error processing PDF file: " and its message; every other exception escapes unchanged |
| Controller.ArchiveReply | src/main/java/com/pdfprocessor/pdf_segmentation/controller/PdfController.java:79-91 | the zip step and its reply: 201 with the archive "segmented_pdfs.zip" listing the segment names when `Zip` builds it, otherwise 500 with "Error processing PDF file: " and the failure's message |
| Controller.ProcessingSteps | src/main/java/com/pdfprocessor/pdf_segmentation/controller/PdfController.java:66-91 | a proof step, not a separate behaviour: once the upload is copied, `ProcessingReply` unfolds to `ErrorReply` of the service's failure or `ArchiveReply` of its segments |
| Controller.SegmentedFiles | src/main/java/com/pdfprocessor/pdf_segmentation/controller/PdfController.java:71 | once the service segments the upload, the copy was found, the document is readable, the cut count is positive and at most the page count, and the segments are as `Segments` gives |
| Controller.SegmentedReply | src/main/java/com/pdfprocessor/pdf_segmentation/controller/PdfController.java:66-91 | a proof step, not a separate behaviour: once the service segments the upload, `UploadReply` unfolds to `ArchiveReply` of its segments |
| Controller.UploadCreated | src/main/java/com/pdfprocessor/pdf_segmentation/controller/PdfController.java:66-87 | 201 comes exactly when the request passes, the upload is copied, the service finds the copy, the document segments, the segment names are pairwise different (the name contains ".pdf" or there is one cut), and every segment can be read. The archive then holds one entry per cut, named `SegmentName(originalFilename, i)` |
| Controller.UploadErrors | src/main/java/com/pdfprocessor/pdf_segmentation/controller/PdfController.java:49-91 | 400 carries the first failing check's message; a failed copy, a copy the service does not find ("Invalid PDF file.") or an unreadable document becomes 500 with the message prefixed; the only exceptions that escape are the service's `NoSuchElementException` and `IndexOutOfBoundsException` |
| Controller.ArchiveErrors | src/main/java/com/pdfprocessor/pdf_segmentation/controller/PdfController.java:78-91 | after segmenting, a name without ".pdf" cut more than once gets 500 with "duplicate entry: " and the name; otherwise a 500 comes only from a segment that cannot be read |
| Controller.GetReply | src/main/java/com/pdfprocessor/pdf_segmentation/controller/PdfController.java:101-107 | 404 for an unknown id, otherwise 200 with the stored record |
| Controller.PutCuts | src/main/java/com/pdfprocessor/pdf_segmentation/controller/PdfController.java:116-126 | 404 and no change for an unknown id; otherwise 200 and the entry's cuts set to the new value, unchecked; its properties are `PutEffect` |
| Controller.PatchCuts | src/main/java/com/pdfprocessor/pdf_segmentation/controller/PdfController.java:135-149 | 404 and no change for an unknown id; otherwise 200, and the cuts are set only when the body has a "cuts" entry; its properties are `PatchEffect` |
| Controller.DeleteEntry | src/main/java/com/pdfprocessor/pdf_segmentation/controller/PdfController.java:158-166 | the entry is removed; 204 when there was one, 404 otherwise; its properties are `DeleteThenGet` |
| Controller.PutEffect | src/main/java/com/pdfprocessor/pdf_segmentation/controller/PdfController.java:116-126 | 200 exactly for a known id, and then the cuts take any value (zero and negative included) with everything else kept; 404 otherwise, with nothing changed |
| Controller.PatchEffect | src/main/java/com/pdfprocessor/pdf_segmentation/controller/PdfController.java:135-149 | 200 exactly for a known id. Without a "cuts" entry, or for an unknown id, nothing changes; with one, the change is the same as PUT's |
| Controller.DeleteThenGet | src/main/java/com/pdfprocessor/pdf_segmentation/controller/PdfController.java:158-166 | 204 exactly when the id was stored; after the delete a GET on that id answers 404, and other ids answer as before |
| Controller.PdfMetadata.constructor | src/main/java/com/pdfprocessor/pdf_segmentation/controller/PdfController.java:200-204 | the three fields hold the given values |
| Controller.PdfMetadata.SetPdfId | src/main/java/com/pdfprocessor/pdf_segmentation/controller/PdfController.java:210-212 | sets the id and keeps the other two fields |
| Controller.PdfMetadata.SetSegmentCount | src/main/java/com/pdfprocessor/pdf_segmentation/controller/PdfController.java:218-220 | sets the segment count and keeps the other two fields |
| Controller.PdfMetadata.SetCuts | src/main/java/com/pdfprocessor/pdf_segmentation/controller/PdfController.java:226-228 | sets the cuts and keeps the other two fields |
| Controller.PdfController.constructor | src/main/java/com/pdfprocessor/pdf_segmentation/controller/PdfController.java:32 | the controller's store starts empty, next to the given service |
| Controller.PdfController.SegmentPdf | src/main/java/com/pdfprocessor/pdf_segmentation/controller/PdfController.java:44-92 | answers as `UploadReply` says, including 500 for a duplicate archive entry. When the service segments the file, both the service's store and the controller's store move as `Store` says, even if the archive then fails; otherwise neither changes |
| Controller.PdfController.Process | src/main/java/com/pdfprocessor/pdf_segmentation/controller/PdfController.java:66-91 | answers as `ProcessingReply` says; when the upload is copied and segmented, both stores move as `Store` says, otherwise neither changes |
| Controller.PdfController.SegmentAndStore | src/main/java/com/pdfprocessor/pdf_segmentation/controller/PdfController.java:68-76 | returns what `Segmentation` says; on success the service and the controller each store a record with the segment count and the cuts, otherwise neither store changes |
| Controller.PdfController.StoreMetadata | src/main/java/com/pdfprocessor/pdf_segmentation/controller/PdfController.java:74-76 | a fresh record under the id, stored as `Store` says; the service's store is untouched |
| Controller.PdfController.GetPdfMetadata | src/main/java/com/pdfprocessor/pdf_segmentation/controller/PdfController.java:101-107 | answers as `GetReply` says: 200 with the record, or 404 |
| Controller.PdfController.UpdateSegmentation | src/main/java/com/pdfprocessor/pdf_segmentation/controller/PdfController.java:116-126 | the response and the new view are those of `PutCuts`, and the update is made in place on the stored object |
| Controller.PdfController.ModifySegmentation | src/main/java/com/pdfprocessor/pdf_segmentation/controller/PdfController.java:135-149 | the response and the new view are those of `PatchCuts` |
| Controller.PdfController.DeletePdf | src/main/java/com/pdfprocessor/pdf_segmentation/controller/PdfController.java:158-166 | the response and the new view are those of `DeleteEntry` |

## Left out

- Loading the document with PDFBox and extracting glyph positions (`CustomPDFTextStripper`) are not modelled. The document's pages and glyph positions are inputs (`Loaded`), and a read failure is an input message.
- Glyph positions are `float` in the code and integers here, so the float subtraction in the gaps and `Math.round` are not modelled. `CutSelection.CutPositionsShape` (each cut position is an input position) and `CutSelection.CutPositionsDistinctIff` hold because positions are integers. With float positions, two distinct positions can round to the same integer: 10.2, 10.4 and 20.0 with 2 cuts give [10, 10]. A rounded position is also not in general an input position.
- Partition.SplitPdf: that `getPage` past the last page throws `IndexOutOfBoundsException` is PDFBox's behaviour, taken as given. The controller answers the same for any unchecked exception there, since it escapes.
- Saving and closing the segment documents, and the files on disk, are not modelled. The segments are values. If `getPage` fails part-way, the files already saved are not modelled.
- Building the zip archive is modelled by its entry names, the duplicate-entry check of `putNextEntry`, and an optional message (`readError`) for a segment that `Files.readAllBytes` cannot read. The archive bytes are not modelled.
- Controller.Zip: a duplicate entry is reported before a read failure. The code meets the two checks file by file, so when both occur, which one it reports is not modelled.
- Controller.PdfController.Process: the archive reply is computed with the function `ArchiveReply`; the method does not call `CreateZipFromFiles`, the loop proved to compute the same `Zip`.
- A `ZipEntry` name longer than 65535 bytes makes the constructor throw `IllegalArgumentException`; this is not modelled.
- The HTTP layer, the Spring wiring, the OpenAPI annotations and `OpenApiConfig` are not modelled. Responses are a status and a body.
- A null content type makes `getContentType().equals(...)` throw `NullPointerException`. The model takes the content type as a string, so this case is not modelled.
- `convertMultipartFileToFile` is modelled by its result: `transferTo` may fail with a message, and when it succeeds the copy may or may not be found under the original file name (`copiedFileFound`, an input). Where the servlet container puts a relative path is not modelled.
  - A null original file name (`new File(null)`) is not modelled.
  - The path stripping done by `File.getName` is not modelled.
- Controller.PdfController.ModifySegmentation: the request body is `map<string, int>`. A "cuts" value that is not an `Integer` makes the `(int)` cast throw `ClassCastException`, and this is not modelled.
- A null `pdfFile` is `Option.None`, and a null `PdfMetadata` result is `null` of type `PdfMetadata?`.
- Concurrency on the `HashMap` stores is not modelled.
- The project's test classes are not part of this model.
