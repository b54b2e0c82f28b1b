/**
 * `PdfController`: the HTTP endpoints under /api/pdf. The upload endpoint
 * validates its request, hands the file to the segmentation service, records
 * metadata in the controller's own store and answers with an archive of the
 * segments; the other endpoints read and change that store.
 *
 * Responses are status codes with a body. As for the service, the store is
 * described by pure transitions over metadata values, and the class methods
 * are proved to follow them.
 */
module Controller {
  import opened Outcomes
  import opened SegmentNaming
  import opened Partition
  import opened CutSelection
  import opened Ordering
  import S = SegmentationService

  const PdfContentType: string := "application/pdf"
  /** 10 MB; a file of exactly this size is accepted. */
  const MaxFileSize: int := 10 * 1024 * 1024

  const InvalidTypeMessage: string := "Invalid file type. Only PDF files are accepted."
  const TooLargeMessage: string := "File size exceeds the limit of 10 MB."
  const InvalidCutsMessage: string := "The number of cuts must be a positive integer."
  const ProcessingErrorPrefix: string := "Error processing PDF file: "
  const NotFoundMessage: string := "PDF metadata not found"
  const UpdatedMessage: string := "Segmentation updated successfully"
  const ModifiedMessage: string := "Segmentation details modified successfully"
  const ArchiveName: string := "segmented_pdfs.zip"
  /** The message of the ZipException `ZipOutputStream.putNextEntry` throws for a name already put. */
  const DuplicateEntryPrefix: string := "duplicate entry: "

  const Ok: int := 200
  const Created: int := 201
  const NoContent: int := 204
  const BadRequest: int := 400
  const NotFound: int := 404
  const InternalServerError: int := 500

  /** A response body: nothing, a message, a metadata record, or a zip archive of named entries. */
  datatype Body = NoBody | Text(text: string) | Json(record: S.Record) | Archive(fileName: string, entryNames: seq<string>)

  datatype Response = Response(status: int, body: Body)

  /**
   * A multipart upload: the declared content type and size, the original
   * file name, whether copying it to disk (`transferTo`) failed and with what
   * message, whether the service then finds the copy under the original file
   * name (`transferTo` may resolve a relative name against another
   * directory), and what the copied file holds.
   */
  datatype Upload<P> = Upload(
    contentType: string,
    size: int,
    originalFilename: string,
    transferError: Option<string>,
    copiedFileFound: bool,
    content: S.Loaded<P>)

  /** The request checks of `segmentPdf`, in order: the 400 message, or none when the request passes. */
  function UploadRejection(contentType: string, size: int, cuts: Option<int>): Option<string> {
    if contentType != PdfContentType then Some(InvalidTypeMessage)
    else if size > MaxFileSize then Some(TooLargeMessage)
    else if cuts.None? || cuts.value <= 0 then Some(InvalidCutsMessage)
    else None
  }

  /**
   * A request passes exactly when it declares a PDF of at most 10 MB and a
   * positive number of cuts. A wrong type is reported whatever the size and
   * cuts, and an oversized file whatever the cuts.
   */
  lemma UploadValidation(contentType: string, size: int, cuts: Option<int>)
    ensures UploadRejection(contentType, size, cuts).None? <==>
      contentType == PdfContentType && size <= 10 * 1024 * 1024 && cuts.Some? && cuts.value > 0
    ensures contentType != PdfContentType ==> UploadRejection(contentType, size, cuts) == Some(InvalidTypeMessage)
    ensures contentType == PdfContentType && size > 10485760 ==>
      UploadRejection(contentType, size, cuts) == Some(TooLargeMessage)
  {
  }

  /**
   * The file handed to the service: a non-null `File` named as the original
   * file, which exists and is a regular file exactly when the copy is found.
   */
  function UploadedFile<P>(upload: Upload<P>): (f: Option<S.PdfFile<P>>)
    ensures f.Some? && f.value.name == upload.originalFilename && f.value.content == upload.content
    ensures S.UsableFile(f) <==> upload.copiedFileFound
  {
    Some(S.PdfFile(upload.originalFilename, upload.copiedFileFound, upload.copiedFileFound, upload.content))
  }

  function EntryNames<P>(files: seq<SegmentFile<P>>): (names: seq<string>)
    ensures |names| == |files| && forall i :: 0 <= i < |files| ==> names[i] == files[i].name
  {
    seq(|files|, i requires 0 <= i < |files| => files[i].name)
  }

  /** The service is reached and segments the file: the controller then stores metadata. */
  predicate Segmented<P>(upload: Upload<P>, cuts: Option<int>) {
    && UploadRejection(upload.contentType, upload.size, cuts).None?
    && Copied(upload, cuts.value)
  }

  /** The upload is copied to disk and the service segments the copy. */
  predicate Copied<P>(upload: Upload<P>, cuts: int) {
    && upload.transferError.None?
    && S.Segmentation(UploadedFile(upload), cuts).Success?
  }

  /** The first name of `names` already in `seen` or repeating an earlier name of `names`, if any. */
  function DuplicateEntry(names: seq<string>, seen: set<string>): (d: Option<string>)
    ensures d.Some? ==> d.value in names
  {
    if |names| == 0 then None
    else if names[0] in seen then Some(names[0])
    else DuplicateEntry(names[1..], seen + {names[0]})
  }

  /** No name is refused exactly when the names are pairwise different and none was put before. */
  lemma {:induction false} DuplicateEntryIff(names: seq<string>, seen: set<string>)
    ensures DuplicateEntry(names, seen).None? <==> Distinct(names) && forall x :: x in names ==> x !in seen
  {
    if |names| > 0 && names[0] !in seen {
      var rest := names[1..];
      DuplicateEntryIff(rest, seen + {names[0]});
      assert names == [names[0]] + rest;
      if Distinct(names) {
        assert Distinct(rest) by {
          forall i, j | 0 <= i < j < |rest| ensures rest[i] != rest[j] {
            assert rest[i] == names[i + 1] && rest[j] == names[j + 1];
          }
        }
        assert names[0] !in rest by {
          forall i | 0 <= i < |rest| ensures rest[i] != names[0] {
            assert rest[i] == names[i + 1];
          }
        }
      }
      if Distinct(rest) && names[0] !in rest {
        forall i, j | 0 <= i < j < |names| ensures names[i] != names[j] {
          if i > 0 {
            assert names[i] == rest[i - 1] && names[j] == rest[j - 1];
          } else {
            assert names[j] == rest[j - 1];
          }
        }
      }
    }
  }

  /** Names that are all `name`, at least two of them: the second one is refused. */
  lemma RepeatedEntry(names: seq<string>, name: string)
    requires |names| >= 2 && forall i :: 0 <= i < |names| ==> names[i] == name
    ensures DuplicateEntry(names, {}) == Some(name)
  {
    assert names[1..][0] == name;
  }

  /**
   * `createZipFromFiles`: one entry per segment, named as the segment file, in
   * order. `putNextEntry` refuses a name already put with a ZipException;
   * `readError` is a failure of `Files.readAllBytes` on a segment file.
   * Both are IOExceptions.
   */
  function Zip<P>(files: seq<SegmentFile<P>>, readError: Option<string>): (r: Result<seq<string>>)
    ensures r.Failure? ==> r.error.IOException?
  {
    match DuplicateEntry(EntryNames(files), {})
    case Some(name) => Failure(IOException(DuplicateEntryPrefix + name))
    case None =>
      if readError.Some? then Failure(IOException(readError.value))
      else Success(EntryNames(files))
  }

  /** The archive is built exactly when the entry names are pairwise different and the files can be read; it then lists every segment in order. */
  lemma ZipEntries<P>(files: seq<SegmentFile<P>>, readError: Option<string>)
    ensures Zip(files, readError).Success? <==> Distinct(EntryNames(files)) && readError.None?
    ensures Zip(files, readError).Success? ==>
      var entries := Zip(files, readError).value;
      |entries| == |files| && forall i :: 0 <= i < |files| ==> entries[i] == files[i].name
  {
    DuplicateEntryIff(EntryNames(files), {});
  }

  /** The loop of `createZipFromFiles`, proved to build what `Zip` says. */
  method CreateZipFromFiles<P>(files: seq<SegmentFile<P>>, readError: Option<string>) returns (r: Result<seq<string>>)
    ensures r == Zip(files, readError)
  {
    ghost var names := EntryNames(files);
    var entries: seq<string> := [];
    var seen: set<string> := {};
    var i := 0;
    while i < |files|
      invariant 0 <= i <= |files|
      invariant entries == names[..i]
      invariant DuplicateEntry(names[i..], seen) == DuplicateEntry(names, {})
    {
      var name := files[i].name;
      assert names[i..][0] == name;
      if name in seen {
        return Failure(IOException(DuplicateEntryPrefix + name));
      }
      assert names[i..][1..] == names[i + 1..];
      entries := entries + [name];
      seen := seen + {name};
      i := i + 1;
    }
    assert names[..i] == names;
    if readError.Some? {
      return Failure(IOException(readError.value));
    }
    r := Success(entries);
  }

  /** The segments of one file have pairwise different names exactly when its name contains ".pdf" or there is one segment. */
  lemma SegmentEntriesDistinct<P>(pages: seq<P>, count: nat, originalFileName: string)
    requires count <= |pages|
    ensures Distinct(EntryNames(Segments(pages, count, originalFileName))) <==>
      Occurs(PdfSuffix, originalFileName) || count <= 1
    ensures !Occurs(PdfSuffix, originalFileName) && count >= 2 ==>
      DuplicateEntry(EntryNames(Segments(pages, count, originalFileName)), {}) == Some(originalFileName)
  {
    var names := EntryNames(Segments(pages, count, originalFileName));
    SegmentFileNames(pages, count, originalFileName);
    if !Occurs(PdfSuffix, originalFileName) && count >= 2 {
      assert names[0] == names[1];
      RepeatedEntry(names, originalFileName);
    }
  }

  /**
   * The response of `segmentPdf`, or the exception that escapes it. Every
   * IOException of the processing block (copying the upload, segmenting,
   * building the archive) becomes a 500; other exceptions of the service are
   * not caught.
   */
  function UploadReply<P>(upload: Upload<P>, cuts: Option<int>, readError: Option<string>): Result<Response> {
    match UploadRejection(upload.contentType, upload.size, cuts)
    case Some(message) => Success(Response(BadRequest, Text(message)))
    case None => ProcessingReply(upload, cuts.value, readError)
  }

  /** The processing block of `segmentPdf`, for a request that passed the checks. */
  function ProcessingReply<P>(upload: Upload<P>, cuts: int, readError: Option<string>): Result<Response> {
    if upload.transferError.Some? then
      Success(Response(InternalServerError, Text(ProcessingErrorPrefix + upload.transferError.value)))
    else
      match S.Segmentation(UploadedFile(upload), cuts)
      case Failure(e) => ErrorReply(e)
      case Success(files) => Success(ArchiveReply(files, readError))
  }

  /** Once the upload is copied, the reply follows from what segmenting it gives. */
  lemma ProcessingSteps<P>(upload: Upload<P>, cuts: int, readError: Option<string>, segmented: Result<seq<SegmentFile<P>>>)
    requires upload.transferError.None? && segmented == S.Segmentation(UploadedFile(upload), cuts)
    ensures segmented.Failure? ==> ProcessingReply(upload, cuts, readError) == ErrorReply(segmented.error)
    ensures segmented.Success? ==> ProcessingReply(upload, cuts, readError) == Success(ArchiveReply(segmented.value, readError))
  {
  }

  /** The `catch (IOException e)` of `segmentPdf`: 500 with the prefixed message; other exceptions escape. */
  function ErrorReply(e: Exception): (r: Result<Response>)
    ensures r.Success? <==> e.IOException?
    ensures r.Success? ==> r.value.status == InternalServerError
    ensures r.Failure? ==> r.error == e
  {
    if e.IOException? then Success(Response(InternalServerError, Text(ProcessingErrorPrefix + e.message)))
    else Failure(e)
  }

  /** The last step of `segmentPdf`: 201 with the archive of the segments, or 500 when building it fails. */
  function ArchiveReply<P>(files: seq<SegmentFile<P>>, readError: Option<string>): (r: Response)
    ensures r.status == Created <==> Zip(files, readError).Success?
    ensures r.status == Created ==> r.body == Archive(ArchiveName, EntryNames(files))
    ensures r.status != Created ==> r.status == InternalServerError
  {
    match Zip(files, readError)
    case Failure(e) => Response(InternalServerError, Text(ProcessingErrorPrefix + e.message))
    case Success(entries) => Response(Created, Archive(ArchiveName, entries))
  }

  /**
   * 201 comes exactly when the request passes, the upload is copied and the
   * copy is found, the document has two distinct glyph positions and a page per cut, the
   * segment names are pairwise different (the name contains ".pdf", or there
   * is one cut) and the segments can be read back; the archive then holds one
   * entry per cut, named as the segments are.
   */
  lemma UploadCreated<P>(upload: Upload<P>, cuts: Option<int>, readError: Option<string>)
    ensures var r := UploadReply(upload, cuts, readError);
      r.Success? && r.value.status == Created <==>
        && UploadRejection(upload.contentType, upload.size, cuts).None?
        && upload.transferError.None?
        && upload.copiedFileFound
        && upload.content.Document?
        && TwoDistinct(upload.content.yPositions)
        && cuts.value <= |upload.content.pages|
        && (Occurs(PdfSuffix, upload.originalFilename) || cuts.value == 1)
        && readError.None?
    ensures var r := UploadReply(upload, cuts, readError);
      r.Success? && r.value.status == Created ==>
        && r.value.body.Archive?
        && |r.value.body.entryNames| == cuts.value
        && forall i :: 0 <= i < cuts.value ==> r.value.body.entryNames[i] == SegmentName(upload.originalFilename, i)
  {
    if UploadRejection(upload.contentType, upload.size, cuts).None? {
      S.SegmentationSucceeds(UploadedFile(upload), cuts.value);
      if Segmented(upload, cuts) {
        SegmentedFiles(upload, cuts);
        SegmentedReply(upload, cuts, readError);
        SegmentsArchive(upload.content.pages, cuts.value, upload.originalFilename, readError);
      }
    }
  }

  /** Once the file is segmented, its segments are those `Segments` gives, one per cut. */
  lemma SegmentedFiles<P>(upload: Upload<P>, cuts: Option<int>)
    requires Segmented(upload, cuts)
    ensures upload.copiedFileFound && upload.content.Document? && 0 < cuts.value <= |upload.content.pages|
    ensures S.Segmentation(UploadedFile(upload), cuts.value)
         == Success(Segments(upload.content.pages, cuts.value, upload.originalFilename))
  {
    S.SegmentationSucceeds(UploadedFile(upload), cuts.value);
  }

  /**
   * The archive of the segments of `name`: 500 with the duplicate entry when
   * the name lacks ".pdf" and there are several segments, else 500 when a
   * segment cannot be read, else 201 with the segment names.
   */
  lemma SegmentsArchive<P>(pages: seq<P>, count: nat, name: string, readError: Option<string>)
    requires count <= |pages|
    ensures ArchiveReply(Segments(pages, count, name), readError) ==
      if !Occurs(PdfSuffix, name) && count >= 2 then
        Response(InternalServerError, Text(ProcessingErrorPrefix + DuplicateEntryPrefix + name))
      else if readError.Some? then
        Response(InternalServerError, Text(ProcessingErrorPrefix + readError.value))
      else
        Response(Created, Archive(ArchiveName, EntryNames(Segments(pages, count, name))))
  {
    var names := EntryNames(Segments(pages, count, name));
    SegmentEntriesDistinct(pages, count, name);
    DuplicateEntryIff(names, {});
    assert ProcessingErrorPrefix + (DuplicateEntryPrefix + name) == ProcessingErrorPrefix + DuplicateEntryPrefix + name;
  }

  /**
   * Rejected requests get 400 with the first failing check's message; a
   * failed copy, a copy the service does not find and an unreadable document
   * get 500 with the prefixed message; the exceptions that escape are the
   * service's unchecked ones.
   */
  lemma UploadErrors<P>(upload: Upload<P>, cuts: Option<int>, readError: Option<string>)
    ensures var r := UploadReply(upload, cuts, readError);
      var rejection := UploadRejection(upload.contentType, upload.size, cuts);
      && (rejection.Some? ==> r == Success(Response(BadRequest, Text(rejection.value))))
      && (rejection.None? && upload.transferError.Some? ==>
            r == Success(Response(InternalServerError, Text(ProcessingErrorPrefix + upload.transferError.value))))
      && (rejection.None? && upload.transferError.None? && !upload.copiedFileFound ==>
            r == Success(Response(InternalServerError, Text(ProcessingErrorPrefix + S.InvalidFileMessage))))
      && (rejection.None? && upload.transferError.None? && upload.copiedFileFound && upload.content.Unreadable? ==>
            r == Success(Response(InternalServerError, Text(ProcessingErrorPrefix + upload.content.message))))
      && (r.Failure? <==>
            rejection.None? && upload.transferError.None? && upload.copiedFileFound && upload.content.Document?
            && !Segmented(upload, cuts))
      && (r.Failure? ==> r.error == NoSuchElementException || r.error.IndexOutOfBoundsException?)
  {
    if UploadRejection(upload.contentType, upload.size, cuts).None? {
      S.SegmentationFailures(UploadedFile(upload), cuts.value);
    }
  }

  /**
   * After segmenting, building the archive fails with 500 for a name without
   * ".pdf" cut more than once (the second entry repeats the first), and
   * otherwise only when a segment cannot be read back.
   */
  lemma ArchiveErrors<P>(upload: Upload<P>, cuts: Option<int>, readError: Option<string>)
    requires Segmented(upload, cuts)
    ensures var r := UploadReply(upload, cuts, readError);
      && (!Occurs(PdfSuffix, upload.originalFilename) && cuts.value >= 2 ==>
            r == Success(Response(InternalServerError,
                   Text(ProcessingErrorPrefix + DuplicateEntryPrefix + upload.originalFilename))))
      && ((Occurs(PdfSuffix, upload.originalFilename) || cuts.value == 1) && readError.Some? ==>
            r == Success(Response(InternalServerError, Text(ProcessingErrorPrefix + readError.value))))
  {
    SegmentedFiles(upload, cuts);
    SegmentedReply(upload, cuts, readError);
    SegmentsArchive(upload.content.pages, cuts.value, upload.originalFilename, readError);
  }

  /** Once the file is segmented, the response is the archive's. */
  lemma SegmentedReply<P>(upload: Upload<P>, cuts: Option<int>, readError: Option<string>)
    requires Segmented(upload, cuts)
    ensures UploadReply(upload, cuts, readError)
         == Success(ArchiveReply(S.Segmentation(UploadedFile(upload), cuts.value).value, readError))
  {
  }

  /** `getPdfMetadata`: the record with 200, or 404 for an unknown id. */
  function GetReply(view: map<string, S.Record>, pdfId: string): Response {
    if pdfId !in view then Response(NotFound, NoBody) else Response(Ok, Json(view[pdfId]))
  }

  /** `updateSegmentation`: 404 for an unknown id, otherwise the cuts are set, without any check on them. */
  function PutCuts(view: map<string, S.Record>, pdfId: string, newCuts: int): (Response, map<string, S.Record>) {
    if pdfId !in view then (Response(NotFound, Text(NotFoundMessage)), view)
    else (Response(Ok, Text(UpdatedMessage)), view[pdfId := view[pdfId].(cuts := newCuts)])
  }

  /** `modifySegmentation`: 404 for an unknown id; otherwise the cuts are set only when the body has a "cuts" entry. */
  function PatchCuts(view: map<string, S.Record>, pdfId: string, updates: map<string, int>): (Response, map<string, S.Record>) {
    if pdfId !in view then (Response(NotFound, Text(NotFoundMessage)), view)
    else if "cuts" in updates then (Response(Ok, Text(ModifiedMessage)), view[pdfId := view[pdfId].(cuts := updates["cuts"])])
    else (Response(Ok, Text(ModifiedMessage)), view)
  }

  /** `deletePdf`: the entry is removed; 204 when there was one, 404 otherwise. */
  function DeleteEntry(view: map<string, S.Record>, pdfId: string): (Response, map<string, S.Record>) {
    (Response(if pdfId in view then NoContent else NotFound, NoBody), view - {pdfId})
  }

  /**
   * PUT on a known id answers 200 and sets the cuts to any value, zero and
   * negative ones included, keeping the id, the segment count and every other
   * entry; on an unknown id it answers 404 and changes nothing.
   */
  lemma PutEffect(view: map<string, S.Record>, pdfId: string, newCuts: int)
    ensures var (response, after) := PutCuts(view, pdfId, newCuts);
      && (response.status == Ok <==> pdfId in view)
      && (pdfId !in view ==> response.status == NotFound && after == view)
      && after.Keys == view.Keys
      && (forall id :: id in view && id != pdfId ==> after[id] == view[id])
      && (pdfId in view ==> after[pdfId] == S.Record(view[pdfId].pdfId, view[pdfId].segmentCount, newCuts))
      && (pdfId in view ==> GetReply(after, pdfId) == Response(Ok, Json(after[pdfId])) && after[pdfId].cuts == newCuts)
  {
  }

  /**
   * PATCH answers 200 on a known id whether or not the body names the cuts,
   * and changes the record only when it does; on an unknown id it answers 404
   * and changes nothing.
   */
  lemma PatchEffect(view: map<string, S.Record>, pdfId: string, updates: map<string, int>)
    ensures var (response, after) := PatchCuts(view, pdfId, updates);
      && (response.status == Ok <==> pdfId in view)
      && (pdfId !in view || "cuts" !in updates ==> after == view)
      && (pdfId in view && "cuts" in updates ==> after == PutCuts(view, pdfId, updates["cuts"]).1)
  {
  }

  /**
   * DELETE answers 204 exactly when the id was stored; afterwards the id is
   * gone, so a GET on it answers 404, and the other entries are kept.
   */
  lemma DeleteThenGet(view: map<string, S.Record>, pdfId: string)
    ensures var (response, after) := DeleteEntry(view, pdfId);
      && (response.status == NoContent <==> pdfId in view)
      && GetReply(after, pdfId).status == NotFound
      && (forall id :: id in view && id != pdfId ==> GetReply(after, id) == GetReply(view, id))
  {
  }

  /** The controller's own metadata object, with a setter for each field. */
  class PdfMetadata {
    var pdfId: string
    var segmentCount: int
    var cuts: int

    constructor (pdfId: string, segmentCount: int, cuts: int)
      ensures this.pdfId == pdfId && this.segmentCount == segmentCount && this.cuts == cuts
    {
      this.pdfId := pdfId;
      this.segmentCount := segmentCount;
      this.cuts := cuts;
    }

    function Value(): (r: S.Record)
      reads this
      ensures r.pdfId == pdfId && r.segmentCount == segmentCount && r.cuts == cuts
    {
      S.Record(pdfId, segmentCount, cuts)
    }

    method SetPdfId(pdfId: string)
      modifies this
      ensures this.pdfId == pdfId && segmentCount == old(segmentCount) && cuts == old(cuts)
    {
      this.pdfId := pdfId;
    }

    method SetSegmentCount(segmentCount: int)
      modifies this
      ensures this.segmentCount == segmentCount && pdfId == old(pdfId) && cuts == old(cuts)
    {
      this.segmentCount := segmentCount;
    }

    method SetCuts(cuts: int)
      modifies this
      ensures this.cuts == cuts && pdfId == old(pdfId) && segmentCount == old(segmentCount)
    {
      this.cuts := cuts;
    }
  }

  class PdfController {
    const service: S.PdfSegmentationService
    var storage: map<string, PdfMetadata>

    /** Every record is stored under its own id, and the service's store is well formed. */
    ghost predicate Valid()
      reads this, storage.Values, service
    {
      && (forall id :: id in storage ==> storage[id].pdfId == id)
      && service.Valid()
    }

    /** The values currently stored by the controller. */
    function View(): (v: map<string, S.Record>)
      reads this, storage.Values
      ensures v.Keys == storage.Keys
    {
      map id | id in storage :: storage[id].Value()
    }

    constructor (service: S.PdfSegmentationService)
      requires service.Valid()
      ensures Valid() && this.service == service && storage == map[]
    {
      this.service := service;
      storage := map[];
    }

    /**
     * `segmentPdf`: answers as `UploadReply` says. When the service segments
     * the file, both the service and the controller store a record under the
     * file name with one segment per cut, even if the archive then fails;
     * otherwise neither store changes.
     */
    method SegmentPdf<P>(upload: Upload<P>, cuts: Option<int>, readError: Option<string>) returns (r: Result<Response>)
      requires Valid()
      modifies this, service
      ensures Valid()
      ensures r == UploadReply(upload, cuts, readError)
      ensures !Segmented(upload, cuts) ==> storage == old(storage) && service.storage == old(service.storage)
      ensures Segmented(upload, cuts) ==>
        var segments := S.Segmentation(UploadedFile(upload), cuts.value).value;
        && View() == S.Store(old(View()), upload.originalFilename, |segments|, cuts.value)
        && service.View() == S.Store(old(service.View()), upload.originalFilename, |segments|, cuts.value)
    {
      var rejection := UploadRejection(upload.contentType, upload.size, cuts);
      if rejection.Some? {
        return Success(Response(BadRequest, Text(rejection.value)));
      }
      r := Process(upload, cuts.value, readError);
    }

    /** The `try` block of `segmentPdf`: copy, segment, store, build the archive. */
    method Process<P>(upload: Upload<P>, cuts: int, readError: Option<string>) returns (r: Result<Response>)
      requires Valid()
      modifies this, service
      ensures Valid()
      ensures r == ProcessingReply(upload, cuts, readError)
      ensures !Copied(upload, cuts) ==> storage == old(storage) && service.storage == old(service.storage)
      ensures Copied(upload, cuts) ==>
        var segments := S.Segmentation(UploadedFile(upload), cuts).value;
        && View() == S.Store(old(View()), upload.originalFilename, |segments|, cuts)
        && service.View() == S.Store(old(service.View()), upload.originalFilename, |segments|, cuts)
    {
      if upload.transferError.Some? {
        return Success(Response(InternalServerError, Text(ProcessingErrorPrefix + upload.transferError.value)));
      }
      var segmentedFiles := SegmentAndStore(UploadedFile(upload), cuts);
      ProcessingSteps(upload, cuts, readError, segmentedFiles);
      if segmentedFiles.Failure? {
        return ErrorReply(segmentedFiles.error);
      }
      r := Success(ArchiveReply(segmentedFiles.value, readError));
    }

    /**
     * The service call and the `put` in `segmentPdf`: the service segments the file and stores
     * its record; on success the controller stores its own record too.
     */
    method SegmentAndStore<P>(pdfFile: Option<S.PdfFile<P>>, cuts: int) returns (r: Result<seq<SegmentFile<P>>>)
      requires Valid() && pdfFile.Some?
      modifies this, service
      ensures Valid()
      ensures r == S.Segmentation(pdfFile, cuts)
      ensures r.Failure? ==> storage == old(storage) && service.storage == old(service.storage)
      ensures r.Success? ==>
        && View() == S.Store(old(View()), pdfFile.value.name, |r.value|, cuts)
        && service.View() == S.Store(old(service.View()), pdfFile.value.name, |r.value|, cuts)
    {
      ghost var before := View();
      r := service.SegmentPdf(pdfFile, cuts);
      assert View() == before;
      if r.Success? {
        StoreMetadata(pdfFile.value.name, |r.value|, cuts);
      }
    }

    /** The `put` in `segmentPdf`: a new record under the file name replaces any earlier one. */
    method StoreMetadata(pdfId: string, segmentCount: int, cuts: int)
      requires Valid()
      modifies this
      ensures Valid() && service.storage == old(service.storage) && service.View() == old(service.View())
      ensures pdfId in storage && fresh(storage[pdfId])
      ensures View() == S.Store(old(View()), pdfId, segmentCount, cuts)
    {
      var metadata := new PdfMetadata(pdfId, segmentCount, cuts);
      storage := storage[pdfId := metadata];
    }

    /** GET /pdf-metadata/{id}. */
    method GetPdfMetadata(pdfId: string) returns (response: Response)
      ensures response == GetReply(View(), pdfId)
    {
      if pdfId !in storage {
        return Response(NotFound, NoBody);
      }
      var metadata := storage[pdfId];
      response := Response(Ok, Json(metadata.Value()));
    }

    /** PUT /update-segmentation/{id}. */
    method UpdateSegmentation(pdfId: string, newCuts: int) returns (response: Response)
      requires Valid()
      modifies if pdfId in storage then {storage[pdfId]} else {}
      ensures Valid() && storage == old(storage)
      ensures (response, View()) == PutCuts(old(View()), pdfId, newCuts)
    {
      if pdfId !in storage {
        return Response(NotFound, Text(NotFoundMessage));
      }
      var metadata := storage[pdfId];
      ghost var before := View();
      metadata.SetCuts(newCuts);
      assert View() == before[pdfId := before[pdfId].(cuts := newCuts)];
      response := Response(Ok, Text(UpdatedMessage));
    }

    /** PATCH /modify-segmentation/{id}. */
    method ModifySegmentation(pdfId: string, updates: map<string, int>) returns (response: Response)
      requires Valid()
      modifies if pdfId in storage then {storage[pdfId]} else {}
      ensures Valid() && storage == old(storage)
      ensures (response, View()) == PatchCuts(old(View()), pdfId, updates)
    {
      if pdfId !in storage {
        return Response(NotFound, Text(NotFoundMessage));
      }
      var metadata := storage[pdfId];
      if "cuts" in updates {
        var newCuts := updates["cuts"];
        ghost var before := View();
        metadata.SetCuts(newCuts);
        assert View() == before[pdfId := before[pdfId].(cuts := newCuts)];
      }
      response := Response(Ok, Text(ModifiedMessage));
    }

    /** DELETE /delete-pdf/{id}. */
    method DeletePdf(pdfId: string) returns (response: Response)
      requires Valid()
      modifies this
      ensures Valid()
      ensures (response, View()) == DeleteEntry(old(View()), pdfId)
    {
      var found := pdfId in storage;
      ghost var before := View();
      storage := storage - {pdfId};
      assert View() == before - {pdfId};
      if !found {
        return Response(NotFound, NoBody);
      }
      response := Response(NoContent, NoBody);
    }
  }
}
