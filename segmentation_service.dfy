/**
 * `PdfSegmentationService`: segmenting an uploaded file and the in-memory
 * metadata store keyed by file name.
 *
 * The store is modelled twice: as pure transitions over a map of metadata
 * values (`Record`), about which the lemmas below are stated, and as the
 * class `PdfSegmentationService`, whose map holds `PdfMetadata` objects that
 * the update operations change in place. Each method is proved to move the
 * value view of the store exactly as the pure transition says.
 */
module SegmentationService {
  import opened Outcomes
  import opened CutSelection
  import opened SegmentNaming
  import opened Partition

  const InvalidFileMessage: string := "Invalid PDF file."
  const NonPositiveCutsMessage: string := "Number of cuts must be greater than zero."
  const UnknownIdMessage: string := "PDF with given ID does not exist."

  /**
   * What loading the document and extracting its text yields: the pages and
   * the vertical position of every glyph, or the message of the IOException
   * raised while reading it.
   */
  datatype Loaded<P> = Document(pages: seq<P>, yPositions: seq<int>) | Unreadable(message: string)

  /** A `java.io.File` handed to the service: its name, what the file system says of it, and its content. */
  datatype PdfFile<P> = PdfFile(name: string, existsOnDisk: bool, isFile: bool, content: Loaded<P>)

  /** The values a `PdfMetadata` holds. */
  datatype Record = Record(pdfId: string, segmentCount: int, cuts: int)

  /** The check at the top of `segmentPdf`: a non-null reference to an existing regular file. */
  predicate UsableFile<P>(file: Option<PdfFile<P>>) {
    file.Some? && file.value.existsOnDisk && file.value.isFile
  }

  /**
   * What `segmentPdf(file, cuts)` returns or throws: the file check, then the
   * cuts check, then reading the document, choosing the cut positions and
   * writing one segment per position.
   */
  function Segmentation<P>(file: Option<PdfFile<P>>, cuts: int): (r: Result<seq<SegmentFile<P>>>)
    ensures r.Success? ==> UsableFile(file) && |r.value| == cuts
    ensures r.Failure? && r.error.IsChecked() ==> !UsableFile(file) || file.value.content.Unreadable?
  {
    if !UsableFile(file) then Failure(IOException(InvalidFileMessage))
    else if cuts <= 0 then Failure(IllegalArgumentException(NonPositiveCutsMessage))
    else match file.value.content
      case Unreadable(message) => Failure(IOException(message))
      case Document(pages, yPositions) =>
        match CutPositions(yPositions, cuts)
        case Failure(e) => Failure(e)
        case Success(positions) =>
          if |positions| <= |pages| then Success(Segments(pages, |positions|, file.value.name))
          else Failure(IndexOutOfBoundsException(|pages|))
  }

  /**
   * The file is checked before the cuts, and the cuts before the document is
   * opened: an unusable file is reported whatever the cuts, and a
   * non-positive count whatever the document holds.
   */
  lemma SegmentationCheckOrder<P>(file: Option<PdfFile<P>>, cuts: int, other: Loaded<P>)
    ensures !UsableFile(file) ==> Segmentation(file, cuts) == Failure(IOException(InvalidFileMessage))
    ensures UsableFile(file) && cuts <= 0 ==>
      && Segmentation(file, cuts) == Failure(IllegalArgumentException(NonPositiveCutsMessage))
      && Segmentation(Some(file.value.(content := other)), cuts) == Segmentation(file, cuts)
  {
  }

  /**
   * Segmenting succeeds exactly when the file is usable, the count positive,
   * the document readable with at least two distinct glyph positions, and
   * long enough to give one page per cut; it then yields exactly `cuts`
   * segments, the i-th holding page i under the i-th segment name.
   */
  lemma SegmentationSucceeds<P>(file: Option<PdfFile<P>>, cuts: int)
    ensures Segmentation(file, cuts).Success? <==>
      && UsableFile(file) && cuts > 0
      && file.value.content.Document?
      && TwoDistinct(file.value.content.yPositions)
      && cuts <= |file.value.content.pages|
    ensures Segmentation(file, cuts).Success? ==>
      var segments := Segmentation(file, cuts).value;
      && |segments| == cuts
      && forall i :: 0 <= i < cuts ==>
           segments[i].page == file.value.content.pages[i]
           && segments[i].name == SegmentName(file.value.name, i)
  {
    if UsableFile(file) && cuts > 0 && file.value.content.Document? {
      var ys := file.value.content.yPositions;
      CutPositionsFailure(ys, cuts);
      if CutPositions(ys, cuts).Success? {
        CutPositionsShape(ys, cuts);
      }
    }
  }

  /**
   * The exceptions `segmentPdf` lets escape. The checked one, IOException,
   * comes only from an unusable file or an unreadable document; a usable file
   * with a positive count fails otherwise only for lack of two distinct
   * glyph positions or of pages.
   */
  lemma SegmentationFailures<P>(file: Option<PdfFile<P>>, cuts: int)
    ensures var r := Segmentation(file, cuts);
      r.Failure? && r.error.IsChecked() <==>
        !UsableFile(file) || (cuts > 0 && file.value.content.Unreadable?)
    ensures var r := Segmentation(file, cuts);
      UsableFile(file) && cuts > 0 && file.value.content.Document? && r.Failure? ==>
        r.error == (if TwoDistinct(file.value.content.yPositions) then IndexOutOfBoundsException(|file.value.content.pages|)
                    else NoSuchElementException)
  {
    if UsableFile(file) && cuts > 0 && file.value.content.Document? {
      CutPositionsFailure(file.value.content.yPositions, cuts);
    }
  }

  /** Storing the metadata of a segmented file: the entry for its name is replaced, the others kept. */
  function Store(view: map<string, Record>, pdfId: string, segmentCount: int, cuts: int): (r: map<string, Record>)
    ensures r.Keys == view.Keys + {pdfId}
    ensures r[pdfId] == Record(pdfId, segmentCount, cuts)
    ensures forall id :: id in view && id != pdfId ==> r[id] == view[id]
  {
    view[pdfId := Record(pdfId, segmentCount, cuts)]
  }

  /**
   * `updateSegmentation` and `modifySegmentation` (the same code): reject a
   * non-positive count, then an unknown id, otherwise set that entry's cuts.
   */
  function SetCutsTransition(view: map<string, Record>, pdfId: string, newCuts: int): (Outcome, map<string, Record>) {
    if newCuts <= 0 then (Fail(IllegalArgumentException(NonPositiveCutsMessage)), view)
    else if pdfId !in view then (Fail(IllegalArgumentException(UnknownIdMessage)), view)
    else (Pass, view[pdfId := view[pdfId].(cuts := newCuts)])
  }

  /**
   * Setting the cuts fails exactly for a non-positive count (checked first) or
   * an unknown id, each with an IllegalArgumentException, and then changes nothing; otherwise it changes the cuts of
   * that one entry, keeping its id and segment count and every other entry.
   */
  lemma SetCutsEffect(view: map<string, Record>, pdfId: string, newCuts: int)
    ensures var (o, after) := SetCutsTransition(view, pdfId, newCuts);
      && (o.Fail? <==> newCuts <= 0 || pdfId !in view)
      && (newCuts <= 0 ==> o == Fail(IllegalArgumentException(NonPositiveCutsMessage)))
      && (newCuts > 0 && pdfId !in view ==> o == Fail(IllegalArgumentException(UnknownIdMessage)))
      && (o.Fail? ==> after == view)
      && after.Keys == view.Keys
      && (forall id :: id in view && id != pdfId ==> after[id] == view[id])
      && (o.Pass? ==>
            && after[pdfId].cuts == newCuts
            && after[pdfId].pdfId == view[pdfId].pdfId
            && after[pdfId].segmentCount == view[pdfId].segmentCount)
  {
  }

  /** Setting the same count twice is the same as setting it once. */
  lemma SetCutsIdempotent(view: map<string, Record>, pdfId: string, newCuts: int)
    ensures var after := SetCutsTransition(view, pdfId, newCuts).1;
      SetCutsTransition(after, pdfId, newCuts).1 == after
  {
    var after := SetCutsTransition(view, pdfId, newCuts).1;
    if newCuts > 0 && pdfId in view {
      assert after[pdfId].(cuts := newCuts) == after[pdfId];
    }
  }

  /** A record stored under its own id stays stored under its own id when its cuts are set. */
  lemma SetCutsKeepsIds(view: map<string, Record>, pdfId: string, newCuts: int)
    requires forall id :: id in view ==> view[id].pdfId == id
    ensures var after := SetCutsTransition(view, pdfId, newCuts).1;
      forall id :: id in after ==> after[id].pdfId == id
  {
  }

  /** `deletePdf`: the entry is removed if present; an unknown id changes nothing. */
  function Delete(view: map<string, Record>, pdfId: string): (r: map<string, Record>)
    ensures pdfId !in r && r.Keys == view.Keys - {pdfId}
    ensures forall id :: id in r ==> r[id] == view[id]
    ensures pdfId !in view ==> r == view
  {
    view - {pdfId}
  }

  /**
   * The body of `segmentPdf` up to its return: the checks, reading the document, choosing
   * the cut positions and writing the segments.
   */
  method SegmentFiles<P>(file: Option<PdfFile<P>>, cuts: int) returns (r: Result<seq<SegmentFile<P>>>)
    ensures r == Segmentation(file, cuts)
  {
    if file.None? || !file.value.existsOnDisk || !file.value.isFile {
      return Failure(IOException(InvalidFileMessage));
    }
    if cuts <= 0 {
      return Failure(IllegalArgumentException(NonPositiveCutsMessage));
    }
    var pdfFile := file.value;
    match pdfFile.content {
      case Unreadable(message) =>
        return Failure(IOException(message));
      case Document(pages, yPositions) =>
        var cutPositions := FindCutPositions(yPositions, cuts);
        if cutPositions.Failure? {
          return Failure(cutPositions.error);
        }
        r := SplitPdf(pages, cutPositions.value, pdfFile.name);
    }
  }

  /** Metadata of one segmented file. Only its cuts can change after creation. */
  class PdfMetadata {
    const pdfId: string
    const segmentCount: int
    var cuts: int

    constructor (pdfId: string, segmentCount: int, cuts: int)
      ensures this.pdfId == pdfId && this.segmentCount == segmentCount && this.cuts == cuts
    {
      this.pdfId := pdfId;
      this.segmentCount := segmentCount;
      this.cuts := cuts;
    }

    function Value(): (r: Record)
      reads this
      ensures r.pdfId == pdfId && r.segmentCount == segmentCount && r.cuts == cuts
    {
      Record(pdfId, segmentCount, cuts)
    }

    method SetCuts(cuts: int)
      modifies this
      ensures this.cuts == cuts
    {
      this.cuts := cuts;
    }
  }

  class PdfSegmentationService {
    var storage: map<string, PdfMetadata>

    /** Every record is stored under its own id, so different ids hold different objects. */
    ghost predicate Valid()
      reads this
    {
      forall id :: id in storage ==> storage[id].pdfId == id
    }

    /** The values currently stored. */
    function View(): (v: map<string, Record>)
      reads this, storage.Values
      ensures v.Keys == storage.Keys
    {
      map id | id in storage :: storage[id].Value()
    }

    constructor ()
      ensures Valid() && storage == map[]
    {
      storage := map[];
    }

    /**
     * `segmentPdf`: returns or throws what `Segmentation` says; on success
     * stores a new record under the file name, otherwise leaves the store as
     * it was.
     */
    method SegmentPdf<P>(file: Option<PdfFile<P>>, cuts: int) returns (r: Result<seq<SegmentFile<P>>>)
      requires Valid()
      modifies this
      ensures Valid()
      ensures r == Segmentation(file, cuts)
      ensures r.Failure? ==> storage == old(storage)
      ensures r.Success? ==>
        && file.Some? && file.value.name in storage
        && fresh(storage[file.value.name])
        && storage == old(storage)[file.value.name := storage[file.value.name]]
        && View() == Store(old(View()), file.value.name, |r.value|, cuts)
    {
      r := SegmentFiles(file, cuts);
      if r.Success? {
        StoreMetadata(file.value.name, |r.value|, cuts);
      }
    }

    /** The `put` at the end of `segmentPdf`: a new record under the file name replaces any earlier one. */
    method StoreMetadata(pdfId: string, segmentCount: int, cuts: int)
      requires Valid()
      modifies this
      ensures Valid()
      ensures pdfId in storage && fresh(storage[pdfId])
      ensures storage == old(storage)[pdfId := storage[pdfId]]
      ensures View() == Store(old(View()), pdfId, segmentCount, cuts)
    {
      var metadata := new PdfMetadata(pdfId, segmentCount, cuts);
      storage := storage[pdfId := metadata];
    }

    /** `getPdfMetadata`: the stored object, or null for an unknown id. */
    method GetPdfMetadata(pdfId: string) returns (m: PdfMetadata?)
      ensures pdfId in storage ==> m == storage[pdfId]
      ensures pdfId !in storage ==> m == null
    {
      if pdfId in storage {
        m := storage[pdfId];
      } else {
        m := null;
      }
    }

    /** `updateSegmentation`: changes the stored values as `SetCutsTransition` says, in place. */
    method UpdateSegmentation(pdfId: string, newCuts: int) returns (o: Outcome)
      requires Valid()
      modifies if pdfId in storage then {storage[pdfId]} else {}
      ensures Valid() && storage == old(storage)
      ensures (o, View()) == SetCutsTransition(old(View()), pdfId, newCuts)
    {
      if newCuts <= 0 {
        return Fail(IllegalArgumentException(NonPositiveCutsMessage));
      }
      if pdfId !in storage {
        return Fail(IllegalArgumentException(UnknownIdMessage));
      }
      var metadata := storage[pdfId];
      ghost var before := View();
      metadata.SetCuts(newCuts);
      assert View() == before[pdfId := before[pdfId].(cuts := newCuts)];
      o := Pass;
    }

    /** `modifySegmentation`: the same checks and the same change as `updateSegmentation`. */
    method ModifySegmentation(pdfId: string, updatedCuts: int) returns (o: Outcome)
      requires Valid()
      modifies if pdfId in storage then {storage[pdfId]} else {}
      ensures Valid() && storage == old(storage)
      ensures (o, View()) == SetCutsTransition(old(View()), pdfId, updatedCuts)
    {
      if updatedCuts <= 0 {
        return Fail(IllegalArgumentException(NonPositiveCutsMessage));
      }
      if pdfId !in storage {
        return Fail(IllegalArgumentException(UnknownIdMessage));
      }
      var metadata := storage[pdfId];
      ghost var before := View();
      metadata.SetCuts(updatedCuts);
      assert View() == before[pdfId := before[pdfId].(cuts := updatedCuts)];
      o := Pass;
    }

    /** `deletePdf`: removes the entry, silently for an unknown id. */
    method DeletePdf(pdfId: string)
      requires Valid()
      modifies this
      ensures Valid()
      ensures storage == old(storage) - {pdfId}
      ensures View() == Delete(old(View()), pdfId)
    {
      storage := storage - {pdfId};
    }
  }
}
