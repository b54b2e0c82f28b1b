/**
 * `PdfSegmentationService.splitPdf`: one output file per cut position, the
 * i-th holding page i of the source document and named after the original
 * file. Pages are values of an arbitrary type `P`; saving a file is left out.
 */
module Partition {
  import opened Outcomes
  import opened SegmentNaming

  /** A saved segment: its file name and the single page it holds. */
  datatype SegmentFile<P> = SegmentFile(name: string, page: P)

  /** The segment files written for `count` cut positions, when the document has enough pages. */
  function Segments<P>(pages: seq<P>, count: nat, originalFileName: string): (r: seq<SegmentFile<P>>)
    requires count <= |pages|
  {
    seq(count, i requires 0 <= i < count => SegmentFile(SegmentName(originalFileName, i), pages[i]))
  }

  /**
   * The loop of `splitPdf`. `document.getPage(i)` throws an
   * IndexOutOfBoundsException once `i` reaches the page count, so a list of
   * cut positions longer than the document fails at index `|pages|`.
   */
  method SplitPdf<P>(pages: seq<P>, cutPositions: seq<int>, originalFileName: string)
    returns (r: Result<seq<SegmentFile<P>>>)
    ensures r.Success? <==> |cutPositions| <= |pages|
    ensures r.Failure? ==> r.error == IndexOutOfBoundsException(|pages|)
    ensures r.Success? ==>
      && |r.value| == |cutPositions|
      && (forall i :: 0 <= i < |r.value| ==>
            r.value[i].page == pages[i] && r.value[i].name == SegmentName(originalFileName, i))
    ensures r.Success? ==> r.value == Segments(pages, |cutPositions|, originalFileName)
  {
    var segmentedFiles: seq<SegmentFile<P>> := [];
    var i := 0;
    while i < |cutPositions|
      invariant 0 <= i <= |cutPositions| && i <= |pages|
      invariant |segmentedFiles| == i
      invariant forall k :: 0 <= k < i ==>
        segmentedFiles[k] == SegmentFile(SegmentName(originalFileName, k), pages[k])
    {
      if i >= |pages| {
        return Failure(IndexOutOfBoundsException(i));
      }
      var newFileName := ReplaceAll(originalFileName, PdfSuffix, SegmentInfix + DecimalString(i + 1) + PdfSuffix);
      segmentedFiles := segmentedFiles + [SegmentFile(newFileName, pages[i])];
      i := i + 1;
    }
    r := Success(segmentedFiles);
  }

  /**
   * The names of the segments: all different when the original name contains
   * ".pdf", all equal to the original name when it does not.
   */
  lemma SegmentFileNames<P>(pages: seq<P>, count: nat, originalFileName: string)
    requires count <= |pages|
    ensures var files := Segments(pages, count, originalFileName);
      Occurs(PdfSuffix, originalFileName) ==>
        forall i, j :: 0 <= i < j < count ==> files[i].name != files[j].name
    ensures var files := Segments(pages, count, originalFileName);
      !Occurs(PdfSuffix, originalFileName) ==>
        forall i :: 0 <= i < count ==> files[i].name == originalFileName
  {
    var files := Segments(pages, count, originalFileName);
    if Occurs(PdfSuffix, originalFileName) {
      forall i, j | 0 <= i < j < count
        ensures files[i].name != files[j].name
      {
        SegmentNamesDistinct(originalFileName, i, j);
      }
    } else {
      forall i | 0 <= i < count
        ensures files[i].name == originalFileName
      {
        SegmentNameWithoutSuffix(originalFileName, i);
      }
    }
  }
}
