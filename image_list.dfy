/** The image list view: which items it hands to auto-processing, which it offers
    for download, the size label, and the flag that guards download-all against
    a second start while one is running. */
module ImageList {
  import opened Wrappers
  import opened Types
  import C = Compression
  import D = Download

  /** The identifiers of the pending items, in list order. */
  function PendingIds(images: seq<ImageFile>): (r: seq<string>)
    ensures |r| <= |images|
    ensures forall k :: 0 <= k < |images| && images[k].status == Pending ==> images[k].id in r
    ensures forall id :: id in r ==>
      exists k :: 0 <= k < |images| && images[k].status == Pending && images[k].id == id
  {
    if images == [] then []
    else
      var rest := PendingIds(images[1..]);
      assert forall k :: 1 <= k < |images| ==> images[k] == images[1..][k - 1];
      (if images[0].status == Pending then [images[0].id] else []) + rest
  }

  /** The pending identifiers of a concatenation are those of each part, in order. */
  lemma {:induction false} PendingIdsConcat(a: seq<ImageFile>, b: seq<ImageFile>)
    ensures PendingIds(a + b) == PendingIds(a) + PendingIds(b)
  {
    if a != [] {
      assert (a + b)[0] == a[0];
      assert (a + b)[1..] == a[1..] + b;
      PendingIdsConcat(a[1..], b);
    } else {
      assert a + b == b;
    }
  }

  /** The auto-processing call: the pending identifiers, passed only when a handler is
      present and at least one item is pending; `None` when no call is made. */
  function AutoProcessCall(images: seq<ImageFile>, hasOnProcess: bool): (r: Option<seq<string>>)
    ensures r.Some? <==> hasOnProcess && exists k :: 0 <= k < |images| && images[k].status == Pending
    ensures r.Some? ==> r.value == PendingIds(images) && |r.value| > 0
  {
    if !hasOnProcess then None
    else
      var pendingImageIds := PendingIds(images);
      if |pendingImageIds| > 0 then
        assert pendingImageIds[0] in pendingImageIds;
        Some(pendingImageIds)
      else None
  }

  /** The download-all control is shown exactly when some item is complete and holds a blob. */
  function HasCompletedImages(images: seq<ImageFile>): (b: bool)
    ensures b <==> exists k :: 0 <= k < |images| && IsExportable(images[k])
  {
    var completedImages := D.ExportableImages(images);
    if |completedImages| > 0 then
      assert completedImages[0] in completedImages;
      true
    else
      assert forall k :: 0 <= k < |images| ==> images[k] in images;
      false
  }

  /** The per-item download is offered exactly for the items download-all would export,
      and using it saves that item's blob under its export name. */
  lemma ItemDownloadMatchesExport(images: seq<ImageFile>, k: nat)
    requires k < |images|
    ensures IsExportable(images[k]) <==> images[k] in D.ExportableImages(images)
    ensures IsExportable(images[k]) ==>
      D.DownloadImage(images[k]) == [D.SaveEvent(images[k].blob.value, D.ExportName(images[k]))]
  {
    assert images[k] in images;
  }

  /** The word after the percentage: "smaller" exactly when the output is smaller. */
  function SizeLabel(originalSize: nat, compressedSize: nat): (s: string)
    ensures s == "smaller" <==> compressedSize < originalSize
    ensures s == "smaller" || s == "larger"
  {
    if compressedSize < originalSize then "smaller" else "larger"
  }

  /** The size line's comparison part: the ratio and the label, shown only when a
      nonzero compressed size is recorded. */
  function SizeSummary(img: ImageFile): (r: Option<(C.Ratio, string)>)
    ensures r.Some? <==> img.compressedSize.Some? && img.compressedSize.value != 0
    ensures r.Some? ==>
      r.value.0 == C.CalculateCompressionRatio(img.originalSize, img.compressedSize.value) &&
      r.value.1 == SizeLabel(img.originalSize, img.compressedSize.value)
  {
    match img.compressedSize
    case Some(c) =>
      if c != 0 then
        Some((C.CalculateCompressionRatio(img.originalSize, c), SizeLabel(img.originalSize, c)))
      else None
    case None => None
  }

  /** The label never contradicts the sign of the ratio shown beside it: "smaller" comes
      with a percentage of at least zero, "larger" with one of at most zero or with the
      `NaN` or `-Infinity` of a zero original size. */
  lemma LabelAgreesWithRatio(originalSize: nat, compressedSize: nat)
    ensures SizeLabel(originalSize, compressedSize) == "smaller" ==>
      var r := C.CalculateCompressionRatio(originalSize, compressedSize);
      r.Percent? && r.value >= 0
    ensures SizeLabel(originalSize, compressedSize) == "larger" ==>
      var r := C.CalculateCompressionRatio(originalSize, compressedSize);
      !r.Percent? || r.value <= 0
  {
  }

  /** The view's own state: the download-all flag, and the saves and logged errors
      its download-all produced. */
  class ListView {
    var isDownloadingAll: bool
    var saves: seq<D.SaveEvent>
    var errorLog: seq<string>

    constructor ()
      ensures !isDownloadingAll && saves == [] && errorLog == []
    {
      isDownloadingAll := false;
      saves := [];
      errorLog := [];
    }

    /** The guard and the first step of download-all: start only when something is
        complete and no download-all is running, and then raise the flag. */
    method BeginDownloadAll(images: seq<ImageFile>) returns (started: bool)
      modifies this
      ensures started <==> HasCompletedImages(images) && !old(isDownloadingAll)
      ensures isDownloadingAll == (old(isDownloadingAll) || started)
      ensures saves == old(saves) && errorLog == old(errorLog)
    {
      if !HasCompletedImages(images) || isDownloadingAll {
        return false;
      }
      isDownloadingAll := true;
      started := true;
    }

    /** The end of download-all: record its saves, or log its error instead of passing
        it on, and lower the flag in either case. */
    method FinishDownloadAll(outcome: D.ExportOutcome)
      modifies this
      ensures !isDownloadingAll
      ensures outcome.Saved? ==> saves == old(saves) + outcome.saves && errorLog == old(errorLog)
      ensures outcome.ExportFailed? ==> saves == old(saves) && errorLog == old(errorLog) + [outcome.message]
    {
      match outcome {
        case Saved(events) =>
          saves := saves + events;
        case ExportFailed(message) =>
          errorLog := errorLog + [message];
      }
      isDownloadingAll := false;
    }

    /** Download-all from start to end. A call while one is running, or with nothing
        complete, changes nothing; a started one ends with the flag lowered and exactly
        one save or one logged error. */
    method HandleDownloadAll(images: seq<ImageFile>, generate: D.ArchiveGenerator)
      modifies this
      ensures isDownloadingAll == old(isDownloadingAll)
      ensures !HasCompletedImages(images) || old(isDownloadingAll) ==>
        saves == old(saves) && errorLog == old(errorLog)
      ensures HasCompletedImages(images) && !old(isDownloadingAll) ==>
        var outcome := D.DownloadAllSpec(images, generate);
        (outcome.Saved? ==> saves == old(saves) + outcome.saves && errorLog == old(errorLog)) &&
        (outcome.ExportFailed? ==> saves == old(saves) && errorLog == old(errorLog) + [outcome.message])
      ensures HasCompletedImages(images) && !old(isDownloadingAll) ==>
        (|saves| == |old(saves)| + 1 && errorLog == old(errorLog)) ||
        (saves == old(saves) && |errorLog| == |old(errorLog)| + 1)
    {
      var started := BeginDownloadAll(images);
      if started {
        assert isDownloadingAll;
        var outcome := D.DownloadAllImages(images, generate);
        FinishDownloadAll(outcome);
      }
    }
  }
}
