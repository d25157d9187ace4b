/** The top-level processor component: the output-format enum, its default
    settings, and the three updates it applies to its list of images. */
module ImageProcessor {
  import opened Wrappers
  import opened Seqs
  import T = Types

  /** The output formats the user can choose, written in upper case. */
  datatype OutputFormat = AVIF | JPEG | JXL | PNG | WEBP

  /** The string value of a format. */
  function FormatTag(f: OutputFormat): (s: string)
    ensures s in {"AVIF", "JPEG", "JXL", "PNG", "WEBP"}
  {
    match f
    case AVIF => "AVIF"
    case JPEG => "JPEG"
    case JXL => "JXL"
    case PNG => "PNG"
    case WEBP => "WEBP"
  }

  /** The formats in the order the selector offers them. */
  const Formats: seq<OutputFormat> := [AVIF, JPEG, JXL, PNG, WEBP]

  /** The selector lists every format exactly once. */
  lemma FormatsListEachOnce()
    ensures forall f :: f in Formats
    ensures forall i, j :: 0 <= i < j < |Formats| ==> Formats[i] != Formats[j]
  {
    forall f ensures f in Formats {
      match f
      case AVIF => assert Formats[0] == f;
      case JPEG => assert Formats[1] == f;
      case JXL => assert Formats[2] == f;
      case PNG => assert Formats[3] == f;
      case WEBP => assert Formats[4] == f;
    }
  }

  /** The processor's own record of an image. */
  datatype ImageFile = ImageFile(
    id: string,
    file: T.File,
    preview: string,
    processed: bool,
    processingError: Option<string>)

  predicate UniqueIds(images: seq<ImageFile>) {
    forall i, j :: 0 <= i < j < |images| ==> images[i].id != images[j].id
  }

  function Ids(images: seq<ImageFile>): (r: seq<string>)
    ensures |r| == |images|
    ensures forall k :: 0 <= k < |r| ==> r[k] == images[k].id
  {
    seq(|images|, k requires 0 <= k < |images| => images[k].id)
  }

  /** The records created for newly added files: one per file, in input order, with the
      file's identifier and preview, not yet processed and without error. */
  function NewImages(files: seq<T.File>, ids: seq<string>, previews: seq<string>): (r: seq<ImageFile>)
    requires |ids| == |files| && |previews| == |files|
    ensures |r| == |files|
    ensures forall k :: 0 <= k < |files| ==>
      r[k].file == files[k] && r[k].id == ids[k] && r[k].preview == previews[k] &&
      !r[k].processed && r[k].processingError.None?
  {
    seq(|files|, k requires 0 <= k < |files| => ImageFile(ids[k], files[k], previews[k], false, None))
  }

  /** The completion step: every record, old or new, is marked processed, and nothing
      else about it changes. */
  function MarkAllProcessed(images: seq<ImageFile>): (r: seq<ImageFile>)
    ensures |r| == |images|
    ensures forall k :: 0 <= k < |images| ==>
      r[k].processed && r[k].id == images[k].id && r[k].file == images[k].file &&
      r[k].preview == images[k].preview && r[k].processingError == images[k].processingError
  {
    seq(|images|, k requires 0 <= k < |images| => images[k].(processed := true))
  }

  /** The test applied by removal: keep a record unless it carries `id`. */
  function IdIsNot(id: string): (keep: ImageFile -> bool)
    ensures forall img :: keep(img) <==> img.id != id
  {
    (img: ImageFile) => img.id != id
  }

  /** The list without the records carrying `id`. */
  function RemoveById(images: seq<ImageFile>, id: string): (r: seq<ImageFile>)
    ensures forall img :: img in r <==> img in images && img.id != id
    ensures |r| <= |images|
  {
    Filter(IdIsNot(id), images)
  }

  /** Marking twice is marking once, and marking keeps the identifiers in order. */
  lemma MarkAllProcessedIdempotent(images: seq<ImageFile>)
    ensures MarkAllProcessed(MarkAllProcessed(images)) == MarkAllProcessed(images)
    ensures Ids(MarkAllProcessed(images)) == Ids(images)
  {
  }

  /** Removing an identifier that no record carries changes nothing. */
  lemma {:induction false} RemoveAbsentId(images: seq<ImageFile>, id: string)
    requires forall k :: 0 <= k < |images| ==> images[k].id != id
    ensures RemoveById(images, id) == images
  {
    FilterKeepsAll(IdIsNot(id), images);
  }

  /** With unique identifiers, removing a present identifier drops exactly that one record
      and keeps the others in order. */
  lemma RemovePresentId(images: seq<ImageFile>, k: nat)
    requires UniqueIds(images) && k < |images|
    ensures RemoveById(images, images[k].id) == images[..k] + images[k + 1..]
  {
    var id := images[k].id;
    var p := IdIsNot(id);
    assert images == images[..k] + ([images[k]] + images[k + 1..]);
    FilterConcat(p, images[..k], [images[k]] + images[k + 1..]);
    FilterConcat(p, [images[k]], images[k + 1..]);
    FilterKeepsAll(p, images[..k]);
    FilterKeepsAll(p, images[k + 1..]);
    assert Filter(p, [images[k]]) == [];
  }

  /** Removal and marking commute, so a removal before or after the delayed completion
      step leaves the same list. */
  lemma {:induction false} RemoveCommutesWithMark(images: seq<ImageFile>, id: string)
    ensures MarkAllProcessed(RemoveById(images, id)) == RemoveById(MarkAllProcessed(images), id)
  {
    if images != [] {
      var p := IdIsNot(id);
      var head, tail := images[0], images[1..];
      var marked := MarkAllProcessed(images);
      assert marked[0] == head.(processed := true);
      assert marked[1..] == MarkAllProcessed(tail);
      RemoveCommutesWithMark(tail, id);
      if p(head) {
        assert MarkAllProcessed([head] + Filter(p, tail)) ==
          [head.(processed := true)] + MarkAllProcessed(Filter(p, tail));
      }
    }
  }

  /** Appending records whose identifiers are new and distinct keeps identifiers unique. */
  lemma AppendKeepsUniqueIds(prev: seq<ImageFile>, added: seq<ImageFile>)
    requires UniqueIds(prev) && UniqueIds(added)
    requires forall i, j :: 0 <= i < |prev| && 0 <= j < |added| ==> prev[i].id != added[j].id
    ensures UniqueIds(prev + added)
  {
  }

  /** Removal keeps identifiers unique. */
  lemma RemoveKeepsUniqueIds(images: seq<ImageFile>, id: string)
    requires UniqueIds(images)
    ensures UniqueIds(RemoveById(images, id))
  {
    RemoveKeepsUniqueIdsRec(images, id);
  }

  lemma {:induction false} RemoveKeepsUniqueIdsRec(images: seq<ImageFile>, id: string)
    requires UniqueIds(images)
    ensures UniqueIds(RemoveById(images, id))
    ensures forall img :: img in RemoveById(images, id) ==> img in images
  {
    if images != [] {
      RemoveKeepsUniqueIdsRec(images[1..], id);
    }
  }

  /** Identifiers for added records are fresh: distinct from each other and from
      every identifier already in the list, as random UUIDs are assumed to be. */
  predicate FreshIds(images: seq<ImageFile>, ids: seq<string>) {
    && (forall i, j :: 0 <= i < j < |ids| ==> ids[i] != ids[j])
    && (forall i, k :: 0 <= i < |ids| && 0 <= k < |images| ==> ids[i] != images[k].id)
  }

  /** The component's state: the list of images and the chosen format and quality. */
  class Processor {
    var images: seq<ImageFile>
    var outputFormat: OutputFormat
    var quality: int

    /** No two records in the list share an identifier. */
    predicate Valid()
      reads this
    {
      UniqueIds(images)
    }

    /** Initially no images, format AVIF and quality 50. */
    constructor ()
      ensures images == [] && outputFormat == AVIF && quality == 50
      ensures Valid()
    {
      images := [];
      outputFormat := AVIF;
      quality := 50;
    }

    /** Adding files appends one unprocessed record per file after the existing ones.
        `ids` and `previews` are the identifiers and preview handles the platform created;
        fresh identifiers keep the identifiers unique. */
    method HandleFilesAdded(files: seq<T.File>, ids: seq<string>, previews: seq<string>)
      requires |ids| == |files| && |previews| == |files|
      modifies this
      ensures images == old(images) + NewImages(files, ids, previews)
      ensures |images| == |old(images)| + |files|
      ensures images[..|old(images)|] == old(images)
      ensures forall k :: 0 <= k < |files| ==>
        images[|old(images)| + k].file == files[k] && !images[|old(images)| + k].processed
      ensures old(Valid()) && FreshIds(old(images), ids) ==> Valid()
      ensures outputFormat == old(outputFormat) && quality == old(quality)
    {
      var added := NewImages(files, ids, previews);
      if Valid() && FreshIds(images, ids) {
        AppendKeepsUniqueIds(images, added);
      }
      images := images + added;
    }

    /** The delayed completion step marks every record processed. */
    method CompleteSimulatedProcessing()
      modifies this
      ensures images == MarkAllProcessed(old(images))
      ensures |images| == |old(images)| && forall k :: 0 <= k < |images| ==> images[k].processed
      ensures Ids(images) == Ids(old(images))
      ensures old(Valid()) ==> Valid()
      ensures outputFormat == old(outputFormat) && quality == old(quality)
    {
      MarkAllProcessedIdempotent(images);
      images := MarkAllProcessed(images);
    }

    /** Removing an identifier drops exactly the records that carry it, keeping the others in
        order; with unique identifiers that is the one record at the identifier's position. */
    method HandleRemoveImage(id: string)
      modifies this
      ensures images == RemoveById(old(images), id)
      ensures forall img :: img in images <==> img in old(images) && img.id != id
      ensures old(Valid()) ==> Valid()
      ensures old(Valid()) ==> forall k :: 0 <= k < |old(images)| && old(images)[k].id == id ==>
        images == old(images)[..k] + old(images)[k + 1..]
      ensures outputFormat == old(outputFormat) && quality == old(quality)
    {
      if Valid() {
        RemoveKeepsUniqueIds(images, id);
        forall k | 0 <= k < |images| && images[k].id == id
          ensures RemoveById(images, id) == images[..k] + images[k + 1..]
        {
          RemovePresentId(images, k);
        }
      }
      images := RemoveById(images, id);
    }
  }
}
