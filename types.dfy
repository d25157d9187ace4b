/** The shared data model of the image list: output types, item statuses and
    the image record with its optional result fields. */
module Types {
  import opened Wrappers

  newtype byte = x: int | 0 <= x < 256

  /** The lowercase output type recorded on a finished item. */
  datatype OutputType = Avif | Jpeg | Jxl | Png | Webp

  /** The lifecycle status of one item. */
  datatype ImageStatus = Pending | Queued | Processing | Complete | Error

  /** A user-supplied file: its name and contents; its size is the byte count. */
  datatype File = File(name: string, bytes: seq<byte>)
  {
    function Size(): nat { |bytes| }
  }

  /** A byte blob tagged with its mime type. */
  datatype Blob = Blob(bytes: seq<byte>, mimeType: string)

  /** One entry of the image list; every field after `status` except `originalSize` may be absent. */
  datatype ImageFile = ImageFile(
    id: string,
    file: File,
    originalSize: nat,
    preview: Option<string>,
    status: ImageStatus,
    blob: Option<Blob>,
    compressedSize: Option<nat>,
    outputType: Option<OutputType>,
    error: Option<string>)

  /** Options of a compression request: a single numeric quality. */
  datatype CompressionOptions = CompressionOptions(quality: int)

  const OutputTypeNames: set<string> := {"avif", "jpeg", "jxl", "png", "webp"}

  const StatusNames: set<string> := {"pending", "queued", "processing", "complete", "error"}

  predicate IsLowerAscii(s: string) {
    forall k :: 0 <= k < |s| ==> 'a' <= s[k] <= 'z'
  }

  /** The string tag of an output type. */
  function OutputTypeName(t: OutputType): (s: string)
    ensures s in OutputTypeNames
    ensures IsLowerAscii(s) && 3 <= |s| <= 4
  {
    match t
    case Avif => "avif"
    case Jpeg => "jpeg"
    case Jxl => "jxl"
    case Png => "png"
    case Webp => "webp"
  }

  /** The string tag of a status. */
  function StatusName(s: ImageStatus): (r: string)
    ensures r in StatusNames
    ensures IsLowerAscii(r)
  {
    match s
    case Pending => "pending"
    case Queued => "queued"
    case Processing => "processing"
    case Complete => "complete"
    case Error => "error"
  }

  /** Distinct output types have distinct tags, and the five tags are all used. */
  lemma OutputTypeNamesAreExact()
    ensures forall t, u :: OutputTypeName(t) == OutputTypeName(u) ==> t == u
    ensures forall name :: name in OutputTypeNames <==> exists t :: OutputTypeName(t) == name
  {
    assert OutputTypeName(Avif) == "avif" && OutputTypeName(Jpeg) == "jpeg";
    assert OutputTypeName(Jxl) == "jxl" && OutputTypeName(Png) == "png" && OutputTypeName(Webp) == "webp";
  }

  /** Distinct statuses have distinct tags, and the five tags are all used. */
  lemma StatusNamesAreExact()
    ensures forall s, u :: StatusName(s) == StatusName(u) ==> s == u
    ensures forall name :: name in StatusNames <==> exists s :: StatusName(s) == name
  {
    assert StatusName(Pending) == "pending" && StatusName(Queued) == "queued";
    assert StatusName(Processing) == "processing" && StatusName(Complete) == "complete";
    assert StatusName(Error) == "error";
  }

  /** An item counts as downloadable when it is complete and holds a blob. */
  function IsExportable(img: ImageFile): (b: bool)
    ensures b <==> StatusName(img.status) == "complete" && img.blob.Some?
  {
    img.status == Complete && img.blob.Some?
  }
}
