/** Saving results: the filename rule, the single-image save, and the
    download-all export that saves one image directly or several as one archive.
    Saves are recorded as events; archive generation is a parameter. */
module Download {
  import opened Wrappers
  import opened Seqs
  import opened Types

  /** One call of the platform's save routine: the blob and the name it is saved under. */
  datatype SaveEvent = SaveEvent(blob: Blob, fileName: string)

  /** One named file inside the archive. */
  datatype ZipEntry = ZipEntry(name: string, blob: Blob)

  /** How a download-all ends: the saves it made, or the archive error it passed on. */
  datatype ExportOutcome = Saved(saves: seq<SaveEvent>) | ExportFailed(message: string)

  /** The archive generator: entries become one blob, or generation fails. */
  type ArchiveGenerator = seq<ZipEntry> -> Result<Blob, string>

  const ArchiveName: string := "compressed_images.zip"

  /** The text of a file name before its first dot (the whole name when there is none). */
  function BaseName(name: string): (r: string)
    ensures r <= name
    ensures '.' !in r
    ensures |r| < |name| ==> name[|r|] == '.'
  {
    if name == [] then []
    else if name[0] == '.' then []
    else [name[0]] + BaseName(name[1..])
  }

  /** The three properties above determine the base name. */
  lemma BaseNameUnique(name: string, p: string)
    requires p <= name && '.' !in p
    requires |p| < |name| ==> name[|p|] == '.'
    ensures p == BaseName(name)
  {
    var r := BaseName(name);
    assert p == name[..|p|] && r == name[..|r|];
  }

  /** The extension text: the output type's tag, or "undefined" when no type was recorded,
      as the template string renders an absent value. */
  function ExtensionText(t: Option<OutputType>): (r: string)
    ensures t.Some? ==> r == OutputTypeName(t.value)
    ensures t.None? ==> r == "undefined"
  {
    match t
    case Some(u) => OutputTypeName(u)
    case None => "undefined"
  }

  /** The name a result is saved under: base name, a dot, the extension text. */
  function ExportName(img: ImageFile): (r: string)
    ensures BaseName(img.file.name) <= r
    ensures |r| > |BaseName(img.file.name)| && r[|BaseName(img.file.name)|] == '.'
    ensures r[|BaseName(img.file.name)| + 1..] == ExtensionText(img.outputType)
  {
    BaseName(img.file.name) + "." + ExtensionText(img.outputType)
  }

  /** Names of the examples: "a.b.png" as webp is "a.webp", "a.png" as webp is "a.webp",
      and a name without a dot is kept whole. */
  lemma ExportNameExamples(img: ImageFile)
    ensures img.file.name == "a.b.png" && img.outputType == Some(Webp) ==> ExportName(img) == "a.webp"
    ensures img.file.name == "a.png" && img.outputType == Some(Webp) ==> ExportName(img) == "a.webp"
    ensures img.file.name == "photo" && img.outputType == Some(Png) ==> ExportName(img) == "photo.png"
  {
    assert BaseName(".b.png") == [] && BaseName(".png") == [];
    assert BaseName("a.b.png") == "a" + BaseName(".b.png");
    assert BaseName("a.png") == "a" + BaseName(".png");
  }

  /** Saving one image: nothing without a blob, otherwise one save under the export name. */
  function DownloadImage(img: ImageFile): (r: seq<SaveEvent>)
    ensures r == [] <==> img.blob.None?
    ensures img.blob.Some? ==> r == [SaveEvent(img.blob.value, ExportName(img))]
  {
    match img.blob
    case None => []
    case Some(b) => [SaveEvent(b, ExportName(img))]
  }

  /** The items a download-all considers: complete and holding a blob, in list order. */
  function ExportableImages(images: seq<ImageFile>): (r: seq<ImageFile>)
    ensures forall img :: img in r <==> img in images && IsExportable(img)
    ensures |r| <= |images|
  {
    Filter(IsExportable, images)
  }

  /** The exportable items of a concatenation are those of each part, in order. */
  lemma ExportableConcat(a: seq<ImageFile>, b: seq<ImageFile>)
    ensures ExportableImages(a + b) == ExportableImages(a) + ExportableImages(b)
  {
    FilterConcat(IsExportable, a, b);
  }

  function Names(entries: seq<ZipEntry>): set<string> {
    set e | e in entries :: e.name
  }

  predicate UniqueNames(entries: seq<ZipEntry>) {
    forall i, j :: 0 <= i < j < |entries| ==> entries[i].name != entries[j].name
  }

  /** Adding a file to the archive: a file of the same name is replaced in place,
      otherwise the file is appended. */
  function PutEntry(entries: seq<ZipEntry>, name: string, blob: Blob): (r: seq<ZipEntry>)
    ensures |r| == if name in Names(entries) then |entries| else |entries| + 1
  {
    if entries == [] then [ZipEntry(name, blob)]
    else if entries[0].name == name then
      NamesCons(entries[0], entries[1..]);
      [ZipEntry(name, blob)] + entries[1..]
    else
      NamesCons(entries[0], entries[1..]);
      [entries[0]] + PutEntry(entries[1..], name, blob)
  }

  lemma NamesCons(e: ZipEntry, rest: seq<ZipEntry>)
    ensures Names([e] + rest) == {e.name} + Names(rest)
  {
    assert forall x :: x in [e] + rest <==> x == e || x in rest;
  }

  lemma NotInNames(entries: seq<ZipEntry>, name: string)
    requires forall k :: 0 <= k < |entries| ==> entries[k].name != name
    ensures name !in Names(entries)
  {
  }

  /** Adding a file adds its name to the archive's names and removes none. */
  lemma {:induction false} PutEntryNames(entries: seq<ZipEntry>, name: string, blob: Blob)
    ensures Names(PutEntry(entries, name, blob)) == Names(entries) + {name}
  {
    if entries == [] {
      NamesCons(ZipEntry(name, blob), []);
    } else {
      assert entries == [entries[0]] + entries[1..];
      NamesCons(entries[0], entries[1..]);
      if entries[0].name == name {
        NamesCons(ZipEntry(name, blob), entries[1..]);
      } else {
        PutEntryNames(entries[1..], name, blob);
        NamesCons(entries[0], PutEntry(entries[1..], name, blob));
      }
    }
  }

  /** A new name is appended at the end. */
  lemma {:induction false} PutEntryAppendsNew(entries: seq<ZipEntry>, name: string, blob: Blob)
    requires name !in Names(entries)
    ensures PutEntry(entries, name, blob) == entries + [ZipEntry(name, blob)]
  {
    if entries != [] {
      NamesCons(entries[0], entries[1..]);
      assert entries == [entries[0]] + entries[1..];
      PutEntryAppendsNew(entries[1..], name, blob);
    }
  }

  /** The added file is present, the files of other names survive, nothing else appears,
      and names stay unique. */
  lemma {:induction false} PutEntryContents(entries: seq<ZipEntry>, name: string, blob: Blob)
    ensures ZipEntry(name, blob) in PutEntry(entries, name, blob)
    ensures forall e :: e in entries && e.name != name ==> e in PutEntry(entries, name, blob)
    ensures forall e :: e in PutEntry(entries, name, blob) ==> e in entries || e == ZipEntry(name, blob)
    ensures UniqueNames(entries) ==> UniqueNames(PutEntry(entries, name, blob))
  {
    if entries != [] && entries[0].name != name {
      PutEntryContents(entries[1..], name, blob);
      PutEntryNames(entries[1..], name, blob);
      var rest := PutEntry(entries[1..], name, blob);
      assert entries == [entries[0]] + entries[1..];
      if UniqueNames(entries) {
        assert forall k :: 0 < k < |entries| ==> entries[k] in entries[1..];
        assert forall e :: e in rest ==> e.name != entries[0].name;
      }
    }
  }

  /** The archive the many-items branch builds: each item with a blob added in list order. */
  function ArchiveEntries(items: seq<ImageFile>): (r: seq<ZipEntry>)
    ensures UniqueNames(r)
    ensures |r| <= |items|
    decreases |items|
  {
    if items == [] then []
    else
      var prev := ArchiveEntries(items[..|items| - 1]);
      var img := items[|items| - 1];
      if img.blob.Some? then
        PutEntryContents(prev, ExportName(img), img.blob.value);
        PutEntry(prev, ExportName(img), img.blob.value)
      else prev
  }

  /** The export names of the items that hold a blob. */
  function ItemNames(items: seq<ImageFile>): set<string>
    decreases |items|
  {
    if items == [] then {}
    else
      var img := items[|items| - 1];
      ItemNames(items[..|items| - 1]) + if img.blob.Some? then {ExportName(img)} else {}
  }

  /** A name is an item name exactly when some item with a blob is exported under it. */
  lemma {:induction false} ItemNamesMembership(items: seq<ImageFile>, name: string)
    ensures name in ItemNames(items) <==>
      exists k :: 0 <= k < |items| && items[k].blob.Some? && ExportName(items[k]) == name
  {
    if items != [] {
      var last := |items| - 1;
      var init := items[..last];
      ItemNamesMembership(init, name);
      var here := items[last].blob.Some? && ExportName(items[last]) == name;
      assert ItemNames(items) == ItemNames(init) + if items[last].blob.Some? then {ExportName(items[last])} else {};
      if name in ItemNames(init) {
        var k :| 0 <= k < |init| && init[k].blob.Some? && ExportName(init[k]) == name;
        assert items[k] == init[k];
      } else if !here {
        forall k | 0 <= k < |items| && items[k].blob.Some?
          ensures ExportName(items[k]) != name
        {
          if k < last {
            assert items[k] == init[k];
          }
        }
      }
    }
  }

  /** The archive's names are exactly the items' export names: no item with a blob is
      missing, and no entry is invented. */
  lemma {:induction false} ArchiveNames(items: seq<ImageFile>)
    ensures Names(ArchiveEntries(items)) == ItemNames(items)
  {
    if items != [] {
      var last := |items| - 1;
      ArchiveNames(items[..last]);
      if items[last].blob.Some? {
        PutEntryNames(ArchiveEntries(items[..last]), ExportName(items[last]), items[last].blob.value);
      }
    }
  }

  /** When all items hold blobs and their export names are distinct, the archive has
      exactly one entry per item, in list order. */
  lemma {:induction false} OneEntryPerItem(items: seq<ImageFile>)
    requires forall k :: 0 <= k < |items| ==> items[k].blob.Some?
    requires forall i, j :: 0 <= i < j < |items| ==> ExportName(items[i]) != ExportName(items[j])
    ensures |ArchiveEntries(items)| == |items|
    ensures forall k :: 0 <= k < |items| ==>
      ArchiveEntries(items)[k] == ZipEntry(ExportName(items[k]), items[k].blob.value)
  {
    if items != [] {
      var last := |items| - 1;
      var init, img := items[..last], items[last];
      OneEntryPerItem(init);
      var prev := ArchiveEntries(init);
      var name := ExportName(img);
      assert forall k :: 0 <= k < |prev| ==> prev[k].name == ExportName(items[k]) != name;
      NotInNames(prev, name);
      PutEntryAppendsNew(prev, name, img.blob.value);
      var r := ArchiveEntries(items);
      assert r == prev + [ZipEntry(name, img.blob.value)];
      forall k | 0 <= k < |items|
        ensures r[k] == ZipEntry(ExportName(items[k]), items[k].blob.value)
      {
        if k < last {
          assert r[k] == prev[k];
          assert init[k] == items[k];
          assert prev[k] == ZipEntry(ExportName(init[k]), init[k].blob.value);
        } else {
          assert k == last;
          assert r[k] == ZipEntry(name, img.blob.value);
        }
      }
    }
  }

  /** Two items exported under the same name collide: the archive keeps one entry,
      holding the later item's blob. */
  lemma NameCollisionKeepsLast(first: ImageFile, second: ImageFile)
    requires first.blob.Some? && second.blob.Some?
    requires ExportName(first) == ExportName(second)
    ensures ArchiveEntries([first, second]) == [ZipEntry(ExportName(second), second.blob.value)]
  {
    assert [first, second][..1] == [first];
    assert [first][..0] == [];
    assert ArchiveEntries([first]) == [ZipEntry(ExportName(first), first.blob.value)];
  }

  /** Item `k` is the last item with a blob exported under `name`. */
  predicate LastExportedAs(items: seq<ImageFile>, name: string, k: int) {
    && 0 <= k < |items|
    && items[k].blob.Some?
    && ExportName(items[k]) == name
    && forall j :: k < j < |items| && items[j].blob.Some? ==> ExportName(items[j]) != name
  }

  /** Every archive entry holds the blob of the last item exported under its name,
      so a later item always replaces an earlier one of the same name. */
  lemma {:induction false} EntriesHoldLastBlob(items: seq<ImageFile>)
    ensures forall e :: e in ArchiveEntries(items) ==>
      exists k :: LastExportedAs(items, e.name, k) && e.blob == items[k].blob.value
  {
    if items != [] {
      var last := |items| - 1;
      var init, img := items[..last], items[last];
      EntriesHoldLastBlob(init);
      var prev := ArchiveEntries(init);
      forall e | e in ArchiveEntries(items)
        ensures exists k :: LastExportedAs(items, e.name, k) && e.blob == items[k].blob.value
      {
        if img.blob.Some? && e.name == ExportName(img) {
          AddedEntryIsNew(prev, ExportName(img), img.blob.value, e);
          assert LastExportedAs(items, e.name, last);
        } else {
          if img.blob.Some? {
            PutEntryContents(prev, ExportName(img), img.blob.value);
          }
          assert e in prev;
          var k :| LastExportedAs(init, e.name, k) && e.blob == init[k].blob.value;
          LastExportedExtends(items, e.name, k);
        }
      }
    }
  }

  /** After adding a file, the only entry of its name is the added one. */
  lemma AddedEntryIsNew(prev: seq<ZipEntry>, name: string, blob: Blob, e: ZipEntry)
    requires UniqueNames(prev)
    requires e in PutEntry(prev, name, blob) && e.name == name
    ensures e == ZipEntry(name, blob)
  {
    PutEntryContents(prev, name, blob);
    var r := PutEntry(prev, name, blob);
    var i :| 0 <= i < |r| && r[i] == e;
    var j :| 0 <= j < |r| && r[j] == ZipEntry(name, blob);
    assert i == j;
  }

  /** The last item exported under a name stays the last when an item that is not
      exported under that name is appended. */
  lemma LastExportedExtends(items: seq<ImageFile>, name: string, k: int)
    requires items != []
    requires LastExportedAs(items[..|items| - 1], name, k)
    requires items[|items| - 1].blob.None? || ExportName(items[|items| - 1]) != name
    ensures LastExportedAs(items, name, k) && items[k] == items[..|items| - 1][k]
  {
    var init := items[..|items| - 1];
    assert forall j :: k < j < |init| ==> items[j] == init[j];
  }

  /** The archive object, holding the entries added so far. */
  class Zip {
    var entries: seq<ZipEntry>

    constructor ()
      ensures entries == []
    {
      entries := [];
    }

    /** Add one named file, replacing a file of the same name. */
    method File(name: string, blob: Blob)
      modifies this
      ensures entries == PutEntry(old(entries), name, blob)
    {
      entries := PutEntry(entries, name, blob);
    }
  }

  /** The outcome of a download-all: nothing for no exportable item, a direct save for one,
      and for several one archive saved as "compressed_images.zip" or the generator's error. */
  function DownloadAllSpec(images: seq<ImageFile>, generate: ArchiveGenerator): (r: ExportOutcome)
    ensures r.Saved? ==> |r.saves| <= 1
    ensures r == Saved([]) <==> ExportableImages(images) == []
    ensures |ExportableImages(images)| == 1 ==>
      r == Saved(DownloadImage(ExportableImages(images)[0])) &&
      r.saves == [SaveEvent(ExportableImages(images)[0].blob.value, ExportName(ExportableImages(images)[0]))]
    ensures |ExportableImages(images)| >= 2 ==>
      var archive := generate(ArchiveEntries(ExportableImages(images)));
      (archive.Ok? ==> r == Saved([SaveEvent(archive.value, ArchiveName)])) &&
      (archive.Err? ==> r == ExportFailed(archive.error))
    ensures r.ExportFailed? ==> |ExportableImages(images)| >= 2
  {
    var processed := ExportableImages(images);
    if |processed| == 0 then Saved([])
    else if |processed| == 1 then
      assert processed[0] in processed;
      Saved(DownloadImage(processed[0]))
    else
      match generate(ArchiveEntries(processed))
      case Ok(zipBlob) => Saved([SaveEvent(zipBlob, ArchiveName)])
      case Err(e) => ExportFailed(e)
  }

  /** Download-all as the source runs it: filter, branch on the count, and for several items
      fill an archive one item at a time before generating and saving it. */
  method DownloadAllImages(images: seq<ImageFile>, generate: ArchiveGenerator) returns (outcome: ExportOutcome)
    ensures outcome == DownloadAllSpec(images, generate)
  {
    var processed := ExportableImages(images);
    if |processed| == 0 {
      return Saved([]);
    }
    if |processed| == 1 {
      return Saved(DownloadImage(processed[0]));
    }
    var zip := new Zip();
    var i := 0;
    while i < |processed|
      invariant 0 <= i <= |processed|
      invariant zip.entries == ArchiveEntries(processed[..i])
    {
      var image := processed[i];
      assert processed[..i + 1][..i] == processed[..i];
      if image.blob.Some? {
        zip.File(ExportName(image), image.blob.value);
      }
      i := i + 1;
    }
    assert processed[..i] == processed;
    match generate(zip.entries)
    case Ok(zipBlob) =>
      outcome := Saved([SaveEvent(zipBlob, ArchiveName)]);
    case Err(e) =>
      outcome := ExportFailed(e);
  }
}
