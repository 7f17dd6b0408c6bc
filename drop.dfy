/** The disk-image ingestion of `handleDrop`: collecting the dropped files
    and splitting them into files uploaded straight away and disk images
    deferred until a restart. Whether a name is a disk image, and whether
    the emulator backend mounts images while running, are decided by code
    outside this model and come in as parameters. */
module DiskDrop {
  import opened Common

  datatype File = File(name: string, contents: seq<bv8>)

  /** An entry of `dataTransfer.items`: only `file` entries carry a file. */
  datatype DropItem = FileItem(file: File) | StringItem(data: string)

  /** What the drop event carries: the item list, the file list, either or
      neither. */
  datatype DataTransfer = DataTransfer(items: Option<seq<DropItem>>, files: Option<seq<File>>)

  /** The files of the `file` items, in order. */
  function FileItems(items: seq<DropItem>): (r: seq<File>)
    ensures |r| <= |items|
    ensures forall f :: f in r <==> FileItem(f) in items
    decreases |items|
  {
    if items == [] then []
    else
      var init := items[..|items| - 1];
      var last := items[|items| - 1];
      assert items == init + [last];
      if last.FileItem? then FileItems(init) + [last.file] else FileItems(init)
  }

  /** Each file is collected as often as an item carries it. */
  lemma {:induction false} FileItemsMultiplicity(items: seq<DropItem>, f: File)
    ensures multiset(FileItems(items))[f] == multiset(items)[FileItem(f)]
    decreases |items|
  {
    if items != [] {
      var init := items[..|items| - 1];
      var last := items[|items| - 1];
      FileItemsMultiplicity(init, f);
      assert items == init + [last];
      assert multiset(items) == multiset(init) + multiset{last};
      if last.FileItem? {
        assert multiset(FileItems(items)) == multiset(FileItems(init)) + multiset{last.file};
      }
    }
  }

  /** The order of the items is kept: the files of two item lists one
      after the other are the files of the first followed by those of the
      second, and a single item gives its file or nothing. */
  lemma {:induction false} FileItemsConcat(a: seq<DropItem>, b: seq<DropItem>)
    ensures FileItems(a + b) == FileItems(a) + FileItems(b)
    decreases |b|
  {
    if b == [] {
      assert a + b == a;
    } else {
      var init := b[..|b| - 1];
      var last := b[|b| - 1];
      FileItemsConcat(a, init);
      assert (a + b)[..|a + b| - 1] == a + init;
      assert (a + b)[|a + b| - 1] == last;
      if last.FileItem? {
        assert FileItems(a + b) == FileItems(a + init) + [last.file];
        assert FileItems(b) == FileItems(init) + [last.file];
      } else {
        assert FileItems(a + b) == FileItems(a + init);
        assert FileItems(b) == FileItems(init);
      }
    }
  }

  /** A single item gives its file, or nothing. */
  lemma FileItemsSingle(x: DropItem)
    ensures FileItems([x]) == if x.FileItem? then [x.file] else []
  {
    assert [x][..0] == [];
  }

  /** The item list wins when there is one, even an empty one; otherwise
      the file list; otherwise nothing. */
  function DroppedFiles(dt: DataTransfer): (r: seq<File>)
    ensures dt.items.Some? ==> forall f :: f in r <==> FileItem(f) in dt.items.value
    ensures dt.items.None? && dt.files.Some? ==> r == dt.files.value
    ensures dt.items.None? && dt.files.None? ==> r == []
  {
    if dt.items.Some? then FileItems(dt.items.value)
    else if dt.files.Some? then dt.files.value
    else []
  }

  /** The two collection loops of `handleDrop`. */
  method CollectFiles(dt: DataTransfer) returns (files: seq<File>)
    ensures files == DroppedFiles(dt)
  {
    files := [];
    if dt.items.Some? {
      var items := dt.items.value;
      for i := 0 to |items|
        invariant files == FileItems(items[..i])
      {
        assert items[..i + 1][..i] == items[..i];
        if items[i].FileItem? {
          files := files + [items[i].file];
        }
      }
      assert items[..|items|] == items;
    } else if dt.files.Some? {
      var list := dt.files.value;
      for i := 0 to |list|
        invariant files == list[..i]
      {
        files := files + [list[i]];
      }
    }
  }

  /** A file is deferred when it is a disk image the backend cannot mount
      while running. */
  predicate Deferred(f: File, isDiskImageFile: string -> bool, handlesDiskImages: bool)
  {
    isDiskImageFile(f.name) && !handlesDiskImages
  }

  /** The files passed to `uploadFile`, in drop order. */
  function HotUploads(files: seq<File>, isDiskImageFile: string -> bool, handlesDiskImages: bool): (r: seq<File>)
    ensures |r| <= |files|
    ensures forall f :: f in r <==> f in files && !Deferred(f, isDiskImageFile, handlesDiskImages)
    decreases |files|
  {
    if files == [] then []
    else
      assert files == files[..|files| - 1] + [files[|files| - 1]];
      var rest := HotUploads(files[..|files| - 1], isDiskImageFile, handlesDiskImages);
      var last := files[|files| - 1];
      if Deferred(last, isDiskImageFile, handlesDiskImages) then rest else rest + [last]
  }

  /** The files collected for `uploadDiskImage`, in drop order. */
  function DeferredImages(files: seq<File>, isDiskImageFile: string -> bool, handlesDiskImages: bool): (r: seq<File>)
    ensures |r| <= |files|
    ensures forall f :: f in r <==> f in files && Deferred(f, isDiskImageFile, handlesDiskImages)
    decreases |files|
  {
    if files == [] then []
    else
      assert files == files[..|files| - 1] + [files[|files| - 1]];
      var rest := DeferredImages(files[..|files| - 1], isDiskImageFile, handlesDiskImages);
      var last := files[|files| - 1];
      if Deferred(last, isDiskImageFile, handlesDiskImages) then rest + [last] else rest
  }

  /** The number of dropped disk images, mounted or deferred. */
  function CountDiskImages(files: seq<File>, isDiskImageFile: string -> bool): (r: nat)
    ensures r <= |files|
    ensures r == 0 <==> forall i :: 0 <= i < |files| ==> !isDiskImageFile(files[i].name)
    decreases |files|
  {
    if files == [] then 0
    else
      assert forall i :: 0 <= i < |files| - 1 ==> files[i] == files[..|files| - 1][i];
      CountDiskImages(files[..|files| - 1], isDiskImageFile)
        + (if isDiskImageFile(files[|files| - 1].name) then 1 else 0)
  }

  /** The classification loop of `handleDrop`: each file is either
      uploaded or deferred, and counted as a file or as a disk image. */
  method ClassifyDrop(files: seq<File>, isDiskImageFile: string -> bool, handlesDiskImages: bool)
    returns (uploaded: seq<File>, diskImages: seq<File>, fileCount: nat, diskImageCount: nat)
    ensures uploaded == HotUploads(files, isDiskImageFile, handlesDiskImages)
    ensures diskImages == DeferredImages(files, isDiskImageFile, handlesDiskImages)
    ensures diskImageCount == CountDiskImages(files, isDiskImageFile)
    ensures fileCount + diskImageCount == |files|
  {
    uploaded, diskImages := [], [];
    fileCount, diskImageCount := 0, 0;
    for i := 0 to |files|
      invariant uploaded == HotUploads(files[..i], isDiskImageFile, handlesDiskImages)
      invariant diskImages == DeferredImages(files[..i], isDiskImageFile, handlesDiskImages)
      invariant diskImageCount == CountDiskImages(files[..i], isDiskImageFile)
      invariant fileCount + diskImageCount == i
    {
      var file := files[i];
      assert files[..i + 1][..i] == files[..i];
      if isDiskImageFile(file.name) {
        diskImageCount := diskImageCount + 1;
        if !handlesDiskImages {
          diskImages := diskImages + [file];
          continue;
        }
      } else {
        fileCount := fileCount + 1;
      }
      uploaded := uploaded + [file];
    }
    assert files[..|files|] == files;
  }

  /** The drop is partitioned: every dropped file lands in exactly one of
      the two lists, as often as it was dropped; a file that is not a
      deferred image is uploaded straight away, a deferred image is not. */
  lemma {:induction false} DropPartitions(files: seq<File>, isDiskImageFile: string -> bool, handlesDiskImages: bool)
    ensures
      var hot := HotUploads(files, isDiskImageFile, handlesDiskImages);
      var deferred := DeferredImages(files, isDiskImageFile, handlesDiskImages);
      && multiset(hot) + multiset(deferred) == multiset(files)
      && |hot| + |deferred| == |files|
      && (forall f :: f in hot ==> !Deferred(f, isDiskImageFile, handlesDiskImages))
      && (forall f :: f in deferred ==> Deferred(f, isDiskImageFile, handlesDiskImages))
    decreases |files|
  {
    if files != [] {
      var init := files[..|files| - 1];
      var last := files[|files| - 1];
      DropPartitions(init, isDiskImageFile, handlesDiskImages);
      assert files == init + [last];
      var hot := HotUploads(init, isDiskImageFile, handlesDiskImages);
      var deferred := DeferredImages(init, isDiskImageFile, handlesDiskImages);
      assert multiset(files) == multiset(init) + multiset{last};
      if Deferred(last, isDiskImageFile, handlesDiskImages) {
        assert HotUploads(files, isDiskImageFile, handlesDiskImages) == hot;
        assert DeferredImages(files, isDiskImageFile, handlesDiskImages) == deferred + [last];
        assert multiset(deferred + [last]) == multiset(deferred) + multiset{last};
      } else {
        assert HotUploads(files, isDiskImageFile, handlesDiskImages) == hot + [last];
        assert DeferredImages(files, isDiskImageFile, handlesDiskImages) == deferred;
        assert multiset(hot + [last]) == multiset(hot) + multiset{last};
      }
    }
  }

  /** Every file that is not a deferred image gets exactly as many uploads
      as it was dropped, and a deferred image none. */
  lemma UploadMultiplicity(files: seq<File>, isDiskImageFile: string -> bool, handlesDiskImages: bool, f: File)
    ensures multiset(HotUploads(files, isDiskImageFile, handlesDiskImages))[f] ==
      if Deferred(f, isDiskImageFile, handlesDiskImages) then 0 else multiset(files)[f]
    ensures multiset(DeferredImages(files, isDiskImageFile, handlesDiskImages))[f] ==
      if Deferred(f, isDiskImageFile, handlesDiskImages) then multiset(files)[f] else 0
  {
    DropPartitions(files, isDiskImageFile, handlesDiskImages);
    var hot := HotUploads(files, isDiskImageFile, handlesDiskImages);
    var deferred := DeferredImages(files, isDiskImageFile, handlesDiskImages);
    if Deferred(f, isDiskImageFile, handlesDiskImages) {
      assert f !in hot;
    } else {
      assert f !in deferred;
    }
  }

  /** Something is deferred (and the restart notice raised) exactly when
      the backend cannot mount images and at least one image was dropped;
      so generic files alone never defer anything. */
  lemma {:induction false} DeferredIff(files: seq<File>, isDiskImageFile: string -> bool, handlesDiskImages: bool)
    ensures DeferredImages(files, isDiskImageFile, handlesDiskImages) != [] <==>
      !handlesDiskImages && exists i :: 0 <= i < |files| && isDiskImageFile(files[i].name)
    decreases |files|
  {
    if files != [] {
      var init := files[..|files| - 1];
      DeferredIff(init, isDiskImageFile, handlesDiskImages);
      if exists i :: 0 <= i < |init| && isDiskImageFile(init[i].name) {
        var i :| 0 <= i < |init| && isDiskImageFile(init[i].name);
        assert isDiskImageFile(files[i].name);
      }
      if exists i :: 0 <= i < |files| && isDiskImageFile(files[i].name) {
        var i :| 0 <= i < |files| && isDiskImageFile(files[i].name);
        if i < |init| {
          assert isDiskImageFile(init[i].name);
        }
      }
    }
  }

  /** A backend that mounts images while running gets every file uploaded
      straight away, in drop order. */
  lemma {:induction false} HotMountUploadsAll(files: seq<File>, isDiskImageFile: string -> bool)
    ensures HotUploads(files, isDiskImageFile, true) == files
    ensures DeferredImages(files, isDiskImageFile, true) == []
    decreases |files|
  {
    if files != [] {
      HotMountUploadsAll(files[..|files| - 1], isDiskImageFile);
      assert files == files[..|files| - 1] + [files[|files| - 1]];
    }
  }
}
