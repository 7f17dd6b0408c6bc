/** The state of the `Mac` component: one emulator session and the values
    the interface shows about it. Each emulator callback and each user event
    is a method that updates exactly the state the component updates. The
    operations the component asks of the emulator are appended to a request
    log, which stands for the emulator boundary outside this model. */
module Session {
  import opened Common
  import opened Catalog
  import opened ConfigResolution
  import opened ScreenGeometry
  import opened EthernetStatus
  import opened DiskDrop
  import ChunkDebounce

  /** The persisted emulator settings record. */
  datatype Settings = Settings(swapControlAndCommand: bool)

  const DefaultSettings: Settings := Settings(false)

  /** The settings dialog's checkbox: flip the one flag, keep the rest of
      the record. */
  function ToggleSwapControlAndCommand(s: Settings): (r: Settings)
    ensures r.swapControlAndCommand != s.swapControlAndCommand
  {
    s.(swapControlAndCommand := !s.swapControlAndCommand)
  }

  /** Toggling twice restores the settings. */
  lemma ToggleTwiceRestores(s: Settings)
    ensures ToggleSwapControlAndCommand(ToggleSwapControlAndCommand(s)) == s
  {
  }

  /** An operation the component asks of the emulator. */
  datatype EmulatorRequest = Start | UploadFile(file: File) | UploadDiskImage(file: File) | Restart | Stop

  function FileUploads(files: seq<File>): (r: seq<EmulatorRequest>)
    ensures |r| == |files|
    ensures forall i :: 0 <= i < |files| ==> r[i] == UploadFile(files[i])
  {
    seq(|files|, i requires 0 <= i < |files| => UploadFile(files[i]))
  }

  function DiskImageUploads(files: seq<File>): (r: seq<EmulatorRequest>)
    ensures |r| == |files|
    ensures forall i :: 0 <= i < |files| ==> r[i] == UploadDiskImage(files[i])
  {
    seq(|files|, i requires 0 <= i < |files| => UploadDiskImage(files[i]))
  }

  /** A file gets one `UploadFile` request per occurrence, and no other
      request. */
  lemma {:induction false} FileUploadsCount(files: seq<File>, f: File)
    ensures multiset(FileUploads(files))[UploadFile(f)] == multiset(files)[f]
    ensures multiset(FileUploads(files))[UploadDiskImage(f)] == 0
    decreases |files|
  {
    if files != [] {
      var init := files[..|files| - 1];
      var last := files[|files| - 1];
      FileUploadsCount(init, f);
      assert files == init + [last];
      assert FileUploads(files) == FileUploads(init) + [UploadFile(last)];
      assert multiset(files) == multiset(init) + multiset{last};
    }
  }

  /** A file gets one `UploadDiskImage` request per occurrence, and no
      `UploadFile` request. */
  lemma {:induction false} DiskImageUploadsCount(files: seq<File>, f: File)
    ensures multiset(DiskImageUploads(files))[UploadDiskImage(f)] == multiset(files)[f]
    ensures multiset(DiskImageUploads(files))[UploadFile(f)] == 0
    decreases |files|
  {
    if files != [] {
      var init := files[..|files| - 1];
      var last := files[|files| - 1];
      DiskImageUploadsCount(init, f);
      assert files == init + [last];
      assert DiskImageUploads(files) == DiskImageUploads(init) + [UploadDiskImage(last)];
      assert multiset(files) == multiset(init) + multiset{last};
    }
  }

  /** The requests a drop appends: one per dropped file. A file that is
      not a deferred image is asked to be uploaded as often as it was
      dropped and never mounted as a disk image; a deferred image the
      other way round. */
  lemma DropRequests(files: seq<File>, isDiskImageFile: string -> bool, handlesDiskImages: bool, f: File)
    ensures
      var log := FileUploads(HotUploads(files, isDiskImageFile, handlesDiskImages))
        + DiskImageUploads(DeferredImages(files, isDiskImageFile, handlesDiskImages));
      && |log| == |files|
      && multiset(log)[UploadFile(f)] ==
           (if Deferred(f, isDiskImageFile, handlesDiskImages) then 0 else multiset(files)[f])
      && multiset(log)[UploadDiskImage(f)] ==
           (if Deferred(f, isDiskImageFile, handlesDiskImages) then multiset(files)[f] else 0)
  {
    var hot := HotUploads(files, isDiskImageFile, handlesDiskImages);
    var deferred := DeferredImages(files, isDiskImageFile, handlesDiskImages);
    DropPartitions(files, isDiskImageFile, handlesDiskImages);
    UploadMultiplicity(files, isDiskImageFile, handlesDiskImages, f);
    FileUploadsCount(hot, f);
    DiskImageUploadsCount(deferred, f);
    assert multiset(FileUploads(hot) + DiskImageUploads(deferred))
      == multiset(FileUploads(hot)) + multiset(DiskImageUploads(deferred));
  }

  class MacSession {
    /** The configuration resolved once, before the emulator is created. */
    const config: RunConfig
    /** Whether the configured machine's backend mounts disk images while
        running. */
    const handlesDiskImages: bool
    /** The per-backend capability that `handlesDiskImages` is read from. */
    const emulatorHandlesDiskImages: string -> bool
    /** The disk-image file-name test of the emulator code. */
    const isDiskImageFile: string -> bool

    /** The emulator reference is set (between creation and teardown). */
    var emulatorActive: bool
    var providerClosed: bool
    var loaded: bool
    /** The last loading progress report: total and remaining chunks. */
    var progressTotal: int
    var progressLeft: int
    var chunkBusy: bool
    /** When the pending clear of `chunkBusy` fires, if one is pending. */
    var clearDeadline: Option<int>
    var nowMs: int
    var hasPendingDiskImage: bool
    var dragCount: int
    var peers: seq<Peer>
    var settings: Settings
    var screenSize: ScreenSize
    /** Everything asked of the emulator so far, in order. */
    var requests: seq<EmulatorRequest>

    function Chunk(): ChunkDebounce.Timer
      reads this
    {
      ChunkDebounce.Timer(chunkBusy, clearDeadline, nowMs)
    }

    ghost predicate Valid()
      reads this
    {
      ChunkDebounce.Valid(Chunk())
    }

    /** Mounting the component: the emulator is created with the resolved
        configuration and the initial screen size, and started. */
    constructor (
      config: RunConfig,
      emulatorHandlesDiskImages: string -> bool,
      isDiskImageFile: string -> bool,
      innerWidth: int,
      innerHeight: int,
      storedSettings: Settings,
      nowMs: int)
      ensures Valid()
      ensures this.config == config && this.emulatorHandlesDiskImages == emulatorHandlesDiskImages
      ensures handlesDiskImages == emulatorHandlesDiskImages(config.disk.machine.emulator)
      ensures this.isDiskImageFile == isDiskImageFile
      ensures emulatorActive && !providerClosed && !loaded
      ensures progressTotal == 0 && progressLeft == 0
      ensures !chunkBusy && clearDeadline.None? && this.nowMs == nowMs
      ensures !hasPendingDiskImage && dragCount == 0 && peers == []
      ensures settings == storedSettings && requests == [Start]
      ensures config.disk.machine.fixedScreenSize.Some? ==> screenSize == config.disk.machine.fixedScreenSize.value
      ensures config.disk.machine.fixedScreenSize.None? ==>
        screenSize in StandardSizes && ChosenForWindow(screenSize, innerWidth, innerHeight)
    {
      this.config := config;
      this.emulatorHandlesDiskImages := emulatorHandlesDiskImages;
      this.handlesDiskImages := emulatorHandlesDiskImages(config.disk.machine.emulator);
      this.isDiskImageFile := isDiskImageFile;
      var initial := InitialScreenSize(config.disk.machine, innerWidth, innerHeight);
      screenSize := initial;
      emulatorActive, providerClosed, loaded := true, false, false;
      progressTotal, progressLeft := 0, 0;
      chunkBusy, clearDeadline, this.nowMs := false, None, nowMs;
      hasPendingDiskImage, dragCount, peers := false, 0, [];
      settings, requests := storedSettings, [Start];
    }

    /** The loading spinner shows until loading finishes and while a disk
        chunk is busy. */
    function ShowsLoading(): (b: bool)
      reads this
      ensures b <==> ProgressFraction().Some? || Chunk().busy
    {
      !loaded || chunkBusy
    }

    /** The overlay shows while more drag-enters than drag-leaves have been
        seen since the last drop. */
    function ShowsDragOverlay(): (b: bool)
      reads this
      ensures b <==> dragCount >= 1
    {
      dragCount > 0
    }

    /** The bezel tier from the room the window leaves beside the current
        screen width. */
    function Bezel(innerWidth: int): (b: BezelSize)
      reads this
      ensures b == Small <==> innerWidth - screenSize.width < SmallBezelThreshold
      ensures b == Medium <==> SmallBezelThreshold <= innerWidth - screenSize.width < MediumBezelThreshold
      ensures b == Large <==> innerWidth - screenSize.width >= MediumBezelThreshold
    {
      BezelSizeFor(innerWidth, screenSize.width)
    }

    /** The Ethernet status line, shown only when a provider exists: the
        description, with the active peer count when there is one. */
    function EthernetText(description: string): (r: Option<string>)
      reads this
      ensures r.Some? <==> config.ethernetProvider.Some?
      ensures r.Some? ==> "Ethernet: " + description <= r.value
      ensures r.Some? ==> (r.value == "Ethernet: " + description <==> ActivePeerCount(peers, nowMs) == 0)
    {
      if config.ethernetProvider.Some? then Some(StatusText(description, peers, nowMs)) else None
    }

    /** The `(done/total)` loading fraction, shown only until loading
        finishes. */
    function ProgressFraction(): (r: Option<(int, int)>)
      reads this
      ensures r.Some? <==> !loaded
      ensures r.Some? ==> r.value.1 == progressTotal && r.value.0 + progressLeft == progressTotal
    {
      if loaded then None else Some((progressTotal - progressLeft, progressTotal))
    }

    // -- emulator callbacks ----------------------------------------------

    method ScreenSizeChanged(width: int, height: int)
      requires Valid()
      modifies this`screenSize
      ensures Valid() && screenSize == ScreenSize(width, height)
    {
      screenSize := ScreenSize(width, height);
    }

    method FinishedLoading()
      requires Valid()
      modifies this`loaded
      ensures Valid() && loaded
    {
      loaded := true;
    }

    method LoadingProgress(total: int, left: int)
      requires Valid()
      modifies this`progressTotal, this`progressLeft
      ensures Valid() && progressTotal == total && progressLeft == left
    {
      progressTotal, progressLeft := total, left;
    }

    method ChunkStarted()
      requires Valid()
      modifies this`chunkBusy, this`clearDeadline
      ensures Valid()
      ensures Chunk() == ChunkDebounce.StartChunk(old(Chunk()))
      ensures chunkBusy && clearDeadline.None? && ShowsLoading()
    {
      chunkBusy := true;
      clearDeadline := None;
    }

    method ChunkFinished()
      requires Valid()
      modifies this`clearDeadline
      ensures Valid()
      ensures Chunk() == ChunkDebounce.FinishChunk(old(Chunk()))
      ensures clearDeadline == Some(nowMs + ChunkDebounce.ClearDelayMs)
    {
      clearDeadline := Some(nowMs + ChunkDebounce.ClearDelayMs);
    }

    /** The clock moves on by `ms`; a clear that falls due fires. */
    method AdvanceClock(ms: nat)
      requires Valid()
      modifies this`chunkBusy, this`clearDeadline, this`nowMs
      ensures Valid()
      ensures Chunk() == ChunkDebounce.Advance(old(Chunk()), ms)
      ensures old(chunkBusy) && !chunkBusy ==> old(clearDeadline).Some? && old(clearDeadline).value <= nowMs
    {
      nowMs := nowMs + ms;
      if clearDeadline.Some? && clearDeadline.value <= nowMs {
        chunkBusy := false;
        clearDeadline := None;
      }
    }

    /** Peer updates are taken wholesale, and only when a provider exists. */
    method EthernetPeersChanged(newPeers: seq<Peer>)
      requires Valid()
      modifies this`peers
      ensures Valid()
      ensures peers == if config.ethernetProvider.Some? then newPeers else old(peers)
    {
      if config.ethernetProvider.Some? {
        peers := newPeers;
      }
    }

    // -- user events -------------------------------------------------------

    method DragEnter()
      requires Valid()
      modifies this`dragCount
      ensures Valid() && dragCount == old(dragCount) + 1
    {
      dragCount := dragCount + 1;
    }

    method DragLeave()
      requires Valid()
      modifies this`dragCount
      ensures Valid() && dragCount == old(dragCount) - 1
    {
      dragCount := dragCount - 1;
    }

    /** A drop resets the drag counter; without an emulator nothing else
        happens. Otherwise each file that is not a deferred image is
        uploaded, in drop order, then each deferred image is uploaded as a
        disk image, and the restart notice is raised if any was deferred. */
    method Drop(dt: DataTransfer)
      requires Valid()
      modifies this`dragCount, this`requests, this`hasPendingDiskImage
      ensures Valid() && dragCount == 0 && !ShowsDragOverlay()
      ensures !emulatorActive ==>
        requests == old(requests) && hasPendingDiskImage == old(hasPendingDiskImage)
      ensures emulatorActive ==>
        var files := DroppedFiles(dt);
        var hot := HotUploads(files, isDiskImageFile, handlesDiskImages);
        var deferred := DeferredImages(files, isDiskImageFile, handlesDiskImages);
        && requests == old(requests) + FileUploads(hot) + DiskImageUploads(deferred)
        && hasPendingDiskImage == (old(hasPendingDiskImage) || deferred != [])
    {
      dragCount := 0;
      if !emulatorActive {
        return;
      }
      var files := CollectFiles(dt);
      var uploaded, diskImages, fileCount, diskImageCount := ClassifyDrop(files, isDiskImageFile, handlesDiskImages);
      requests := requests + FileUploads(uploaded);
      if |diskImages| > 0 {
        requests := requests + DiskImageUploads(diskImages);
        hasPendingDiskImage := true;
      } else {
        assert DiskImageUploads(diskImages) == [];
      }
    }

    /** The restart button: the notice goes away and, when an emulator
        exists, it is restarted. */
    method RestartClicked()
      requires Valid()
      modifies this`hasPendingDiskImage, this`requests
      ensures Valid() && !hasPendingDiskImage
      ensures requests == old(requests) + (if emulatorActive then [Restart] else [])
    {
      hasPendingDiskImage := false;
      if emulatorActive {
        requests := requests + [Restart];
      }
    }

    method ToggleSwapSetting()
      requires Valid()
      modifies this`settings
      ensures Valid() && settings == ToggleSwapControlAndCommand(old(settings))
    {
      settings := ToggleSwapControlAndCommand(settings);
    }

    /** Unmounting: the emulator is stopped, the reference cleared and the
        provider, if any, closed. The chunk clear timer is left as it is. */
    method Teardown()
      requires Valid()
      modifies this`emulatorActive, this`providerClosed, this`requests
      ensures Valid() && !emulatorActive
      ensures requests == old(requests) + [Stop]
      ensures providerClosed == (old(providerClosed) || config.ethernetProvider.Some?)
      ensures Chunk() == old(Chunk())
    {
      requests := requests + [Stop];
      emulatorActive := false;
      if config.ethernetProvider.Some? {
        providerClosed := true;
      }
    }
  }
}
