# Infinite Mac front end: session, custom runs and the CD-ROM library

This project models, in Dafny, the decision logic of three React components
of Infinite Mac, the site that runs classic Macintosh emulators in the
browser:

- `Mac` (`src/Mac.tsx`): how a page resolves its run configuration (disk,
  Ethernet provider, shared memory, debug audio) from its host name and query
  string; how it picks the initial screen size and the bezel tier; the
  state the component keeps while an emulator runs (loading progress, the
  debounced disk-chunk busy indicator, the drag counter, the pending
  disk-image notice, Ethernet peers, settings); and what a drop of files
  does: which files are uploaded straight away and which disk images wait
  for a restart.
- `Custom` (`src/Custom.tsx`): the dialog that builds a custom run
  definition by editing a machine, a list of system disks and a list of
  CD-ROM URLs.
- `MacCDROMs` (`src/MacCDROMs.tsx`): the CD-ROM library panel, which
  sorts the library by folder path, filters it by a search string, groups
  consecutive entries by category, and derives each entry's cover image.

Browser inputs (window size, host, query string, clock, the
`SharedArrayBuffer` capability) are parameters. The emulator is outside the
model: the session records what it asks of the emulator (`start`,
`uploadFile`, `uploadDiskImage`, `restart`, `stop`) in a request log, and the two
emulator predicates it consults (`isDiskImageFile`,
`emulatorHandlesDiskImages`) are parameters. The disk and machine catalogs
are abstract maps and records.

Files and modules:

| file | module | contents |
|---|---|---|
| `common.dfy` | `Common` | `Option`, map lookup |
| `strings.dfy` | `Strings` | the JavaScript string operations used: default `sort` order, `toLowerCase`, `includes`, `substring`, `endsWith`, `split`, number formatting |
| `catalog.dfy` | `Catalog` | machine, disk and system-disk records |
| `config.dfy` | `ConfigResolution` | run-configuration resolution |
| `geometry.dfy` | `ScreenGeometry` | initial screen size and bezel tier |
| `ethernet.dfy` | `EthernetStatus` | active peers, age labels, status text |
| `debounce.dfy` | `ChunkDebounce` | the busy flag and its 200 ms debounced clear |
| `drop.dfy` | `DiskDrop` | collecting and classifying dropped files |
| `session.dfy` | `Session` | class `MacSession`: the component's state and events |
| `custom.dfy` | `CustomRunDef` | the run-definition editor |
| `cdroms.dfy` | `CDROMLibrary` | library grouping, panel state, covers |

A few points where the model follows the code rather than an informal
reading of it:

- Teardown (`src/Mac.tsx:158-170`) stops the emulator, clears the
  reference and closes the provider, but does not cancel a pending chunk
  clear; `Session.MacSession.Teardown` leaves the timer state unchanged.
- When a category recurs after a different one, the grouping loop installs
  a fresh list for it (`src/MacCDROMs.tsx:73-76`) and the earlier entries
  of that category are dropped; the key keeps its first position. This
  happens with sorted paths when a category has nested sub-categories
  (`Games/A`, `Games/Sub/B`, `Games/Z`). The model keeps the behaviour and
  proves exactly when entries are lost.
- The search string is not lower-cased (`src/MacCDROMs.tsx:65`), so a
  search holding an upper-case letter matches nothing.
- The run-configuration resolution requires that the catalog holds the
  default key `system7.app`, as the static catalog does; every other key
  may be missing and then falls back to it.

## Model

| member | source | states |
|---|---|---|
| ConfigResolution.ResolveRunConfig | src/Mac.tsx:50-79 | the `domain` parameter replaces the host; a `<zone>.<base>.app` host gives a relay provider for `pieces[0]` and the key `pieces[1].app`; otherwise no provider from the host, and a truthy `ethernet` gives a relay for a truthy `ethernet_zone` or broadcast, an absent or empty one none; the disk is the key's entry or the `system7.app` entry; shared memory iff the capability exists and the parameter is not `"false"`; debug audio iff the parameter is `"true"` |
| ConfigResolution.ThreePiecesIff | src/Mac.tsx:57-58 | a host splits into three pieces iff it holds exactly two dots, and it is then the three pieces joined by dots |
| ConfigResolution.ZoneHostPieces | src/Mac.tsx:56-62 | for dot-free `zone` and `base`, the host `zone.base.app` is a zone host and splits back into `[zone, base, "app"]` |
| Strings.Split | src/Mac.tsx:57 | `split('.')` yields one more piece than there are dots, no piece holds a dot, and joining the pieces gives the string back |
| Strings.SplitOfJoin | src/Mac.tsx:57 | splitting a dot-join of dot-free pieces gives the pieces back |
| ScreenGeometry.ScreenSizeForWindow | src/Mac.tsx:366-382 | the result is one of the six standard sizes with positive dimensions, the first one that fits `innerWidth-168` by `innerHeight-168`, or 640x480 when none fits; no fitting standard size is larger |
| ScreenGeometry.InitialScreenSize | src/Mac.tsx:80-81 | the machine's fixed size when it declares one, otherwise the size chosen for the window: the first standard size that fits it, or 640x480 |
| ScreenGeometry.ChosenForWindowUnique | src/Mac.tsx:366-382 | the window determines the chosen size: two sizes both chosen for the same window are equal |
| ScreenGeometry.BezelSizeFor | src/Mac.tsx:296-302 | Small iff the room beside the screen is below 80, Medium iff it lies in [80, 168), Large otherwise |
| ScreenGeometry.BezelMonotone | src/Mac.tsx:296-302 | more room never gives a smaller bezel |
| EthernetStatus.ActivePeers | src/Mac.tsx:396-398 | the peers pinged within 60000 ms, no more than there are peers, all of them exactly when every peer is active |
| EthernetStatus.ActivePeersMultiplicity | src/Mac.tsx:396-398 | each active peer is kept as often as it occurs and an inactive one never, so the count is the number of active entries |
| EthernetStatus.ActiveCountMonotone | src/Mac.tsx:396-398 | as time passes without new pings the active count never grows |
| EthernetStatus.ThresholdsIndependent | src/Mac.tsx:396-418 | the age label shows iff the last ping is more than 30000 ms old; between the two thresholds a peer is active and labelled, past a minute labelled and inactive, within thirty seconds active and unlabelled |
| EthernetStatus.StatusText | src/Mac.tsx:395-401 | the text starts with `Ethernet: <description>` and is exactly that iff no peer is active |
| EthernetStatus.StatusTextCases | src/Mac.tsx:395-401 | the text starts with `Ethernet: <description>`; nothing is appended iff no peer is active; ` (1 peer)` iff exactly one is; otherwise ` (<n> peers)` whose digits read back as the count |
| Strings.DecimalOfNatToString | src/Mac.tsx:400 | the decimal rendering of a count is all digits and reads back as the count |
| ChunkDebounce.StepsPreserveValid | src/Mac.tsx:123-135 | a start, a finish and any passage of time keep at most one pending clear, never overdue and at most 200 ms away |
| ChunkDebounce.EventsNeverClear | src/Mac.tsx:123-135 | a start sets the flag and cancels the pending clear; a finish leaves the flag and reschedules the clear 200 ms later |
| ChunkDebounce.ClearsOnlyWhenDue | src/Mac.tsx:131-134 | the flag goes from busy to idle only when the clock reaches the pending clear |
| ChunkDebounce.RapidBurstStaysBusy | src/Mac.tsx:123-135 | a busy flag stays busy, with its clear not yet due, through any burst of starts and finishes whose gaps are all shorter than 200 ms |
| ChunkDebounce.BurstSetsOnceAndClearsOnce | src/Mac.tsx:123-135 | after a start, the flag stays set through every prefix of a rapid burst; after the final finish it clears exactly when 200 ms have passed |
| DiskDrop.FileItems | src/Mac.tsx:254-259 | the collected files are exactly the files of the `file` items, no more than there are items |
| DiskDrop.FileItemsMultiplicity | src/Mac.tsx:254-259 | each file is collected as often as a `file` item carries it |
| DiskDrop.FileItemsConcat | src/Mac.tsx:254-259 | the files of two item lists in a row are the files of the first followed by those of the second, so the item order is kept |
| DiskDrop.FileItemsSingle | src/Mac.tsx:255-258 | a `file` item gives its file and any other item nothing |
| DiskDrop.DroppedFiles | src/Mac.tsx:252-264 | with an item list, the files are those of its `file` items; otherwise the file list; otherwise none |
| DiskDrop.CollectFiles | src/Mac.tsx:252-264 | the item list wins when present, even empty; otherwise the file list; otherwise no files |
| DiskDrop.HotUploads | src/Mac.tsx:269-279 | the files uploaded straight away are exactly the dropped files that are not deferred images, no more than were dropped |
| DiskDrop.DeferredImages | src/Mac.tsx:269-275 | the files kept for a restart are exactly the dropped deferred images, no more than were dropped |
| DiskDrop.CountDiskImages | src/Mac.tsx:270-271 | at most one disk image per dropped file, and none iff no dropped file is a disk image |
| DiskDrop.ClassifyDrop | src/Mac.tsx:266-280 | the loop uploads exactly the files that are not deferred images and collects exactly the deferred images, both in drop order; it counts the disk images, and files plus disk images equal the number of dropped files |
| DiskDrop.DropPartitions | src/Mac.tsx:269-280 | the upload stream and the deferred list partition the drop as multisets; nothing uploaded is a deferred image and everything deferred is one |
| DiskDrop.UploadMultiplicity | src/Mac.tsx:269-280 | a file that is not a deferred image is uploaded as many times as it was dropped, a deferred image never; a deferred image is deferred as many times as it was dropped |
| DiskDrop.DeferredIff | src/Mac.tsx:272-289 | something is deferred iff the backend does not handle disk images and at least one dropped file is a disk image |
| DiskDrop.HotMountUploadsAll | src/Mac.tsx:272-279 | a backend that handles disk images gets every dropped file uploaded, in order, and nothing deferred |
| Session.MacSession.constructor | src/Mac.tsx:80-148 | the session starts with an emulator that has been asked to start and nothing else, nothing loaded, no chunk busy, no drag, no peers, no pending image, the stored settings, the backend's disk-image capability read from the machine's emulator, and the machine's fixed screen size or else the size chosen for the window |
| Session.MacSession.ShowsLoading | src/Mac.tsx:313 | the loading indicator shows iff the progress fraction is shown or a disk chunk is busy |
| Session.MacSession.ShowsDragOverlay | src/Mac.tsx:333 | the drag overlay shows iff the drag counter is at least one |
| Session.MacSession.Bezel | src/Mac.tsx:296-302 | the bezel tier for the current screen width: Small below 80 of room, Medium below 168, Large otherwise |
| Session.MacSession.EthernetText | src/Mac.tsx:346-351 | the Ethernet status shows iff there is a provider; it starts with `Ethernet: <description>` and is that alone iff no peer is active |
| Session.MacSession.ProgressFraction | src/Mac.tsx:214-225 | the `(done/total)` fraction is shown iff loading has not finished, with `done + left == total` |
| Session.MacSession.ScreenSizeChanged | src/Mac.tsx:110-112 | the screen size becomes the reported one |
| Session.MacSession.FinishedLoading | src/Mac.tsx:113-115 | loading is finished |
| Session.MacSession.LoadingProgress | src/Mac.tsx:116-122 | the progress becomes the reported `[total, left]` |
| Session.MacSession.ChunkStarted | src/Mac.tsx:123-126 | the busy flag is set, the pending clear cancelled and the loading indicator shown; the state follows `ChunkDebounce.StartChunk` |
| Session.MacSession.ChunkFinished | src/Mac.tsx:127-135 | the clear is rescheduled 200 ms from now; the state follows `ChunkDebounce.FinishChunk` |
| Session.MacSession.AdvanceClock | src/Mac.tsx:131-134 | a clear that falls due fires; the state follows `ChunkDebounce.Advance`, and the flag drops only when the deadline was reached |
| Session.MacSession.EthernetPeersChanged | src/Mac.tsx:136-140 | the peers are replaced iff a provider exists |
| Session.MacSession.DragEnter | src/Mac.tsx:238-240 | the drag counter goes up by one |
| Session.MacSession.DragLeave | src/Mac.tsx:241-243 | the drag counter goes down by one |
| Session.MacSession.Drop | src/Mac.tsx:245-290 | the counter is reset and the overlay hidden; without an emulator nothing else changes; otherwise the non-deferred files are uploaded in drop order, then the deferred images are uploaded as disk images, and the pending notice is raised iff one was deferred |
| Session.MacSession.RestartClicked | src/Mac.tsx:338-341 | the notice is cleared and the emulator, if any, is restarted |
| Session.MacSession.ToggleSwapSetting | src/Mac.tsx:466-471 | the settings become the toggled settings |
| Session.MacSession.Teardown | src/Mac.tsx:158-170 | the emulator is stopped and its reference cleared, the provider closed if there is one; the timer state is unchanged |
| Session.ToggleSwapControlAndCommand | src/Mac.tsx:466-471 | the swap flag is flipped |
| Session.ToggleTwiceRestores | src/Mac.tsx:466-471 | toggling twice restores the settings |
| Session.FileUploadsCount | src/Mac.tsx:279 | a file gets one `uploadFile` request per occurrence and no `uploadDiskImage` request |
| Session.DiskImageUploadsCount | src/Mac.tsx:287 | a file gets one `uploadDiskImage` request per occurrence and no `uploadFile` request |
| Session.DropRequests | src/Mac.tsx:266-289 | a drop asks one request per dropped file; a file that is not a deferred image is asked to be uploaded as often as it was dropped and never as a disk image, a deferred image the other way round |
| CustomRunDef.InitialRunDef | src/Custom.tsx:26-35 | the given machine, the one given disk, no CD-ROM URLs, Infinite HD on, debug flags off |
| CustomRunDef.SetMachine | src/Custom.tsx:68-73 | the machine is the chosen one and every other field is carried over |
| CustomRunDef.ReplaceAt | src/Custom.tsx:90-99 | the length is kept, the new element is at `i` and every other index is unchanged |
| CustomRunDef.InsertAfter | src/Custom.tsx:100-109 | the length grows by one, the new element is at `i+1`, the prefix up to `i` is kept and the rest is shifted by one |
| CustomRunDef.RemoveAt | src/Custom.tsx:110-118 | the length shrinks by one, the prefix before `i` is kept, the rest is shifted down, and exactly element `i` is removed from the multiset |
| CustomRunDef.RemoveUndoesInsert | src/Custom.tsx:100-118 | removing what was just added after `i` gives the list back |
| CustomRunDef.ReplaceUndoesReplace | src/Custom.tsx:90-99 | putting back the replaced element gives the list back |
| CustomRunDef.InsertThenRemoveIsReplace | src/Custom.tsx:90-118 | adding after `i` and removing at `i` is replacing at `i` |
| CustomRunDef.ReplaceDisk | src/Custom.tsx:90-99 | the disks are replaced at `i`; every other field is carried over |
| CustomRunDef.AddDiskAfter | src/Custom.tsx:100-109 | the default disk is inserted after `i`; every other field is carried over |
| CustomRunDef.RemoveDisk | src/Custom.tsx:110-118 | disk `i` is removed; every other field is carried over |
| CustomRunDef.AddFirstDisk | src/Custom.tsx:122-133 | the disks become `[defaultDisk]`; every other field is carried over |
| CustomRunDef.ReplaceCDROMURL | src/Custom.tsx:148-157 | the URLs are replaced at `i`; every other field is carried over |
| CustomRunDef.AddCDROMURLAfter | src/Custom.tsx:158-167 | an empty URL is inserted after `i`; every other field is carried over |
| CustomRunDef.RemoveCDROMURL | src/Custom.tsx:168-176 | URL `i` is removed; every other field is carried over |
| CustomRunDef.AddFirstCDROMURL | src/Custom.tsx:180-190 | the URLs become `[""]`; every other field is carried over |
| CustomRunDef.SetIncludeInfiniteHD | src/Custom.tsx:211-216 | the flag is the checkbox's value; every other field is carried over |
| CustomRunDef.ButtonAppearance | src/Custom.tsx:49-51 | Platinum iff there is a first disk and it has the Platinum appearance, Classic otherwise |
| CustomRunDef.HandleRun | src/Custom.tsx:37-47 | the run definition is handed on unchanged together with the new-window choice |
| Strings.SortedElements | src/MacCDROMs.tsx:61 | the keys in strictly ascending code-unit order, each exactly once |
| Strings.SortedUnique | src/MacCDROMs.tsx:61 | two strictly ascending orders of the same keys are equal, so the sort order is determined |
| Strings.IncludesIff | src/MacCDROMs.tsx:65 | `includes` holds iff the search occurs at some offset |
| Strings.ToLower | src/MacCDROMs.tsx:65 | the lower-cased path has the same length and each character lower-cased |
| CDROMLibrary.KeptIff | src/MacCDROMs.tsx:65-67 | a path is kept iff the search is empty or occurs at some offset of the lower-cased path |
| CDROMLibrary.UpperCaseSearchKeepsNothing | src/MacCDROMs.tsx:65-67 | a search holding an upper-case letter keeps no path, since only the path is lower-cased |
| CDROMLibrary.Category | src/MacCDROMs.tsx:69-72 | the category is the prefix of the path of length `|path| - |name| - 1`, clamped into range |
| CDROMLibrary.CategoryOfFolderPath | src/MacCDROMs.tsx:69-72 | for a path `<category>/<name>` the category is recovered |
| CDROMLibrary.KeptEntries | src/MacCDROMs.tsx:64-72 | the kept entries are exactly the paths that pass the filter, with their category and CD-ROM, no more than there are paths |
| CDROMLibrary.KeptPaths | src/MacCDROMs.tsx:64-67 | the surviving paths are exactly the paths that pass the filter, no more than there are paths |
| CDROMLibrary.KeptEntriesFollowPaths | src/MacCDROMs.tsx:64-72 | the kept entries correspond one to one, in order, to the surviving paths, each with its category and CD-ROM |
| CDROMLibrary.KeptPathsMultiplicity | src/MacCDROMs.tsx:64-67 | a path survives as often as it occurs if it passes the filter, and never otherwise |
| CDROMLibrary.KeptPathsSorted | src/MacCDROMs.tsx:64-67 | filtering keeps the paths in ascending order |
| CDROMLibrary.KeptInSortedOrder | src/MacCDROMs.tsx:61-67 | over the sorted library keys, the surviving paths are exactly the kept keys in ascending order |
| CDROMLibrary.StepEffect | src/MacCDROMs.tsx:73-77 | one entry becomes the previous category and ends its list; a change of category starts that list afresh, even for a category seen before, a repeat extends it, a new category goes to the end of the key order, and no other list changes |
| CDROMLibrary.FoldInv | src/MacCDROMs.tsx:62-78 | the grouping's keys are distinct and exactly the categories seen, each with a non-empty list holding only entries of that category, and the previous category is remembered |
| CDROMLibrary.TotalIff | src/MacCDROMs.tsx:73-77 | the grouped entries never outnumber the kept ones, and equal them iff no category starts a second run |
| CDROMLibrary.GroupsComplete | src/MacCDROMs.tsx:73-77 | without a second run each category's list holds all its entries, in visit order |
| CDROMLibrary.SecondRunReplacesList | src/MacCDROMs.tsx:73-76 | entries of categories `c`, `d`, `c` (as `Games`, `Games/Sub`, `Games`) group into keys `c`, `d` with only the last `c` entry kept |
| CDROMLibrary.GroupPaths | src/MacCDROMs.tsx:64-78 | the loop over the paths computes the fold of the kept entries |
| CDROMLibrary.GroupLibrary | src/MacCDROMs.tsx:61-78 | the grouping of the paths in sorted order; the categories are distinct, each has a list, and no more CD-ROMs are grouped than the library holds |
| CDROMLibrary.CDROMsPanel.constructor | src/MacCDROMs.tsx:22 | the panel starts collapsed |
| CDROMLibrary.CDROMsPanel.ToggleExpanded | src/MacCDROMs.tsx:23-34 | a title click flips the expanded flag |
| CDROMLibrary.CDROMsPanel.Choose | src/MacCDROMs.tsx:40-43 | choosing collapses the panel and then runs the chosen CD-ROM |
| CDROMLibrary.CoverImageUrl | src/MacCDROMs.tsx:213 | the address is `/Covers/`, the hash, `.jpeg`, and the hash can be read back from it |
| CDROMLibrary.CoverImageUrlInjective | src/MacCDROMs.tsx:213 | two entries have the same cover address iff they have the same hash |
| CDROMLibrary.CoverType | src/MacCDROMs.tsx:206-211 | the cover type defaults to `round` |
| CDROMLibrary.IsRoundCover | src/MacCDROMs.tsx:214-216 | the round class applies iff the type is absent or `round` |
| CDROMLibrary.CoverOf | src/MacCDROMs.tsx:205-225 | the rendered cover has the entry's address, its width and height, and the round class as decided |

## Left out

- Rendering (JSX, CSS classes, `preventDefault` handlers and the drag-start guard): display only.
- Fullscreen scaling (`src/Mac.tsx:180-206`): floating-point division and browser fullscreen and keyboard-lock calls.
- The `toFixed` formatting of peer ages and round-trip times (`src/Mac.tsx:417, 422`): floating-point formatting; the model decides only whether the age label shows.
- The expandable peer details of the Ethernet status and its `ethernet_status` parameter (`src/Mac.tsx:402-437`): display only.
- The emulator itself, its ethernet provider classes, `isDiskImageFile` and `emulatorHandlesDiskImages`: code outside these files; the session takes the two predicates as parameters and logs its requests instead of calling an emulator.
- The disk and machine catalogs: static data; they are abstract maps and records here.
- `varz` analytics counters and the `usePersistentState` storage of settings: side channels that do not affect the logic; the stored settings are a constructor parameter.
- The custom CD-ROM dialog `MacCustomCDROM` (`src/MacCDROMs.tsx:127-203`): it fetches over the network, rewrites the history and validates a form field in the browser.
- Real timers and event listeners: the 200 ms timer is an optional deadline and the passage of time an explicit `AdvanceClock`.
- Strings.LowerChar and Strings.ToLower: `toLowerCase` is modelled for the ASCII letters only; other characters are left as they are, unlike full Unicode case mapping.
- CDROMLibrary.GroupLibrary: the key order of `Object.entries` is modelled as insertion order; JavaScript lists integer-like keys first, which a category such as `1995` would hit.
- Strings.SortedElements: the sort compares characters as Dafny `char` values, which matches JavaScript's UTF-16 code-unit order only for characters of the Basic Multilingual Plane.
