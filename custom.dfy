/** The custom run-definition editor (`Custom`): every edit builds a new
    run definition that differs from the old one in one field, and the list
    edits are slice-and-concatenate updates of one sequence. */
module CustomRunDef {
  import opened Catalog

  datatype RunDef = RunDef(
    machine: Machine,
    disks: seq<SystemDiskDef>,
    cdromURLs: seq<string>,
    includeInfiniteHD: bool,
    debugFallback: bool,
    debugAudio: bool)

  // ---------------------------------------------------------------------
  // The three list edits, shared by the disk and the URL lists
  // ---------------------------------------------------------------------

  /** `[...s.slice(0, i), x, ...s.slice(i + 1)]`: replace the element at
      `i`. */
  function ReplaceAt<T>(s: seq<T>, i: nat, x: T): (r: seq<T>)
    requires i < |s|
    ensures |r| == |s| && r[i] == x
    ensures forall j :: 0 <= j < |s| && j != i ==> r[j] == s[j]
  {
    s[..i] + [x] + s[i + 1..]
  }

  /** `[...s.slice(0, i + 1), x, ...s.slice(i + 1)]`: insert after `i`. */
  function InsertAfter<T>(s: seq<T>, i: nat, x: T): (r: seq<T>)
    requires i < |s|
    ensures |r| == |s| + 1 && r[i + 1] == x
    ensures forall j :: 0 <= j <= i ==> r[j] == s[j]
    ensures forall j :: i < j < |s| ==> r[j + 1] == s[j]
  {
    s[..i + 1] + [x] + s[i + 1..]
  }

  /** `[...s.slice(0, i), ...s.slice(i + 1)]`: remove the element at `i`. */
  function RemoveAt<T>(s: seq<T>, i: nat): (r: seq<T>)
    requires i < |s|
    ensures |r| == |s| - 1
    ensures forall j :: 0 <= j < i ==> r[j] == s[j]
    ensures forall j :: i <= j < |r| ==> r[j] == s[j + 1]
    ensures multiset(r) + multiset{s[i]} == multiset(s)
  {
    assert s == s[..i] + [s[i]] + s[i + 1..];
    s[..i] + s[i + 1..]
  }

  /** Removing what was just inserted gives the list back. */
  lemma RemoveUndoesInsert<T>(s: seq<T>, i: nat, x: T)
    requires i < |s|
    ensures RemoveAt(InsertAfter(s, i, x), i + 1) == s
  {
    var r := RemoveAt(InsertAfter(s, i, x), i + 1);
    assert forall j :: 0 <= j < |s| ==> r[j] == s[j];
  }

  /** Putting back the element that was replaced gives the list back. */
  lemma ReplaceUndoesReplace<T>(s: seq<T>, i: nat, x: T)
    requires i < |s|
    ensures ReplaceAt(ReplaceAt(s, i, x), i, s[i]) == s
  {
    var r := ReplaceAt(ReplaceAt(s, i, x), i, s[i]);
    assert forall j :: 0 <= j < |s| ==> r[j] == s[j];
  }

  /** Inserting after `i` and then removing at `i` equals replacing the
      element at `i` by the inserted one. */
  lemma InsertThenRemoveIsReplace<T>(s: seq<T>, i: nat, x: T)
    requires i < |s|
    ensures RemoveAt(InsertAfter(s, i, x), i) == ReplaceAt(s, i, x)
  {
    var a := RemoveAt(InsertAfter(s, i, x), i);
    var b := ReplaceAt(s, i, x);
    assert forall j :: 0 <= j < |s| ==> a[j] == b[j];
  }

  // ---------------------------------------------------------------------
  // The editor's state and its updates
  // ---------------------------------------------------------------------

  /** The dialog's starting point: the given machine (Quadra 650 in the
      catalog) with the given system disk (System 7.1), no CD-ROM URLs,
      Infinite HD included and both debug flags off. */
  function InitialRunDef(quadra650: Machine, system71: SystemDiskDef): (r: RunDef)
    ensures r.machine == quadra650 && r.disks == [system71] && r.cdromURLs == []
    ensures r.includeInfiniteHD && !r.debugFallback && !r.debugAudio
  {
    RunDef(quadra650, [system71], [], true, false, false)
  }

  /** The machine picker. */
  function SetMachine(d: RunDef, machine: Machine): (r: RunDef)
    ensures r.machine == machine
    ensures r.(machine := d.machine) == d
  {
    d.(machine := machine)
  }

  function ReplaceDisk(d: RunDef, i: nat, disk: SystemDiskDef): (r: RunDef)
    requires i < |d.disks|
    ensures r.disks == ReplaceAt(d.disks, i, disk)
    ensures r.(disks := d.disks) == d
  {
    d.(disks := ReplaceAt(d.disks, i, disk))
  }

  /** The `+` button of disk `i`: the default disk goes in after it. */
  function AddDiskAfter(d: RunDef, i: nat, defaultDisk: SystemDiskDef): (r: RunDef)
    requires i < |d.disks|
    ensures r.disks == InsertAfter(d.disks, i, defaultDisk)
    ensures r.(disks := d.disks) == d
  {
    d.(disks := InsertAfter(d.disks, i, defaultDisk))
  }

  function RemoveDisk(d: RunDef, i: nat): (r: RunDef)
    requires i < |d.disks|
    ensures r.disks == RemoveAt(d.disks, i)
    ensures r.(disks := d.disks) == d
  {
    d.(disks := RemoveAt(d.disks, i))
  }

  /** The `Add` button shown when the disk list is empty. */
  function AddFirstDisk(d: RunDef, defaultDisk: SystemDiskDef): (r: RunDef)
    ensures r.disks == [defaultDisk]
    ensures r.(disks := d.disks) == d
  {
    d.(disks := [defaultDisk])
  }

  function ReplaceCDROMURL(d: RunDef, i: nat, url: string): (r: RunDef)
    requires i < |d.cdromURLs|
    ensures r.cdromURLs == ReplaceAt(d.cdromURLs, i, url)
    ensures r.(cdromURLs := d.cdromURLs) == d
  {
    d.(cdromURLs := ReplaceAt(d.cdromURLs, i, url))
  }

  /** The `+` button of URL `i`: an empty URL goes in after it. */
  function AddCDROMURLAfter(d: RunDef, i: nat): (r: RunDef)
    requires i < |d.cdromURLs|
    ensures r.cdromURLs == InsertAfter(d.cdromURLs, i, "")
    ensures r.(cdromURLs := d.cdromURLs) == d
  {
    d.(cdromURLs := InsertAfter(d.cdromURLs, i, ""))
  }

  function RemoveCDROMURL(d: RunDef, i: nat): (r: RunDef)
    requires i < |d.cdromURLs|
    ensures r.cdromURLs == RemoveAt(d.cdromURLs, i)
    ensures r.(cdromURLs := d.cdromURLs) == d
  {
    d.(cdromURLs := RemoveAt(d.cdromURLs, i))
  }

  /** The `Add` button shown when the URL list is empty. */
  function AddFirstCDROMURL(d: RunDef): (r: RunDef)
    ensures r.cdromURLs == [""]
    ensures r.(cdromURLs := d.cdromURLs) == d
  {
    d.(cdromURLs := [""])
  }

  /** The Infinite HD checkbox. */
  function SetIncludeInfiniteHD(d: RunDef, checked: bool): (r: RunDef)
    ensures r.includeInfiniteHD == checked
    ensures r.(includeInfiniteHD := d.includeInfiniteHD) == d
  {
    d.(includeInfiniteHD := checked)
  }

  // ---------------------------------------------------------------------
  // Derived values
  // ---------------------------------------------------------------------

  datatype Appearance = Classic | Platinum

  /** The dialog's look follows the first disk. */
  function ButtonAppearance(d: RunDef): (a: Appearance)
    ensures a == Platinum <==> |d.disks| > 0 && d.disks[0].hasPlatinumAppearance
  {
    if |d.disks| > 0 && d.disks[0].hasPlatinumAppearance then Platinum else Classic
  }

  /** The Run action opens a new window for a secondary-button click or
      with Command or Control held. */
  function InNewWindow(button: int, metaKey: bool, ctrlKey: bool): (b: bool)
    ensures b <==> button == 2 || metaKey || ctrlKey
  {
    button == 2 || metaKey || ctrlKey
  }

  /** What the Run action hands to `onRun`. */
  datatype RunRequest = RunRequest(def: RunDef, inNewWindow: bool)

  function HandleRun(d: RunDef, button: int, metaKey: bool, ctrlKey: bool): (r: RunRequest)
    ensures r.def == d
    ensures r.inNewWindow <==> button == 2 || metaKey || ctrlKey
  {
    RunRequest(d, InNewWindow(button, metaKey, ctrlKey))
  }
}
