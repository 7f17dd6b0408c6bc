/** The disk-chunk busy indicator of the `Mac` component and its debounced
    clear. A start sets the flag and cancels the pending clear; a finish
    (re)schedules the clear `ClearDelayMs` later; the clear fires when the
    clock reaches it. The browser timer becomes an optional deadline and
    the passage of time an explicit `Advance`. */
module ChunkDebounce {
  import opened Common

  const ClearDelayMs: int := 200

  /** The busy flag, the deadline of the one pending clear (the timeout
      handle), and the clock. */
  datatype Timer = Timer(busy: bool, deadline: Option<int>, nowMs: int)

  /** A pending clear lies in the future, at most one delay away. */
  predicate Valid(t: Timer)
  {
    t.deadline.Some? ==> t.nowMs < t.deadline.value <= t.nowMs + ClearDelayMs
  }

  /** `emulatorDidStartToLoadDiskChunk`. */
  function StartChunk(t: Timer): Timer
  {
    Timer(true, None, t.nowMs)
  }

  /** `emulatorDidFinishLoadingDiskChunk`: cancel and reschedule. */
  function FinishChunk(t: Timer): Timer
  {
    t.(deadline := Some(t.nowMs + ClearDelayMs))
  }

  /** Lets `ms` milliseconds pass; a clear due by then fires. */
  function Advance(t: Timer, ms: nat): Timer
  {
    var now := t.nowMs + ms;
    if t.deadline.Some? && t.deadline.value <= now then Timer(false, None, now)
    else t.(nowMs := now)
  }

  datatype ChunkEvent = Started | Finished

  function OnEvent(t: Timer, e: ChunkEvent): Timer
  {
    match e
    case Started => StartChunk(t)
    case Finished => FinishChunk(t)
  }

  /** Each step of a burst is a chunk event followed by a quiet gap. */
  function RunBurst(t: Timer, burst: seq<(ChunkEvent, nat)>): Timer
    decreases |burst|
  {
    if burst == [] then t
    else
      var (e, gap) := burst[|burst| - 1];
      Advance(OnEvent(RunBurst(t, burst[..|burst| - 1]), e), gap)
  }

  /** Every gap in the burst is shorter than the clear delay. */
  predicate Rapid(burst: seq<(ChunkEvent, nat)>)
  {
    forall i :: 0 <= i < |burst| ==> burst[i].1 < ClearDelayMs
  }

  /** Every event and every passage of time keeps `Valid`: there is never
      more than one pending clear, and it is never overdue. */
  lemma StepsPreserveValid(t: Timer, ms: nat)
    requires Valid(t)
    ensures Valid(StartChunk(t)) && Valid(FinishChunk(t)) && Valid(Advance(t, ms))
  {
  }

  /** The flag goes from busy to idle only when time passes far enough to
      reach a pending clear, which a finish scheduled `ClearDelayMs` before
      its deadline with no start since. */
  lemma ClearsOnlyWhenDue(t: Timer, ms: nat)
    requires t.busy && !Advance(t, ms).busy
    ensures t.deadline.Some? && t.deadline.value <= t.nowMs + ms
    ensures Advance(t, ms).deadline.None?
  {
  }

  /** Neither event ever clears the flag: a start sets it, a finish leaves
      it as it is. */
  lemma EventsNeverClear(t: Timer)
    ensures StartChunk(t).busy && StartChunk(t).deadline.None?
    ensures FinishChunk(t).busy == t.busy
    ensures FinishChunk(t).deadline == Some(t.nowMs + ClearDelayMs)
  {
  }

  ghost predicate BusyAndNotDue(t: Timer)
  {
    t.busy && (t.deadline.Some? ==> t.nowMs < t.deadline.value)
  }

  lemma {:induction false} RapidBurstStaysBusy(t: Timer, burst: seq<(ChunkEvent, nat)>)
    requires t.busy && Rapid(burst)
    ensures BusyAndNotDue(RunBurst(t, burst)) || (burst == [] && t.busy)
    decreases |burst|
  {
    if burst != [] {
      var prefix := burst[..|burst| - 1];
      assert Rapid(prefix) by {
        forall i | 0 <= i < |prefix| ensures prefix[i].1 < ClearDelayMs {
          assert prefix[i] == burst[i];
        }
      }
      RapidBurstStaysBusy(t, prefix);
      assert burst[|burst| - 1].1 < ClearDelayMs;
    }
  }

  /** A burst of chunk loads that starts with a start and never falls
      quiet for `ClearDelayMs` keeps the flag set throughout; after its
      final finish the flag clears exactly when `ClearDelayMs` have passed. */
  lemma {:induction false} BurstSetsOnceAndClearsOnce(t: Timer, burst: seq<(ChunkEvent, nat)>, quietMs: nat)
    requires Rapid(burst)
    ensures forall k :: 0 <= k <= |burst| ==> RunBurst(StartChunk(t), burst[..k]).busy
    ensures Advance(FinishChunk(RunBurst(StartChunk(t), burst)), quietMs).busy <==> quietMs < ClearDelayMs
  {
    var t0 := StartChunk(t);
    forall k | 0 <= k <= |burst|
      ensures RunBurst(t0, burst[..k]).busy
    {
      var prefix := burst[..k];
      assert Rapid(prefix) by {
        forall i | 0 <= i < |prefix| ensures prefix[i].1 < ClearDelayMs {
          assert prefix[i] == burst[i];
        }
      }
      RapidBurstStaysBusy(t0, prefix);
    }
    assert burst[..|burst|] == burst;
  }
}
