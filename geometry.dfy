/** Screen geometry in the `Mac` component: the initial screen size and the
    bezel tier around the emulated screen. */
module ScreenGeometry {
  import opened Common
  import opened Catalog

  /** Below this much horizontal room beside the screen the bezel is small. */
  const SmallBezelThreshold: int := 80
  /** Below this much it is medium; this is also the chrome margin taken off
      both window dimensions when choosing the initial screen size. */
  const MediumBezelThreshold: int := 168

  /** The standard resolutions, largest first. */
  const StandardSizes: seq<ScreenSize> := [
    ScreenSize(1600, 1200),
    ScreenSize(1280, 1024),
    ScreenSize(1152, 870),
    ScreenSize(1024, 768),
    ScreenSize(800, 600),
    ScreenSize(640, 480)
  ]

  const FallbackSize: ScreenSize := ScreenSize(640, 480)

  /** `size` fits in the window once the chrome margin is taken off. */
  predicate FitsWindow(size: ScreenSize, innerWidth: int, innerHeight: int)
  {
    size.width <= innerWidth - MediumBezelThreshold && size.height <= innerHeight - MediumBezelThreshold
  }

  /** No standard size before index `k` fits the window. */
  predicate FirstFitAt(k: nat, innerWidth: int, innerHeight: int)
  {
    forall j :: 0 <= j < k && j < |StandardSizes| ==> !FitsWindow(StandardSizes[j], innerWidth, innerHeight)
  }

  /** `size` is the size chosen for the window: a standard size that no
      earlier standard size beats, and one that fits unless it is the
      640x480 fallback. */
  ghost predicate ChosenForWindow(size: ScreenSize, innerWidth: int, innerHeight: int)
  {
    && (exists k :: 0 <= k < |StandardSizes| && StandardSizes[k] == size && FirstFitAt(k, innerWidth, innerHeight))
    && (FitsWindow(size, innerWidth, innerHeight) || size == FallbackSize)
  }

  /** The choice is determined by the window: at most one size is chosen. */
  lemma ChosenForWindowUnique(a: ScreenSize, b: ScreenSize, innerWidth: int, innerHeight: int)
    requires ChosenForWindow(a, innerWidth, innerHeight) && ChosenForWindow(b, innerWidth, innerHeight)
    ensures a == b
  {
    var ka :| 0 <= ka < |StandardSizes| && StandardSizes[ka] == a && FirstFitAt(ka, innerWidth, innerHeight);
    var kb :| 0 <= kb < |StandardSizes| && StandardSizes[kb] == b && FirstFitAt(kb, innerWidth, innerHeight);
    if ka < kb {
      assert !FitsWindow(StandardSizes[ka], innerWidth, innerHeight);
    } else if kb < ka {
      assert !FitsWindow(StandardSizes[kb], innerWidth, innerHeight);
    }
  }

  /** The screen size for a machine without a fixed one: the first
      standard size that fits the window, else 640x480. The result is
      always a standard size, the first that fits, and no fitting standard
      size is larger in either dimension. */
  method ScreenSizeForWindow(innerWidth: int, innerHeight: int) returns (size: ScreenSize)
    ensures size in StandardSizes && size.width > 0 && size.height > 0
    ensures ChosenForWindow(size, innerWidth, innerHeight)
    ensures (forall j :: 0 <= j < |StandardSizes| ==> !FitsWindow(StandardSizes[j], innerWidth, innerHeight))
      ==> size == FallbackSize
    ensures forall j :: 0 <= j < |StandardSizes| && FitsWindow(StandardSizes[j], innerWidth, innerHeight) ==>
      StandardSizes[j].width <= size.width && StandardSizes[j].height <= size.height
  {
    var availableWidth := innerWidth - MediumBezelThreshold;
    var availableHeight := innerHeight - MediumBezelThreshold;
    for i := 0 to |StandardSizes|
      invariant forall j :: 0 <= j < i ==> !FitsWindow(StandardSizes[j], innerWidth, innerHeight)
    {
      var candidate := StandardSizes[i];
      if candidate.width <= availableWidth && candidate.height <= availableHeight {
        assert forall j :: i < j < |StandardSizes| ==>
          StandardSizes[j].width < candidate.width && StandardSizes[j].height < candidate.height;
        assert FirstFitAt(i, innerWidth, innerHeight);
        return candidate;
      }
    }
    assert StandardSizes[5] == FallbackSize && FirstFitAt(5, innerWidth, innerHeight);
    return FallbackSize;
  }

  /** The machine's fixed screen size if it declares one, otherwise the
      size chosen for the window. */
  method InitialScreenSize(machine: Machine, innerWidth: int, innerHeight: int) returns (size: ScreenSize)
    ensures machine.fixedScreenSize.Some? ==> size == machine.fixedScreenSize.value
    ensures machine.fixedScreenSize.None? ==>
      size in StandardSizes && size.width > 0 && size.height > 0 && ChosenForWindow(size, innerWidth, innerHeight)
  {
    var forWindow := ScreenSizeForWindow(innerWidth, innerHeight);
    size := machine.fixedScreenSize.GetOr(forWindow);
  }

  datatype BezelSize = Small | Medium | Large

  function Rank(b: BezelSize): nat
  {
    match b
    case Small => 0
    case Medium => 1
    case Large => 2
  }

  /** The bezel tier from the horizontal room left beside the screen. */
  function BezelSizeFor(innerWidth: int, screenWidth: int): (b: BezelSize)
    ensures b == Small <==> innerWidth - screenWidth < SmallBezelThreshold
    ensures b == Medium <==> SmallBezelThreshold <= innerWidth - screenWidth < MediumBezelThreshold
    ensures b == Large <==> innerWidth - screenWidth >= MediumBezelThreshold
  {
    var availableSpace := innerWidth - screenWidth;
    if availableSpace < SmallBezelThreshold then Small
    else if availableSpace < MediumBezelThreshold then Medium
    else Large
  }

  /** A wider window, or a narrower screen, never gives a smaller bezel. */
  lemma BezelMonotone(innerWidth: int, innerWidth': int, screenWidth: int, screenWidth': int)
    requires innerWidth - screenWidth <= innerWidth' - screenWidth'
    ensures Rank(BezelSizeFor(innerWidth, screenWidth)) <= Rank(BezelSizeFor(innerWidth', screenWidth'))
  {
  }
}
