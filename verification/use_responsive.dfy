/**
 * `useResponsive`: the window width, kept current by a `resize` listener while the
 * component is mounted, and its classification into the three layout breakpoints.
 */
module UseResponsive {
  const TabletMin: int := 640
  const DesktopMin: int := 1024

  /** What the hook returns. */
  datatype Layout = Layout(isMobile: bool, isTablet: bool, isDesktop: bool, width: int)

  function Classify(width: int): (r: Layout)
    ensures r.width == width
    ensures r.isMobile <==> width < 640
    ensures r.isTablet <==> 640 <= width < 1024
    ensures r.isDesktop <==> width >= 1024
  {
    Layout(width < TabletMin, width >= TabletMin && width < DesktopMin, width >= DesktopMin, width)
  }

  /** Every width is in exactly one of the three classes. */
  lemma ExactlyOneClass(width: int)
    ensures var r := Classify(width);
      (if r.isMobile then 1 else 0) + (if r.isTablet then 1 else 0) + (if r.isDesktop then 1 else 0) == 1
  {
  }

  /** The classification is monotone: a wider window is never in a narrower class. */
  lemma ClassifyMonotone(w1: int, w2: int)
    requires w1 <= w2
    ensures Classify(w2).isMobile ==> Classify(w1).isMobile
    ensures Classify(w1).isDesktop ==> Classify(w2).isDesktop
  {
  }

  /**
   * The breakpoints sit exactly at 640 and 1024: with `ExactlyOneClass` and
   * `ClassifyMonotone` these fix the class of every width.
   */
  lemma ClassifyBreakpoints()
    ensures Classify(639).isMobile && Classify(640).isTablet
    ensures Classify(1023).isTablet && Classify(1024).isDesktop
  {
  }

  class Viewport {
    /** The hook's `width` state. */
    var width: int
    /** Whether the `resize` handler is registered on the window. */
    var listening: bool

    /** First render: `useState(window.innerWidth)`; the effect has not run yet. */
    constructor (innerWidth: int)
      ensures width == innerWidth && !listening
    {
      width := innerWidth;
      listening := false;
    }

    /** The effect: `window.addEventListener('resize', handle)`. */
    method Mount()
      modifies this
      ensures listening && width == old(width)
    {
      listening := true;
    }

    /** A `resize` event: while the handler is registered, `width` becomes `innerWidth`. */
    method OnResize(innerWidth: int)
      modifies this
      ensures listening == old(listening)
      ensures width == if listening then innerWidth else old(width)
    {
      if listening {
        width := innerWidth;
      }
    }

    /** The cleanup: `window.removeEventListener('resize', handle)`. */
    method Unmount()
      modifies this
      ensures !listening && width == old(width)
    {
      listening := false;
    }
  }
}
