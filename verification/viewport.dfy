/**
 * The viewport scaler of the canvas editor: a fixed logical canvas size is shown
 * in a display box scaled to the width the page offers, while the backing store
 * keeps the logical size.
 */
module Viewport {
  import opened Wrappers

  /** Smallest and largest zoom factor. */
  const MinZoom: real := 0.1
  const MaxZoom: real := 1.0

  /** Floor on the width offered by a measured parent or by the window. */
  const MinAvailable: real := 240.0

  /** What the window fallback subtracts from the window's inner width. */
  const WindowGutter: real := 64.0

  /** `Math.round`: the nearest integer, halves going up. */
  function Round(x: real): (n: int)
    ensures n as real - 0.5 <= x < n as real + 0.5
  {
    (x + 0.5).Floor
  }

  lemma RoundMonotone(x: real, y: real)
    requires x <= y
    ensures Round(x) <= Round(y)
  {
  }

  lemma RoundOfInteger(n: int)
    ensures Round(n as real) == n
  {
  }

  /** Where the available width is measured. */
  datatype Host =
    /** The frame has a parent element: its client width minus its horizontal
        padding (zero when no computed style is available). */
    | Parent(clientWidth: real, horizontalPadding: real)
    /** No parent element, but a window. */
    | Window(innerWidth: real)
    /** Neither: the logical width itself is used. */
    | Headless

  function Max(a: real, b: real): real { if a < b then b else a }
  function Min(a: real, b: real): real { if a < b then a else b }

  /** The width the canvas may occupy on screen. */
  function AvailableWidth(host: Host, baseWidth: int): (a: real)
    ensures host.Headless? ==> a == baseWidth as real
    ensures !host.Headless? ==> a >= MinAvailable
    ensures host.Parent? ==> (a == MinAvailable || a == host.clientWidth - host.horizontalPadding)
    ensures host.Window? ==> (a == MinAvailable || a == host.innerWidth - WindowGutter)
  {
    match host
    case Parent(w, pad) => Max(w - pad, MinAvailable)
    case Window(w) => Max(w - WindowGutter, MinAvailable)
    case Headless => baseWidth as real
  }

  /** The display state of the canvas after a recomputation. */
  datatype View = View(
    zoom: real,
    displayWidth: int,
    displayHeight: int,
    backstoreWidth: int,
    backstoreHeight: int)

  /** `available / base` clamped into [MinZoom, MaxZoom]. */
  function Zoom(available: real, baseWidth: int): (z: real)
    requires baseWidth != 0
    ensures MinZoom <= z <= MaxZoom
    ensures baseWidth > 0 ==> (z == MaxZoom <==> available >= baseWidth as real)
    ensures baseWidth > 0 ==> (z == MinZoom <==> available <= MinZoom * baseWidth as real)
    ensures baseWidth > 0 && MinZoom * baseWidth as real <= available <= baseWidth as real
            ==> z * baseWidth as real == available
  {
    var z := Min(Max(available / baseWidth as real, MinZoom), MaxZoom);
    if baseWidth > 0 then ClampFacts(available, baseWidth as real, z); z else z
  }

  lemma ClampFacts(available: real, b: real, z: real)
    requires b > 0.0 && z == Min(Max(available / b, MinZoom), MaxZoom)
    ensures z == MaxZoom <==> available >= b
    ensures z == MinZoom <==> available <= MinZoom * b
    ensures MinZoom * b <= available <= b ==> z * b == available
  {
    assert available / b * b == available;
    DivMonotone(available, b, b);
    DivMonotone(MinZoom * b, b, available);
    DivMonotone(available, b, MinZoom * b);
    DivMonotone(b, b, available);
  }

  lemma DivMonotone(x: real, b: real, y: real)
    requires b > 0.0
    ensures x <= y <==> x / b <= y / b
    ensures x == y <==> x / b == y / b
    ensures (MinZoom * b) / b == MinZoom && b / b == 1.0
  {
    assert x / b * b == x && y / b * b == y;
  }

  /**
   * `recomputeViewport`: nothing happens when the canvas is not ready or a logical
   * dimension is missing; otherwise the backing store is the logical size, and the
   * display box is the logical size times the clamped zoom, rounded.
   */
  function Recompute(ready: bool, baseWidth: int, baseHeight: int, host: Host): (r: Option<View>)
    ensures r.None? <==> !ready || baseWidth == 0 || baseHeight == 0
    ensures r.Some? ==> MinZoom <= r.value.zoom <= MaxZoom
    ensures r.Some? ==> r.value.backstoreWidth == baseWidth && r.value.backstoreHeight == baseHeight
    ensures r.Some? ==> r.value.zoom == Zoom(AvailableWidth(host, baseWidth), baseWidth)
    ensures r.Some? ==> && r.value.displayWidth == Round(baseWidth as real * r.value.zoom)
                        && r.value.displayHeight == Round(baseHeight as real * r.value.zoom)
    ensures r.Some? && baseWidth > 0 && baseHeight > 0 ==>
              0 <= r.value.displayWidth <= baseWidth && 0 <= r.value.displayHeight <= baseHeight
    ensures r.Some? && baseWidth > 0 && AvailableWidth(host, baseWidth) >= MinZoom * baseWidth as real ==>
              r.value.displayWidth <= Round(AvailableWidth(host, baseWidth))
  {
    if !ready || baseWidth == 0 || baseHeight == 0 then None
    else
      var available := AvailableWidth(host, baseWidth);
      var zoom := Zoom(available, baseWidth);
      var view := View(zoom, Round(baseWidth as real * zoom), Round(baseHeight as real * zoom),
                       baseWidth, baseHeight);
      ViewBounds(baseWidth, baseHeight, available, zoom);
      Some(view)
  }

  /** The display box of a logical size under the clamped zoom: within the logical
      box, and no wider than the available space unless the zoom was clamped up. */
  lemma ViewBounds(baseWidth: int, baseHeight: int, available: real, zoom: real)
    requires baseWidth != 0 && zoom == Zoom(available, baseWidth)
    ensures baseWidth > 0 && baseHeight > 0 ==>
              0 <= Round(baseWidth as real * zoom) <= baseWidth && 0 <= Round(baseHeight as real * zoom) <= baseHeight
    ensures baseWidth > 0 && available >= MinZoom * baseWidth as real ==>
              Round(baseWidth as real * zoom) <= Round(available)
  {
    assert MinZoom <= zoom <= MaxZoom;
    if baseWidth > 0 && baseHeight > 0 {
      ScaledBounds(baseWidth, zoom);
      ScaledBounds(baseHeight, zoom);
    }
    if baseWidth > 0 && available >= MinZoom * baseWidth as real {
      FitsAvailable(available, baseWidth, zoom);
    }
  }

  /** A dimension scaled by a zoom in [MinZoom, MaxZoom] and rounded stays within
      [0, dimension]. */
  lemma ScaledBounds(n: int, zoom: real)
    requires n > 0 && MinZoom <= zoom <= MaxZoom
    ensures 0 <= Round(n as real * zoom) <= n
  {
    var x := n as real * zoom;
    assert 0.0 <= x by { assert n as real >= 0.0 && zoom >= 0.0; }
    assert n as real - x == n as real * (MaxZoom - zoom);
    assert x <= n as real;
    RoundMonotone(0.0, x);
    RoundMonotone(x, n as real);
    RoundOfInteger(n);
  }

  lemma FitsAvailable(available: real, baseWidth: int, zoom: real)
    requires baseWidth > 0 && available >= MinZoom * baseWidth as real
    requires zoom == Zoom(available, baseWidth)
    ensures Round(baseWidth as real * zoom) <= Round(available)
  {
    var b := baseWidth as real;
    if available >= b {
      assert zoom == 1.0;
    } else {
      assert zoom * b == available;
    }
    RoundMonotone(b * zoom, available);
  }
}
