/**
 * How a freshly loaded picture is placed on the logical canvas: overlays are
 * shrunk to fit into 60% of the canvas (never enlarged) and centred; backgrounds
 * are scaled to cover the whole canvas and centred.
 */
module Fit {

  /** A decoded picture's natural size. */
  datatype ImageSize = ImageSize(width: real, height: real)

  /** Where a picture sits: its top-left corner and its scale factors. */
  datatype Placement = Placement(left: real, top: real, scaleX: real, scaleY: real)

  /** The placement of a picture as it comes out of the loader. */
  const Loaded := Placement(0.0, 0.0, 1.0, 1.0)

  /** The placement used for an overlay when a size is missing. */
  const OverlayFallback := Placement(80.0, 120.0, 0.5, 0.5)

  /** Share of the canvas an overlay may take in each direction. */
  const OverlayShare: real := 0.6

  function Min(a: real, b: real): real { if a < b then a else b }
  function Max(a: real, b: real): real { if a < b then b else a }

  /** Both the canvas and the picture have every size set. */
  predicate Measured(width: int, height: int, img: ImageSize) {
    width != 0 && height != 0 && img.width != 0.0 && img.height != 0.0
  }

  predicate Positive(width: int, height: int, img: ImageSize) {
    width > 0 && height > 0 && img.width > 0.0 && img.height > 0.0
  }

  /** `s` is the largest factor that fits `w` into `limit`, for `w > 0`. */
  lemma RatioFacts(limit: real, w: real, s: real)
    requires w > 0.0
    ensures (limit / w) * w == limit
    ensures s <= limit / w ==> w * s <= limit
    ensures s >= limit / w ==> w * s >= limit
  {
  }

  /**
   * `addOverlayImageToCanvas`: with every size known the overlay is scaled
   * uniformly by min(0.6 W / w, 0.6 H / h, 1), so it fits into 60% of the canvas
   * in both directions, is never enlarged, and touches one of the three bounds;
   * it is centred. Without every size it goes to a fixed spot at half scale.
   */
  function Overlay(width: int, height: int, img: ImageSize): (p: Placement)
    ensures !Measured(width, height, img) ==> p == OverlayFallback
    ensures Measured(width, height, img) ==> p.scaleX == p.scaleY
    ensures Positive(width, height, img) ==>
              && 0.0 < p.scaleX <= 1.0
              && img.width * p.scaleX <= OverlayShare * width as real
              && img.height * p.scaleX <= OverlayShare * height as real
              && (p.scaleX == 1.0
                  || img.width * p.scaleX == OverlayShare * width as real
                  || img.height * p.scaleX == OverlayShare * height as real)
              && 2.0 * p.left + img.width * p.scaleX == width as real
              && 2.0 * p.top + img.height * p.scaleX == height as real
  {
    if Measured(width, height, img) then
      var maxWidth := OverlayShare * width as real;
      var maxHeight := OverlayShare * height as real;
      var s := Min(Min(maxWidth / img.width, maxHeight / img.height), 1.0);
      var p := Placement((width as real - img.width * s) / 2.0, (height as real - img.height * s) / 2.0, s, s);
      if Positive(width, height, img) then
        RatioFacts(maxWidth, img.width, s);
        RatioFacts(maxHeight, img.height, s);
        p
      else p
    else OverlayFallback
  }

  /**
   * `applyBackgroundFromSource`'s placement: with every size known the background
   * is scaled uniformly by max(W / w, H / h), so it covers the canvas in both
   * directions and matches it exactly in one, and it is centred (any overflow is
   * cropped equally on both sides). With only the canvas width known it is scaled
   * to that width.
   */
  function Cover(width: int, height: int, img: ImageSize): (p: Placement)
    ensures Measured(width, height, img) ==> p.scaleX == p.scaleY
    ensures Positive(width, height, img) ==>
              && p.scaleX > 0.0
              && img.width * p.scaleX >= width as real
              && img.height * p.scaleX >= height as real
              && (img.width * p.scaleX == width as real || img.height * p.scaleX == height as real)
              && 2.0 * p.left + img.width * p.scaleX == width as real
              && 2.0 * p.top + img.height * p.scaleX == height as real
              && p.left <= 0.0 && p.top <= 0.0
    ensures !Measured(width, height, img) && width != 0 && img.width != 0.0 ==>
              p == Loaded.(scaleX := width as real / img.width, scaleY := width as real / img.width)
    ensures !Measured(width, height, img) && (width == 0 || img.width == 0.0) ==> p == Loaded
  {
    if Measured(width, height, img) then
      var s := Max(width as real / img.width, height as real / img.height);
      var p := Placement((width as real - img.width * s) / 2.0, (height as real - img.height * s) / 2.0, s, s);
      if Positive(width, height, img) then
        RatioFacts(width as real, img.width, s);
        RatioFacts(height as real, img.height, s);
        p
      else p
    else if width != 0 && img.width != 0.0 then
      var s := width as real / img.width;
      Loaded.(scaleX := s, scaleY := s)
    else Loaded
  }
}
