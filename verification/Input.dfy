/**
 * services/displaysrv/main.rs: where input goes. Device fractions become pixels, pixels become a
 * surface, and events that do not fit wait in a short queue per client.
 */
module Pointing {
  import opened Common
  import opened Surfaces

  const AXIS_SCALE: nat := 65535

  /** A fraction of full scale, as a pixel of an axis `extent` long. */
  function ToPixels(fraction: nat, extent: nat): nat
  {
    if extent == 0 then 0 else Min(fraction, AXIS_SCALE) * (extent - 1) / AXIS_SCALE
  }

  /** `v / AXIS_SCALE` is `t`, from the two inequalities that say so. */
  lemma Quotient(v: nat, t: nat)
    requires t * AXIS_SCALE <= v < t * AXIS_SCALE + AXIS_SCALE
    ensures v / AXIS_SCALE == t
  {
  }

  lemma DivMonotone(v: nat, w: nat)
    requires v <= w
    ensures v / AXIS_SCALE <= w / AXIS_SCALE
  {
  }

  lemma ToPixelsMonotone(f: nat, g: nat, extent: nat)
    requires f <= g
    ensures ToPixels(f, extent) <= ToPixels(g, extent)
  {
    if extent > 0 {
      var (a, b) := (Min(f, AXIS_SCALE), Min(g, AXIS_SCALE));
      MulMonotone(a, b, extent - 1);
      DivMonotone(a * (extent - 1), b * (extent - 1));
    }
  }

  /** Both edges of the device are the edges of the screen, so every position is on it. */
  lemma ToPixelsOnScreen(f: nat, extent: nat)
    requires 0 < extent
    ensures ToPixels(f, extent) < extent
    ensures ToPixels(0, extent) == 0
    ensures f >= AXIS_SCALE ==> ToPixels(f, extent) == extent - 1
  {
  }

  /** The pixel is the position on the axis the fraction stands for, rounded down. */
  lemma ToPixelsInProportion(f: nat, extent: nat)
    requires 0 < extent && f <= AXIS_SCALE
    ensures var x := ToPixels(f, extent);
      x * AXIS_SCALE <= f * (extent - 1) < x * AXIS_SCALE + AXIS_SCALE
  {
  }

  /** The fraction that lands on pixel `t`: `t * AXIS_SCALE / (extent - 1)`, rounded up. */
  lemma PixelReached(t: nat, extent: nat) returns (f: nat)
    requires t < extent && extent - 1 <= AXIS_SCALE
    ensures f <= AXIS_SCALE && ToPixels(f, extent) == t
  {
    var e := extent - 1;
    if e == 0 {
      f := 0;
    } else {
      var v := t * AXIS_SCALE + e - 1;
      f := v / e;
      assert v == f * e + v % e;
      assert t * AXIS_SCALE <= f * e < t * AXIS_SCALE + e;
      MulMonotone(t, e, AXIS_SCALE);
      assert f <= AXIS_SCALE by {
        if f > AXIS_SCALE {
          MulBefore(AXIS_SCALE, f, e);
        }
      }
      Quotient(f * e, t);
    }
  }

  /** On a screen wider than the device resolves, the pixel before the last one cannot be pointed at. */
  lemma PixelMissed(f: nat, extent: nat)
    requires extent - 1 > AXIS_SCALE
    ensures ToPixels(f, extent) != extent - 2
  {
    var e := extent - 1;
    if f >= AXIS_SCALE {
      ToPixelsOnScreen(f, extent);
    } else {
      ToPixelsMonotone(f, AXIS_SCALE - 1, extent);
      var v := (AXIS_SCALE - 1) * e;
      assert v == e * AXIS_SCALE - e;
      assert (v / AXIS_SCALE) * AXIS_SCALE <= v;
    }
  }

  ghost predicate Reachable(t: nat, extent: nat)
  {
    exists f: nat :: ToPixels(f, extent) == t
  }

  /** Every pixel can be pointed at exactly when the axis is no longer than the device's scale. */
  lemma OntoExactly(extent: nat)
    requires 0 < extent
    ensures (forall t: nat :: t < extent ==> Reachable(t, extent)) <==> extent - 1 <= AXIS_SCALE
  {
    if extent - 1 <= AXIS_SCALE {
      forall t: nat | t < extent ensures Reachable(t, extent) {
        var f := PixelReached(t, extent);
      }
    } else {
      var t: nat := extent - 2;
      forall f: nat ensures ToPixels(f, extent) != t {
        PixelMissed(f, extent);
      }
      assert !Reachable(t, extent);
    }
  }
}
