/**
 The viewport unit resolver of the scroll-timeline polyfill
 (`resolveViewportUnit` in src/utils.js): a length in one of the
 viewport-percentage units of CSS Values and Units Level 3, section 5.1.2,
 becomes a length in the unit the viewport dimensions are given in.
 */
module Viewport {
  import opened Wrappers
  import Units

  /** A `CSSUnitValue`: a magnitude and a unit name. */
  datatype UnitValue = UnitValue(value: real, unit: string)

  /** A `CSSNumericValue`: a `CSSUnitValue`, or any other kind of numeric
      value (a sum, a product, ...), whose contents do not matter here. */
  datatype NumericValue = UnitNumeric(unitValue: UnitValue) | OtherNumeric

  /** The viewport dimensions, either of which may be unknown. */
  datatype Info = Info(viewportWidth: Option<UnitValue>, viewportHeight: Option<UnitValue>)

  function Min(a: real, b: real): (m: real)
    ensures m <= a && m <= b && (m == a || m == b)
  {
    if a <= b then a else b
  }

  function Max(a: real, b: real): (m: real)
    ensures m >= a && m >= b && (m == a || m == b)
  {
    if a >= b then a else b
  }

  predicate HasViewport(info: Info) {
    info.viewportWidth.Some? && info.viewportHeight.Some?
  }

  /** `resolveViewportUnit`. `None` is the source's `null`: not a unit
      value, an unknown dimension, or a unit other than exactly `vw`,
      `vh`, `vmin` or `vmax`. */
  function ResolveViewportUnit(root: NumericValue, info: Info): (r: Option<UnitValue>)
    ensures r.Some? <==> root.UnitNumeric? && HasViewport(info) && root.unitValue.unit in Units.ViewportUnits
    // the unit of the result is the height's for vh, and the width's otherwise
    ensures r.Some? ==>
              r.value.unit == (if root.unitValue.unit == "vh" then info.viewportHeight.value.unit
                               else info.viewportWidth.value.unit)
  {
    if !root.UnitNumeric? then None
    else if !HasViewport(info) then None
    else
      var v, w, h := root.unitValue, info.viewportWidth.value, info.viewportHeight.value;
      if v.unit == "vw" then Some(UnitValue(v.value * w.value / 100.0, w.unit))
      else if v.unit == "vh" then Some(UnitValue(v.value * h.value / 100.0, h.unit))
      else if v.unit == "vmin" then Some(UnitValue(v.value * Min(w.value, h.value) / 100.0, w.unit))
      else if v.unit == "vmax" then Some(UnitValue(v.value * Max(w.value, h.value) / 100.0, w.unit))
      else None
  }

  function Resolve(p: real, unit: string, info: Info): Option<UnitValue> {
    ResolveViewportUnit(UnitNumeric(UnitValue(p, unit)), info)
  }

  /** 100vw is the viewport width and 100vh the viewport height; 100vmin
      and 100vmax are the smaller and the larger of the two, in the width's
      unit. */
  lemma HundredIsFullExtent(info: Info)
    requires HasViewport(info)
    ensures Resolve(100.0, "vw", info) == info.viewportWidth
    ensures Resolve(100.0, "vh", info) == info.viewportHeight
    ensures Resolve(100.0, "vmin", info) ==
      Some(UnitValue(Min(info.viewportWidth.value.value, info.viewportHeight.value.value), info.viewportWidth.value.unit))
    ensures Resolve(100.0, "vmax", info) ==
      Some(UnitValue(Max(info.viewportWidth.value.value, info.viewportHeight.value.value), info.viewportWidth.value.unit))
  {
  }

  /** The resolved magnitude is linear in the given one. */
  lemma ResolveIsLinear(p: real, q: real, a: real, unit: string, info: Info)
    requires Resolve(p, unit, info).Some?
    ensures Resolve(q, unit, info).Some? && Resolve(a * p + q, unit, info).Some?
    ensures Resolve(a * p + q, unit, info).value.value ==
      a * Resolve(p, unit, info).value.value + Resolve(q, unit, info).value.value
    ensures Resolve(a * p + q, unit, info).value.unit == Resolve(p, unit, info).value.unit
  {
    var w, h := info.viewportWidth.value.value, info.viewportHeight.value.value;
    var d := if unit == "vw" then w else if unit == "vh" then h
             else if unit == "vmin" then Min(w, h) else Max(w, h);
    assert Resolve(p, unit, info).value.value == p * d / 100.0;
    assert Resolve(q, unit, info).value.value == q * d / 100.0;
    assert Resolve(a * p + q, unit, info).value.value == (a * p + q) * d / 100.0;
    Distributes(a, p, q, d);
  }

  lemma Distributes(a: real, p: real, q: real, d: real)
    ensures (a * p + q) * d / 100.0 == a * (p * d / 100.0) + q * d / 100.0
  {
  }

  /** vmin is always the vw or the vh length and, for a non-negative
      magnitude, no longer than either; vmax likewise the longer one. */
  lemma MinMaxAreExtremes(p: real, info: Info)
    requires HasViewport(info)
    ensures Resolve(p, "vmin", info).value.value == Resolve(p, "vw", info).value.value
         || Resolve(p, "vmin", info).value.value == Resolve(p, "vh", info).value.value
    ensures Resolve(p, "vmax", info).value.value == Resolve(p, "vw", info).value.value
         || Resolve(p, "vmax", info).value.value == Resolve(p, "vh", info).value.value
    ensures p >= 0.0 ==>
      Resolve(p, "vmin", info).value.value <= Resolve(p, "vw", info).value.value &&
      Resolve(p, "vmin", info).value.value <= Resolve(p, "vh", info).value.value &&
      Resolve(p, "vmax", info).value.value >= Resolve(p, "vw", info).value.value &&
      Resolve(p, "vmax", info).value.value >= Resolve(p, "vh", info).value.value
  {
    var w, h := info.viewportWidth.value.value, info.viewportHeight.value.value;
    if p >= 0.0 {
      assert p * Min(w, h) <= p * w && p * Min(w, h) <= p * h;
      assert p * Max(w, h) >= p * w && p * Max(w, h) >= p * h;
    }
  }

  /** vmin and vmax keep the width's unit even when the height is the
      dimension chosen. */
  lemma MinMaxUseWidthUnit(p: real, info: Info)
    requires HasViewport(info)
    ensures Resolve(p, "vmin", info).value.unit == info.viewportWidth.value.unit
    ensures Resolve(p, "vmax", info).value.unit == info.viewportWidth.value.unit
  {
  }

  /** Unlike `isViewportUnit`, the resolver compares the unit name
      exactly: every unit it resolves is a viewport unit, but an upper-case
      spelling of one is not resolved. */
  lemma ResolveIsCaseSensitive(info: Info)
    requires HasViewport(info)
    ensures forall u :: Resolve(1.0, u, info).Some? ==> Units.IsViewportUnit(u)
    ensures Units.IsViewportUnit("VW") && Resolve(1.0, "VW", info).None?
  {
    forall u | Resolve(1.0, u, info).Some? ensures Units.IsViewportUnit(u) {
      Units.LowerCaseFixed(u);
    }
    assert Units.ToLower("VW") == "vw";
  }

  lemma ViewportExamples()
    ensures var info := Info(Some(UnitValue(800.0, "px")), Some(UnitValue(600.0, "px")));
      && Resolve(50.0, "vw", info) == Some(UnitValue(400.0, "px"))
      && Resolve(50.0, "vh", info) == Some(UnitValue(300.0, "px"))
      && Resolve(10.0, "vmin", info) == Some(UnitValue(60.0, "px"))
      && Resolve(10.0, "vmax", info) == Some(UnitValue(80.0, "px"))
      && Resolve(10.0, "px", info) == None
      && ResolveViewportUnit(OtherNumeric, info) == None
    ensures Resolve(10.0, "vw", Info(None, Some(UnitValue(600.0, "px")))) == None
  {
  }
}
