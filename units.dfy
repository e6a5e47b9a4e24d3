/**
 The unit classification of the scroll-timeline polyfill (`isCanonical`
 and `isViewportUnit` in src/utils.js): membership of the lower-cased unit
 name in one of two fixed sets.
 */
module Units {

  /** The canonical units every numeric value is reduced to. */
  const CanonicalUnits: set<string> := {"px", "deg", "s", "hz", "dppx", "number", "fr"}

  /** The viewport-percentage units of CSS Values and Units Level 3,
      section 5.1.2. */
  const ViewportUnits: set<string> := {"vw", "vh", "vmin", "vmax"}

  /** ASCII lower-casing of one character: an upper-case letter becomes
      the lower-case letter 32 code points on, anything else is kept. */
  function LowerChar(c: char): (r: char)
    ensures !('A' <= r <= 'Z')
    ensures r != c ==> 'A' <= c <= 'Z' && r as int == c as int + 32
  {
    if 'A' <= c <= 'Z' then (c as int - 'A' as int + 'a' as int) as char else c
  }

  /** `toLowerCase()`, restricted to ASCII letters: the same length, every
      upper-case letter replaced by its lower-case letter, and every other
      character kept in place. */
  function ToLower(s: string): (r: string)
    ensures |r| == |s| && IsLowerCase(r)
    ensures forall k :: 0 <= k < |s| && !('A' <= s[k] <= 'Z') ==> r[k] == s[k]
    ensures forall k :: 0 <= k < |s| && 'A' <= s[k] <= 'Z' ==> r[k] as int == s[k] as int + 32
  {
    seq(|s|, k requires 0 <= k < |s| => LowerChar(s[k]))
  }

  /** `isCanonical`: the lower-cased unit is one of `CanonicalUnits`. */
  predicate IsCanonical(unit: string) {
    ToLower(unit) in CanonicalUnits
  }

  /** `isViewportUnit`: the lower-cased unit is one of `ViewportUnits`. */
  predicate IsViewportUnit(unit: string) {
    ToLower(unit) in ViewportUnits
  }

  /** `a` and `b` spell the same name in any mix of ASCII upper and lower
      case. */
  predicate SameIgnoringCase(a: string, b: string) {
    |a| == |b| && forall k :: 0 <= k < |a| ==> LowerChar(a[k]) == LowerChar(b[k])
  }

  predicate IsLowerCase(s: string) {
    forall k :: 0 <= k < |s| ==> !('A' <= s[k] <= 'Z')
  }

  lemma LowerCaseFixed(s: string)
    requires IsLowerCase(s)
    ensures ToLower(s) == s
  {
  }

  /** Membership after lower-casing is membership up to case, for a set
      written in lower case. */
  lemma MembershipIgnoresCase(unit: string, units: set<string>)
    requires forall c :: c in units ==> IsLowerCase(c)
    ensures ToLower(unit) in units <==> exists c :: c in units && SameIgnoringCase(unit, c)
  {
    if ToLower(unit) in units {
      var c := ToLower(unit);
      assert SameIgnoringCase(unit, c);
    }
    if c :| c in units && SameIgnoringCase(unit, c) {
      LowerCaseFixed(c);
      assert ToLower(unit) == c;
    }
  }

  /** A unit is canonical exactly when it spells a canonical unit in some
      mix of case. */
  lemma IsCanonicalIgnoresCase(unit: string)
    ensures IsCanonical(unit) <==> exists c :: c in CanonicalUnits && SameIgnoringCase(unit, c)
  {
    MembershipIgnoresCase(unit, CanonicalUnits);
  }

  /** A unit is a viewport unit exactly when it spells one of vw, vh, vmin
      and vmax in some mix of case. */
  lemma IsViewportUnitIgnoresCase(unit: string)
    ensures IsViewportUnit(unit) <==> exists c :: c in ViewportUnits && SameIgnoringCase(unit, c)
  {
    MembershipIgnoresCase(unit, ViewportUnits);
  }

  /** No unit is both canonical and viewport-relative. */
  lemma CanonicalAndViewportDisjoint(unit: string)
    ensures !(IsCanonical(unit) && IsViewportUnit(unit))
  {
  }

  lemma UnitExamples()
    ensures IsCanonical("PX") && IsCanonical("Hz") && !IsCanonical("em")
    ensures IsViewportUnit("VMin") && !IsViewportUnit("vb")
  {
    assert ToLower("PX") == "px";
    assert ToLower("Hz") == "hz";
    assert ToLower("VMin") == "vmin";
    assert ToLower("em") == "em";
    assert ToLower("vb") == "vb";
  }
}
