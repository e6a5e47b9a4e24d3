/**
 The axis normalizer of the scroll-timeline polyfill (`normalizeAxis` in
 src/utils.js): a physical axis is returned as it is, a logical axis is
 mapped to the physical axis it runs along in the writing mode of the
 source element, after the logical-to-physical mapping of CSS Writing
 Modes Level 3, section 6.1, reduced to `horizontal-tb` and all other
 writing modes.
 */
module Axis {
  import opened Wrappers

  /** The two errors `normalizeAxis` throws. */
  datatype AxisError =
    | MissingContext          // a logical axis without a computed style
    | InvalidAxis(axis: string)

  /** The computed style of the source element, reduced to its writing
      mode. */
  datatype ComputedStyle = ComputedStyle(writingMode: string)

  predicate IsPhysical(axis: string) {
    axis == "x" || axis == "y"
  }

  function NormalizeAxis(axis: string, computedStyle: Option<ComputedStyle>): (r: Result<string, AxisError>)
    // a physical axis comes back unchanged, with or without a style
    ensures IsPhysical(axis) ==> r == Ok(axis)
    // every success is a physical axis
    ensures r.Ok? ==> IsPhysical(r.value)
    // the missing style is reported first, even for an unknown axis
    ensures r == Err(MissingContext) <==> !IsPhysical(axis) && computedStyle.None?
    // with a style, only the four keywords are accepted
    ensures r.Err? && r.error.InvalidAxis? <==>
              computedStyle.Some? && !IsPhysical(axis) && axis != "block" && axis != "inline"
    ensures r.Err? && r.error.InvalidAxis? ==> r.error.axis == axis
  {
    if IsPhysical(axis) then Ok(axis)
    else if computedStyle.None? then Err(MissingContext)
    else
      var horizontalWritingMode := computedStyle.value.writingMode == "horizontal-tb";
      if axis == "block" then Ok(if horizontalWritingMode then "y" else "x")
      else if axis == "inline" then Ok(if horizontalWritingMode then "x" else "y")
      else Err(InvalidAxis(axis))
  }

  /** The block and inline axes are always the two different physical
      axes. */
  lemma LogicalAxesArePerpendicular(style: ComputedStyle)
    ensures NormalizeAxis("block", Some(style)).Ok?
    ensures NormalizeAxis("inline", Some(style)).Ok?
    ensures NormalizeAxis("block", Some(style)).value != NormalizeAxis("inline", Some(style)).value
  {
  }

  /** The inline axis is horizontal exactly in `horizontal-tb`, and the
      block axis vertical. */
  lemma HorizontalWritingMode(style: ComputedStyle)
    ensures NormalizeAxis("inline", Some(style)) == Ok("x") <==> style.writingMode == "horizontal-tb"
    ensures NormalizeAxis("block", Some(style)) == Ok("y") <==> style.writingMode == "horizontal-tb"
  {
  }

  lemma AxisExamples()
    ensures NormalizeAxis("x", None) == Ok("x") && NormalizeAxis("y", None) == Ok("y")
    ensures NormalizeAxis("block", Some(ComputedStyle("horizontal-tb"))) == Ok("y")
    ensures NormalizeAxis("block", Some(ComputedStyle("vertical-rl"))) == Ok("x")
    ensures NormalizeAxis("inline", Some(ComputedStyle("horizontal-tb"))) == Ok("x")
    ensures NormalizeAxis("inline", Some(ComputedStyle("vertical-lr"))) == Ok("y")
    ensures NormalizeAxis("block", None) == Err(MissingContext)
    ensures NormalizeAxis("diagonal", None) == Err(MissingContext)
    ensures NormalizeAxis("diagonal", Some(ComputedStyle("horizontal-tb"))) == Err(InvalidAxis("diagonal"))
  {
  }
}
