/**
 * The display-side fix-up applied to generated markup before it is put into
 * the page: make the icon fill its container when it does not size itself.
 */
module SvgUtils {
  import opened Options
  import opened Strings

  const SvgOpen := "<svg"
  const WidthAttribute := "width="
  const HeightAttribute := "height="
  /** What gets inserted after the opening `<svg`. */
  const SizeAttributes := " " + WidthAttribute + "\"100%\" " + HeightAttribute + "\"100%\""

  /** Both attribute texts occur somewhere in `s` (plain substring tests, so `stroke-width=` counts). */
  predicate HasSizeAttributes(s: string) {
    Contains(s, WidthAttribute) && Contains(s, HeightAttribute)
  }

  /** `s` with the size attributes inserted right after the `<svg` at index `k`. */
  function InsertSizeAfter(s: string, k: nat): string
    requires k + |SvgOpen| <= |s|
  {
    s[..k + |SvgOpen|] + SizeAttributes + s[k + |SvgOpen|..]
  }

  /**
   * `enhanceSvg`: a falsy argument gives the empty string; markup lacking
   * either attribute text gets them inserted right after its first `<svg`,
   * every other character kept; anything else is returned as it is.
   */
  function EnhanceSvg(svgString: Option<string>): (r: string)
    ensures !Truthy(svgString) ==> r == ""
    ensures Truthy(svgString) && HasSizeAttributes(svgString.value) ==> r == svgString.value
    ensures Truthy(svgString) && (forall k :: !OccursAt(svgString.value, SvgOpen, k)) ==> r == svgString.value
    ensures Truthy(svgString) && !HasSizeAttributes(svgString.value) ==>
      forall k :: FirstOccurrence(svgString.value, SvgOpen, k) ==> r == InsertSizeAfter(svgString.value, k)
  {
    if !Truthy(svgString) then ""
    else
      var s := svgString.value;
      if !Contains(s, WidthAttribute) || !Contains(s, HeightAttribute) then
        match IndexOf(s, SvgOpen)
        case None => s
        case Some(k) =>
          FirstOccurrenceUnique(s, SvgOpen, k);
          assert s[..k] + SvgOpen == s[..k + |SvgOpen|];
          s[..k] + SvgOpen + SizeAttributes + s[k + |SvgOpen|..]
      else s
  }

  /** After the insertion the markup carries both attribute texts. */
  lemma InsertedAttributesAreFound(s: string, k: nat)
    requires k + |SvgOpen| <= |s|
    ensures HasSizeAttributes(InsertSizeAfter(s, k))
  {
    var r := InsertSizeAfter(s, k);
    assert r[k + 5..k + 11] == WidthAttribute;
    assert r[k + 18..k + 25] == HeightAttribute;
    assert OccursAt(r, WidthAttribute, k + 5) && OccursAt(r, HeightAttribute, k + 18);
  }

  /** Enhancing twice is enhancing once. */
  lemma EnhanceIdempotent(svgString: Option<string>)
    ensures EnhanceSvg(Some(EnhanceSvg(svgString))) == EnhanceSvg(svgString)
  {
    if Truthy(svgString) && !HasSizeAttributes(svgString.value) {
      var s := svgString.value;
      match IndexOf(s, SvgOpen)
      case None =>
      case Some(k) =>
        InsertedAttributesAreFound(s, k);
    }
  }
}
