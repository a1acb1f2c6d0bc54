/**
 * The colour-palette picker: a list of user-chosen hex colours offered to the
 * prompt, the colour being edited, and the text of the hex input box.
 */
module ColorPalette {
  import opened Strings

  const DefaultColor := "#3B82F6"

  predicate IsHexDigit(c: char) {
    ('0' <= c <= '9') || ('a' <= c <= 'f') || ('A' <= c <= 'F')
  }

  /** Every character of `s` is a hex digit. */
  function AllHexDigits(s: string): (b: bool)
    ensures b <==> forall i :: 0 <= i < |s| ==> IsHexDigit(s[i])
  {
    s == [] || (IsHexDigit(s[0]) && AllHexDigits(s[1..]))
  }

  /** The test `/^#([A-Fa-f0-9]{6}|[A-Fa-f0-9]{3})$/`. */
  function IsValidHex(s: string): (b: bool)
    ensures b <==> (|s| == 4 || |s| == 7) && s[0] == '#' && forall i :: 1 <= i < |s| ==> IsHexDigit(s[i])
  {
    var digits := if s == [] then [] else s[1..];
    assert forall i :: 1 <= i < |s| ==> s[i] == digits[i - 1];
    |s| > 0 && s[0] == '#' && ((|digits| == 6 && AllHexDigits(digits)) || (|digits| == 3 && AllHexDigits(digits)))
  }

  /** No colour appears twice. */
  predicate Distinct(colors: seq<string>) {
    forall i, j :: 0 <= i < j < |colors| ==> colors[i] != colors[j]
  }

  /** `colors.filter(color => color !== c)`. */
  function RemoveAll(colors: seq<string>, c: string): (r: seq<string>)
    ensures forall x :: x in r <==> x in colors && x != c
    ensures |r| <= |colors|
    ensures c !in colors ==> r == colors
  {
    if colors == [] then []
    else if colors[0] == c then RemoveAll(colors[1..], c)
    else [colors[0]] + RemoveAll(colors[1..], c)
  }

  /** Filtering works piece by piece, so the kept colours stay in their order. */
  lemma {:induction false} RemoveAllConcat(a: seq<string>, b: seq<string>, c: string)
    ensures RemoveAll(a + b, c) == RemoveAll(a, c) + RemoveAll(b, c)
  {
    if a == [] {
      assert a + b == b;
    } else {
      assert (a + b)[0] == a[0];
      assert (a + b)[1..] == a[1..] + b;
      RemoveAllConcat(a[1..], b, c);
    }
  }

  /** Every copy of `c` goes, every other colour keeps its count. */
  lemma {:induction false} RemoveAllCounts(colors: seq<string>, c: string)
    ensures multiset(RemoveAll(colors, c)) == multiset(colors)[c := 0]
  {
    if colors != [] {
      RemoveAllCounts(colors[1..], c);
      assert colors == [colors[0]] + colors[1..];
    }
  }

  /** Removing a colour undoes adding it. */
  lemma RemoveUndoesAdd(colors: seq<string>, c: string)
    requires c !in colors
    ensures RemoveAll(colors + [c], c) == colors
  {
    RemoveAllConcat(colors, [c], c);
    assert RemoveAll([c], c) == RemoveAll([], c);
  }

  /** Filtering never introduces a duplicate. */
  lemma {:induction false} RemoveAllKeepsDistinct(colors: seq<string>, c: string)
    requires Distinct(colors)
    ensures Distinct(RemoveAll(colors, c))
  {
    if colors != [] {
      RemoveAllKeepsDistinct(colors[1..], c);
      var rest := RemoveAll(colors[1..], c);
      assert colors[0] !in colors[1..];
      assert colors[0] !in rest;
    }
  }

  class Palette {
    var colors: seq<string>
    var currentColor: string
    var hexInput: string

    /** The saved colours are distinct valid hex colours. */
    ghost predicate Valid()
      reads this
    {
      Distinct(colors) && forall c :: c in colors ==> IsValidHex(c)
    }

    constructor ()
      ensures Valid()
      ensures colors == [] && currentColor == DefaultColor && hexInput == DefaultColor
    {
      colors := [];
      currentColor := DefaultColor;
      hexInput := DefaultColor;
    }

    /** `addColor`: append the current colour when it is valid and not yet saved, then empty the box. */
    method AddColor()
      requires Valid()
      modifies this
      ensures Valid()
      ensures var added := IsValidHex(old(currentColor)) && old(currentColor) !in old(colors);
        && colors == (if added then old(colors) + [old(currentColor)] else old(colors))
        && hexInput == (if added then "" else old(hexInput))
      ensures currentColor == old(currentColor)
    {
      if IsValidHex(currentColor) && currentColor !in colors {
        colors := colors + [currentColor];
        hexInput := "";
      }
    }

    /** `removeColor`: drop every entry equal to `c`. */
    method RemoveColor(c: string)
      requires Valid()
      modifies this
      ensures Valid()
      ensures colors == RemoveAll(old(colors), c)
      ensures currentColor == old(currentColor) && hexInput == old(hexInput)
    {
      RemoveAllKeepsDistinct(colors, c);
      colors := RemoveAll(colors, c);
    }

    /** `handleHexChange`: the box shows what was typed; the colour follows only a valid hex. */
    method HandleHexChange(value: string)
      requires Valid()
      modifies this
      ensures Valid()
      ensures hexInput == value
      ensures currentColor == if IsValidHex(value) then value else old(currentColor)
      ensures colors == old(colors)
    {
      hexInput := value;
      if IsValidHex(value) {
        currentColor := value;
      }
    }

    /** `handleColorPickerChange`: the picker's value is taken as it is, unvalidated. */
    method HandleColorPickerChange(value: string)
      requires Valid()
      modifies this
      ensures Valid()
      ensures currentColor == value && hexInput == value
      ensures colors == old(colors)
    {
      currentColor := value;
      hexInput := value;
    }
  }
}
