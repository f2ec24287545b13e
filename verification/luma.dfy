/** `calculatorBrightness` and the text-colour rule of the reconcile effect:
    ITU-R BT.601 luma weights, and black text above the midpoint 128. */
module Luma {
  import opened Hex

  const Black: string := "#000000"
  const White: string := "#FFFFFF"

  /** `(r * 299 + g * 587 + b * 114) / 1000`, as an exact rational. */
  function Brightness(r: int, g: int, b: int): (v: real)
    ensures IsChannel(r) && IsChannel(g) && IsChannel(b) ==> 0.0 <= v <= 255.0
    ensures v * 1000.0 == (299 * r + 587 * g + 114 * b) as real
  {
    (r * 299 + g * 587 + b * 114) as real / 1000.0
  }

  /** Brightness never decreases when any channel grows. */
  lemma BrightnessMonotone(r: int, g: int, b: int, r': int, g': int, b': int)
    requires r <= r' && g <= g' && b <= b'
    ensures Brightness(r, g, b) <= Brightness(r', g', b')
  {
  }

  /** `brightness > 128 ? '#000000' : '#FFFFFF'`: the choice is exactly the
      integer comparison of the weighted sum with 128000. */
  function TextColorFor(r: int, g: int, b: int): (t: string)
    ensures t == Black || t == White
    ensures t == Black <==> 299 * r + 587 * g + 114 * b > 128000
  {
    if Brightness(r, g, b) > 128.0 then Black else White
  }

  /** Brighter colours never switch the text from black back to white. */
  lemma TextColorMonotone(r: int, g: int, b: int, r': int, g': int, b': int)
    requires r <= r' && g <= g' && b <= b'
    requires TextColorFor(r, g, b) == Black
    ensures TextColorFor(r', g', b') == Black
  {
  }
}
