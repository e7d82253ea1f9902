/** Keyboard-flippable cards: the card's state is the inner element's
    `style.transform`, non-empty meaning flipped. */
module FlipCards {

  const Rotated: string := "rotateY(180deg)"

  /** A card counts as flipped while its transform is non-empty. */
  predicate IsFlipped(transform: string)
  {
    transform != ""
  }

  /** Enter and Space flip the card. */
  predicate IsActivationKey(key: string)
  {
    key == "Enter" || key == " "
  }

  /** The transform after one flip: a flipped card is reset, an unflipped one rotated. */
  function Toggle(transform: string): (r: string)
    ensures IsFlipped(r) <==> !IsFlipped(transform)
    ensures r == "" || r == Rotated
  {
    if transform != "" then "" else Rotated
  }

  /** Two flips from the reset or the rotated state come back to it. */
  lemma ToggleTwice(transform: string)
    requires transform == "" || transform == Rotated
    ensures Toggle(Toggle(transform)) == transform
  {
  }

  /** Any other transform is reset by a flip, and two flips do not restore it. */
  lemma ToggleForeign(transform: string)
    requires transform != "" && transform != Rotated
    ensures Toggle(transform) == ""
    ensures Toggle(Toggle(transform)) == Rotated != transform
  {
  }

  /** One `.flip-card` with its `.flip-inner` element. */
  class FlipCard {
    var transform: string

    constructor (transform0: string)
      ensures transform == transform0
    {
      transform := transform0;
    }

    /** `keydown` on the card: Enter or Space flips it, other keys change nothing. */
    method KeyDown(key: string)
      modifies this
      ensures transform == if IsActivationKey(key) then Toggle(old(transform)) else old(transform)
    {
      if key == "Enter" || key == " " {
        if transform != "" {
          transform := "";
        } else {
          transform := Rotated;
        }
      }
    }
  }
}
