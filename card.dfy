/**
 * A single card of the memory game: a fixed identity (its grid position),
 * a fixed face value (the pair key) and a mutable matched flag.
 */
module Cards {

  /**
   * A card's face value. Every value the game deals is a colour written
   * '#RRGGBB' with upper-case hex digits; such a string is equal to another
   * exactly when the 24-bit numbers 0xRRGGBB are, so the number stands for it.
   */
  newtype Color = x: int | 0 <= x < 0x100_0000

  /** The observable content of a card at one instant. */
  datatype CardView = CardView(id: int, value: Color, matched: bool) {

    /** The view after `setMatched(v)`; `setMatched()` with no argument is `v == true`. */
    function WithMatched(v: bool := true): (c: CardView)
      ensures c.id == id && c.value == value && c.matched == v
    {
      this.(matched := v)
    }
  }

  /** Setting the flag to the same value twice is the same as setting it once. */
  lemma WithMatchedIdempotent(c: CardView, v: bool)
    ensures c.WithMatched(v).WithMatched(v) == c.WithMatched(v)
  {
  }

  class Card {
    const id: int
    const value: Color
    var matched: bool

    function View(): CardView
      reads this
    {
      CardView(id, value, matched)
    }

    constructor (id: int, value: Color)
      ensures this.id == id && this.value == value && !matched
      ensures View() == CardView(id, value, false)
    {
      this.id := id;
      this.value := value;
      matched := false;
    }

    /** `setMatched(matched = true)`; the branch that restyles the card's DOM element is not modelled. */
    method SetMatched(matched: bool := true)
      modifies this
      ensures this.matched == matched
      ensures View() == old(View()).WithMatched(matched)
    {
      this.matched := matched;
    }
  }

  /** The views of a sequence of cards, position by position. */
  ghost function Views(cs: seq<Card>): (vs: seq<CardView>)
    reads cs
    ensures |vs| == |cs|
    ensures forall k :: 0 <= k < |cs| ==> vs[k] == cs[k].View()
  {
    seq(|cs|, k reads cs requires 0 <= k < |cs| => cs[k].View())
  }

  /** The ids of a sequence of cards (ids never change, so this reads nothing). */
  function Ids(cs: seq<Card>): (ids: seq<int>)
    ensures |ids| == |cs|
    ensures forall k :: 0 <= k < |cs| ==> ids[k] == cs[k].id
  {
    seq(|cs|, k requires 0 <= k < |cs| => cs[k].id)
  }
}
