/** The contents of the position selector that `moveVideoSelector`
    (js/script.js) rebuilds for the active video stack: one button per
    attached stack, as values. */
module Picker {

  /** A button of the selector. `current` is the class
      "video-selector-thumb-current" (otherwise "video-selector-thumb"); the
      click handler performs `swapGridElementOrders(from, to)`, where `from` is
      the active stack's slot captured when the button was built and `to` is
      the button's index. */
  datatype Button = Button(current: bool, from: int, to: int)

  /** The buttons built for `n` attached stacks when the active stack sits at `slot`. */
  function Buttons(n: nat, slot: int): (bs: seq<Button>)
    ensures |bs| == n
    ensures forall i :: 0 <= i < n ==> bs[i].to == i && bs[i].from == slot
    ensures forall i :: 0 <= i < n ==> (bs[i].current <==> i == slot)
  {
    if n == 0 then [] else Buttons(n - 1, slot) + [Button(n - 1 == slot, slot, n - 1)]
  }

  /** How many buttons are marked current. */
  function CountCurrent(bs: seq<Button>): (count: nat)
  {
    if bs == [] then 0 else CountCurrent(bs[..|bs| - 1]) + (if bs[|bs| - 1].current then 1 else 0)
  }

  /** Exactly one button is marked current when the active slot is one of
      the buttons' indices, and none otherwise. */
  lemma {:induction false} ExactlyOneCurrent(n: nat, slot: int)
    ensures CountCurrent(Buttons(n, slot)) == (if 0 <= slot < n then 1 else 0)
  {
    if n > 0 {
      var bs := Buttons(n, slot);
      assert bs[..n - 1] == Buttons(n - 1, slot);
      ExactlyOneCurrent(n - 1, slot);
    }
  }
}
