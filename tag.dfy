/** The `Tag` component's selection state: one chip with a `selected` flag
    that a press and the parent's forced setters update in place. */
module Chip {

  class Tag {
    var selected: bool
    /** How many times the chip has called its `onSelectStateChange` prop. */
    ghost var stateChangeCalls: nat

    /** A chip mounts unselected. */
    constructor ()
      ensures !selected && stateChangeCalls == 0
    {
      selected := false;
      stateChangeCalls := 0;
    }

    /** A press calls `onSelectStateChange` once, then keeps the chip
        selected when `allowUnselect` is set (in a group: single-choice mode
        and the chip already chosen) and toggles it otherwise. */
    method Press(allowUnselect: bool)
      modifies this
      ensures stateChangeCalls == old(stateChangeCalls) + 1
      ensures allowUnselect ==> selected
      ensures !allowUnselect ==> selected == !old(selected)
    {
      stateChangeCalls := stateChangeCalls + 1;
      if allowUnselect {
        selected := true;
      } else {
        selected := !selected;
      }
    }

    /** Forces the chip unselected without calling back; the state is only
        written when it changes, so a second call does nothing. */
    method ClearState()
      modifies this
      ensures !selected && stateChangeCalls == old(stateChangeCalls)
      ensures !old(selected) ==> unchanged(this)
    {
      if selected {
        selected := false;
      }
    }

    /** Forces the chip selected without calling back; the state is only
        written when it changes, so a second call does nothing. */
    method SetSelected()
      modifies this
      ensures selected && stateChangeCalls == old(stateChangeCalls)
      ensures old(selected) ==> unchanged(this)
    {
      if !selected {
        selected := true;
      }
    }
  }
}
