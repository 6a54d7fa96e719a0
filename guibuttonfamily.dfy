/**
 * gui/GuiButtonFamily.js: a family of buttons of which at most one is
 * toggled on, with the index of that button kept in `currentToggled`.
 * The buttons' DOM nodes and images are not part of this model.
 */
module GuiButtonFamilies {
  import opened Wrappers
  import opened Seqs

  /**
   * A button as far as the family uses it: its `toggleOn` flag.
   * `toggle(on)` is taken to store `on` in that flag (GuiButton.js is a
   * thin DOM wrapper).
   */
  class GuiButton {
    var toggleOn: bool

    constructor ()
      ensures !toggleOn
    {
      toggleOn := false;
    }

    method Toggle(on: bool)
      modifies this
      ensures toggleOn == on
    {
      toggleOn := on;
    }
  }

  /** Why a `toggleButton` call throws. */
  datatype ToggleFailure =
    | NotAMember      // the `Util.assert` on the button's index
    | StaleToggled    // `buttons[currentToggled]` is undefined

  class GuiButtonFamily {
    var buttons: seq<GuiButton>
    var currentToggled: int

    /**
     * The family's intent: distinct buttons, `currentToggled` is -1 or a
     * valid index, and no other button is on.
     */
    ghost predicate Valid()
      reads this, buttons
    {
      NoDup(buttons) &&
      -1 <= currentToggled < |buttons| &&
      forall i :: 0 <= i < |buttons| && buttons[i].toggleOn ==> i == currentToggled
    }

    /** At most one button of the family is on. */
    ghost predicate AtMostOneOn()
      reads this, buttons
    {
      forall i, j :: 0 <= i < |buttons| && 0 <= j < |buttons| && buttons[i].toggleOn && buttons[j].toggleOn ==> i == j
    }

    lemma ValidAtMostOneOn()
      requires Valid()
      ensures AtMostOneOn()
    {
    }

    constructor ()
      ensures Valid()
      ensures buttons == [] && currentToggled == -1
    {
      buttons := [];
      currentToggled := -1;
    }

    /**
     * `toggleButton`: switches the button on and the previously toggled one
     * off. It throws for a button outside the family, and when
     * `currentToggled` no longer indexes a button.
     */
    method ToggleButton(button: GuiButton) returns (r: Result<(), ToggleFailure>)
      modifies this`currentToggled, buttons
      ensures r == Err(NotAMember) <==> button !in old(buttons)
      ensures r == Err(StaleToggled) <==> button in old(buttons) && old(currentToggled) >= |old(buttons)|
      ensures r.Err? ==>
        (currentToggled == old(currentToggled) && forall b :: b in buttons ==> b.toggleOn == old(b.toggleOn))
      ensures buttons == old(buttons)
      ensures r.Ok? ==> currentToggled == IndexOf(buttons, button) && button.toggleOn
      ensures r.Ok? && 0 <= old(currentToggled) && buttons[old(currentToggled)] != button ==>
        !buttons[old(currentToggled)].toggleOn
      ensures r.Ok? && NoDup(buttons) ==> forall i :: 0 <= i < |buttons| && i != old(currentToggled) && i != currentToggled ==>
        buttons[i].toggleOn == old(buttons[i].toggleOn)
      ensures old(Valid()) ==> r.Ok? || r == Err(NotAMember)
      ensures old(Valid()) ==> Valid()
    {
      var index := IndexOf(buttons, button);
      if index < 0 {
        return Err(NotAMember);
      }
      if currentToggled >= 0 {
        if currentToggled >= |buttons| {
          return Err(StaleToggled);
        }
        buttons[currentToggled].Toggle(false);
      }
      buttons[index].Toggle(true);
      currentToggled := index;
      r := Ok(());
    }

    /** `addButton`: appends the button only when it is not in the family yet. */
    method AddButton(button: GuiButton)
      modifies this`buttons
      ensures buttons == if button in old(buttons) then old(buttons) else old(buttons) + [button]
      ensures old(NoDup(buttons)) ==> NoDup(buttons)
      ensures old(Valid()) && (button in old(buttons) || !button.toggleOn) ==> Valid()
    {
      if IndexOf(buttons, button) < 0 {
        buttons := buttons + [button];
      }
    }

    /**
     * `removeButton` as written: removes the button when present, and leaves
     * `currentToggled` as it was, even when it no longer indexes the toggled
     * button or any button.
     */
    method RemoveButton(button: GuiButton)
      modifies this`buttons
      ensures buttons == Without(old(buttons), button)
      ensures currentToggled == old(currentToggled)
    {
      var index := IndexOf(buttons, button);
      if index >= 0 {
        buttons := SpliceOut(buttons, index);
      }
    }

    /**
     * `removeButton` keeping `currentToggled` on the toggled button: reset
     * to -1 when that button is removed, shifted down when an earlier one is.
     */
    method RemoveButtonTracked(button: GuiButton)
      requires Valid()
      modifies this`buttons, this`currentToggled
      ensures Valid()
      ensures buttons == Without(old(buttons), button)
      ensures old(currentToggled) >= 0 && old(buttons[currentToggled]) != button ==>
        0 <= currentToggled < |buttons| && buttons[currentToggled] == old(buttons[currentToggled])
      ensures button in old(buttons) && old(currentToggled) == IndexOf(old(buttons), button) ==> currentToggled == -1
    {
      var index := IndexOf(buttons, button);
      if index >= 0 {
        NoDupRemoveAt(buttons, index);
        buttons := SpliceOut(buttons, index);
        if index == currentToggled {
          currentToggled := -1;
        } else if index < currentToggled {
          currentToggled := currentToggled - 1;
        }
      }
    }
  }

  /**
   * With `removeButton` as written, removing a button below the toggled one
   * leaves `currentToggled` past the end, and the next `toggleButton` on a
   * member of the family throws.
   */
  method StaleToggleAfterRemove(family: GuiButtonFamily, b0: GuiButton, b1: GuiButton)
    returns (r: Result<(), ToggleFailure>)
    requires family.Valid() && family.buttons == [b0, b1]
    modifies family, b0, b1
    ensures r == Err(StaleToggled)
  {
    IndexOfFirstMatch([b0, b1], b1, 1);
    var _ := family.ToggleButton(b1);
    IndexOfFirstMatch([b0, b1], b0, 0);
    assert Without([b0, b1], b0) == [b1];
    family.RemoveButton(b0);
    r := family.ToggleButton(b1);
  }

  /** With the tracked removal, the same sequence of calls succeeds. */
  method ToggleAfterTrackedRemove(family: GuiButtonFamily, b0: GuiButton, b1: GuiButton)
    returns (r: Result<(), ToggleFailure>)
    requires family.Valid() && family.buttons == [b0, b1]
    modifies family, b0, b1
    ensures r.Ok?
  {
    var _ := family.ToggleButton(b1);
    IndexOfFirstMatch([b0, b1], b0, 0);
    assert Without([b0, b1], b0) == [b1];
    family.RemoveButtonTracked(b0);
    r := family.ToggleButton(b1);
  }
}
