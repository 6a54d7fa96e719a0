/**
 * gui/GuiDropTargetFamily.js: a duplicate-free list of drop targets that are
 * activated and deactivated together. A target's listeners on its DOM node
 * are not part of this model; only its `enabled` and `active` flags are.
 */
module GuiDropTargetFamilies {
  import opened Wrappers
  import opened Seqs

  /** The flags of gui/GuiDropTarget.js that `activate` and `deactivate` read and write. */
  class GuiDropTarget {
    var enabled: bool
    var active: bool

    constructor ()
      ensures !enabled && !active
    {
      enabled := false;
      active := false;
    }

    method Enable()
      modifies this`enabled
      ensures enabled
    {
      enabled := true;
    }

    method Disable()
      modifies this`enabled
      ensures !enabled
    {
      enabled := false;
    }

    /** `activate`: only an enabled target becomes active. */
    method Activate()
      modifies this`active
      ensures active == (old(active) || enabled)
    {
      if enabled && !active {
        active := true;
      }
    }

    /** `deactivate`: the target is inactive afterwards. */
    method Deactivate()
      modifies this`active
      ensures !active
    {
      if active {
        active := false;
      }
    }
  }

  class GuiDropTargetFamily {
    var dropTargets: seq<GuiDropTarget>

    ghost predicate Valid()
      reads this
    {
      NoDup(dropTargets)
    }

    constructor ()
      ensures Valid() && dropTargets == []
    {
      dropTargets := [];
    }

    /** `addDropTarget`: asserts the target is new, then appends it. */
    method AddDropTarget(target: GuiDropTarget) returns (r: Result<(), string>)
      requires Valid()
      modifies this`dropTargets
      ensures Valid()
      ensures r.Ok? <==> target !in old(dropTargets)
      ensures r.Ok? ==> dropTargets == old(dropTargets) + [target]
      ensures r.Err? ==> dropTargets == old(dropTargets)
    {
      if IndexOf(dropTargets, target) >= 0 {
        return Err("Duplicate drop target passed to GuiDropTargetFamily::addDropTarget");
      }
      dropTargets := dropTargets + [target];
      r := Ok(());
    }

    /** `removeDropTarget`: asserts the target is a member, then deletes it, keeping the others in order. */
    method RemoveDropTarget(target: GuiDropTarget) returns (r: Result<(), string>)
      requires Valid()
      modifies this`dropTargets
      ensures Valid()
      ensures r.Ok? <==> target in old(dropTargets)
      ensures r.Ok? ==> dropTargets == Without(old(dropTargets), target) && target !in dropTargets
      ensures r.Ok? ==> forall t :: t in old(dropTargets) && t != target ==> t in dropTargets
      ensures r.Err? ==> dropTargets == old(dropTargets)
    {
      var index := IndexOf(dropTargets, target);
      if index < 0 {
        return Err("Unrecognized drop target passed to GuiDropTargetFamily::removeDropTarget");
      }
      NoDupRemoveAt(dropTargets, index);
      assert SpliceOut(dropTargets, index) == Without(dropTargets, target) == RemoveAt(dropTargets, index);
      dropTargets := SpliceOut(dropTargets, index);
      r := Ok(());
    }

    /** `activate`: every target, in list order, is asked to activate. */
    method Activate() returns (visited: seq<GuiDropTarget>)
      requires Valid()
      modifies set t | t in dropTargets
      ensures visited == dropTargets
      ensures forall t :: t in dropTargets ==> t.active == (old(t.active) || t.enabled)
      ensures forall t :: t in dropTargets ==> t.enabled == old(t.enabled)
    {
      visited := [];
      var i := 0;
      while i < |dropTargets|
        invariant 0 <= i <= |dropTargets|
        invariant visited == dropTargets[..i]
        invariant forall k :: 0 <= k < i ==> dropTargets[k].active == (old(dropTargets[k].active) || dropTargets[k].enabled)
        invariant forall k :: i <= k < |dropTargets| ==> dropTargets[k].active == old(dropTargets[k].active)
        invariant forall t :: t in dropTargets ==> t.enabled == old(t.enabled)
      {
        dropTargets[i].Activate();
        visited := visited + [dropTargets[i]];
        i := i + 1;
      }
    }

    /** `deactivate`: every target, in list order, is asked to deactivate. */
    method Deactivate() returns (visited: seq<GuiDropTarget>)
      requires Valid()
      modifies set t | t in dropTargets
      ensures visited == dropTargets
      ensures forall t :: t in dropTargets ==> !t.active
      ensures forall t :: t in dropTargets ==> t.enabled == old(t.enabled)
    {
      visited := [];
      var i := 0;
      while i < |dropTargets|
        invariant 0 <= i <= |dropTargets|
        invariant visited == dropTargets[..i]
        invariant forall k :: 0 <= k < i ==> !dropTargets[k].active
        invariant forall t :: t in dropTargets ==> t.enabled == old(t.enabled)
      {
        dropTargets[i].Deactivate();
        visited := visited + [dropTargets[i]];
        i := i + 1;
      }
    }
  }

  /** Adding a fresh target and then removing it succeeds twice and restores the list. */
  method AddThenRemove(family: GuiDropTargetFamily, target: GuiDropTarget) returns (added: Result<(), string>, removed: Result<(), string>)
    requires family.Valid() && target !in family.dropTargets
    modifies family
    ensures added.Ok? && removed.Ok?
    ensures family.dropTargets == old(family.dropTargets)
  {
    added := family.AddDropTarget(target);
    removed := family.RemoveDropTarget(target);
    WithoutAppended(old(family.dropTargets), target);
  }
}
