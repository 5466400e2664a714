/** The `TagGroup` component's selection state machine: the props it reads
    (`source`, `singleChoiceMode`), its state `tagFlags`, the list of chip
    refs `_tags`, and the handlers that update them. Each handler is one
    atomic step; the callback `onSelectedTagChange` is recorded in the ghost
    log `notified`. */
module Group {
  import opened Selection
  import opened ForcedWrite
  import opened Chip

  class TagGroup {
    var source: seq<string>
    var singleChoiceMode: bool
    var tagFlags: seq<bool>
    /** `_tags`: the ref of the chip rendered at each index, `null` once that
        chip is unmounted. Render only writes into it, so it never shrinks. */
    var tags: seq<Tag?>
    /** Every call of `onSelectedTagChange`, oldest first. */
    ghost var notified: seq<Notification>

    /** One flag per label, and no chip object under two indices. */
    ghost predicate Valid()
      reads this
    {
      && |tagFlags| == |source|
      && forall i, j :: 0 <= i < |tags| && 0 <= j < |tags| && tags[i] != null && tags[i] == tags[j] ==> i == j
    }

    ghost function Chips(): set<Tag>
      reads this
    {
      set t: Tag | t in tags
    }

    predicate Mounted(i: nat)
      reads this
    {
      i < |tags| && tags[i] != null
    }

    /** What the chip at index `i` displays; an index without a chip shows
        nothing selected, as a chip mounted there would. */
    ghost predicate Shows(i: nat)
      reads this, Chips()
    {
      Mounted(i) && tags[i].selected
    }

    /** Every label's chip displays its flag. */
    ghost predicate Consistent()
      reads this, Chips()
    {
      forall i: nat :: i < |tagFlags| ==> Shows(i) == tagFlags[i]
    }

    /** The initial state: one false flag per label, no chip mounted yet. */
    constructor (source: seq<string>, singleChoiceMode: bool)
      ensures Valid() && Consistent()
      ensures this.source == source && this.singleChoiceMode == singleChoiceMode
      ensures tagFlags == AllFalse(|source|) && GetSelectedIndex(tagFlags) == MinusOne
      ensures tags == [] && notified == []
    {
      this.source := source;
      this.singleChoiceMode := singleChoiceMode;
      tagFlags := AllFalse(|source|);
      tags := [];
      notified := [];
    }

    /** The ref bookkeeping of a render: the chip at each label index is kept
        if it is mounted and mounted fresh (unselected) if not; refs past the
        labels are set to null. */
    method Render()
      requires Valid()
      modifies this
      ensures Valid()
      ensures source == old(source) && singleChoiceMode == old(singleChoiceMode)
      ensures tagFlags == old(tagFlags) && notified == old(notified)
      ensures |tags| == if |old(tags)| < |source| then |source| else |old(tags)|
      ensures forall i :: 0 <= i < |source| ==> tags[i] != null
      ensures forall i :: 0 <= i < |source| && old(Mounted(i)) ==> tags[i] == old(tags[i])
      ensures forall i :: 0 <= i < |source| && !old(Mounted(i)) ==>
                fresh(tags[i]) && !tags[i].selected && tags[i].stateChangeCalls == 0
      ensures forall i :: |source| <= i < |tags| ==> tags[i] == null
      ensures old(Consistent()) ==> Consistent()
    {
      var n := if |tags| < |source| then |source| else |tags|;
      var next: seq<Tag?> := [];
      var i := 0;
      while i < n
        invariant 0 <= i <= n && |next| == i
        invariant unchanged(this)
        invariant forall j :: 0 <= j < i && j < |source| && Mounted(j) ==> next[j] == tags[j]
        invariant forall j :: 0 <= j < i && j < |source| && !Mounted(j) ==>
                    next[j] != null && fresh(next[j]) && !next[j].selected && next[j].stateChangeCalls == 0
        invariant forall j :: |source| <= j < i ==> next[j] == null
        invariant forall j, k :: 0 <= j < i && 0 <= k < i && next[j] != null && next[j] == next[k] ==> j == k
      {
        if i < |source| {
          if Mounted(i) {
            next := next + [tags[i]];
          } else {
            var t := new Tag();
            next := next + [t];
          }
        } else {
          next := next + [null];
        }
        i := i + 1;
      }
      tags := next;
    }

    /** `shouldComponentUpdate` for new props, which then become the props:
        when the number of labels changes, every flag is reset to false for
        the new length, the chips at indices below the new length are
        cleared, and the render is skipped; otherwise the state is kept and
        the render goes ahead. */
    method UpdateProps(nextSource: seq<string>, nextSingleChoiceMode: bool) returns (shouldUpdate: bool)
      requires Valid()
      modifies this, Chips()
      ensures Valid()
      ensures source == nextSource && singleChoiceMode == nextSingleChoiceMode
      ensures tags == old(tags) && notified == old(notified)
      ensures shouldUpdate <==> |nextSource| == |old(source)|
      ensures shouldUpdate ==> tagFlags == old(tagFlags)
      ensures shouldUpdate ==> forall j :: 0 <= j < |tags| && tags[j] != null ==> tags[j].selected == old(tags[j].selected)
      ensures !shouldUpdate ==> tagFlags == AllFalse(|nextSource|) && GetSelectedIndex(tagFlags) == MinusOne
      ensures !shouldUpdate ==> forall j :: 0 <= j < |tags| && j < |nextSource| && tags[j] != null ==> !tags[j].selected
      ensures !shouldUpdate ==> forall j :: |nextSource| <= j < |tags| && tags[j] != null ==> tags[j].selected == old(tags[j].selected)
      ensures forall j :: 0 <= j < |tags| && tags[j] != null ==> tags[j].stateChangeCalls == old(tags[j].stateChangeCalls)
      ensures !shouldUpdate || old(Consistent()) ==> Consistent()
    {
      if |nextSource| != |source| {
        var i := 0;
        while i < |nextSource|
          invariant 0 <= i <= |nextSource|
          invariant unchanged(this)
          invariant forall j :: 0 <= j < |tags| && j < i && tags[j] != null ==> !tags[j].selected
          invariant forall j :: i <= j < |tags| && tags[j] != null ==> tags[j].selected == old(tags[j].selected)
          invariant forall j :: 0 <= j < |tags| && tags[j] != null ==> tags[j].stateChangeCalls == old(tags[j].stateChangeCalls)
        {
          if i < |tags| && tags[i] != null {
            tags[i].ClearState();
          }
          i := i + 1;
        }
        tagFlags := AllFalse(|nextSource|);
        shouldUpdate := false;
      } else {
        shouldUpdate := true;
      }
      source := nextSource;
      singleChoiceMode := nextSingleChoiceMode;
    }

    /** `_onTagPress(index)`, the handler a chip calls back. Single-choice:
        every other chip is cleared, the callback gets `(label, index)`
        unless `index` is already the first selected index, and the flags
        become one-hot at `index`. Multi-choice: flag `index` flips and the
        callback gets the labels whose flags are now set. */
    method OnTagPress(index: nat)
      requires Valid() && index < |tagFlags|
      modifies this, Chips()
      ensures Valid()
      ensures source == old(source) && singleChoiceMode == old(singleChoiceMode) && tags == old(tags)
      ensures tagFlags == AfterPress(old(tagFlags), index, singleChoiceMode)
      ensures singleChoiceMode ==>
                notified == old(notified)
                  + if SingleChoiceFires(old(tagFlags), index) then [SingleChoice(source[index], index)] else []
      ensures !singleChoiceMode ==> notified == old(notified) + [MultiChoice(SelectedLabels(source, tagFlags))]
      ensures singleChoiceMode ==> forall j :: 0 <= j < |tags| && j != index && tags[j] != null ==> !tags[j].selected
      ensures forall j :: 0 <= j < |tags| && (j == index || !singleChoiceMode) && tags[j] != null ==>
                tags[j].selected == old(tags[j].selected)
      ensures forall j :: 0 <= j < |tags| && tags[j] != null ==> tags[j].stateChangeCalls == old(tags[j].stateChangeCalls)
    {
      if singleChoiceMode {
        ClearOtherChips(index);
        if SingleChoiceFires(tagFlags, index) {
          notified := notified + [SingleChoice(source[index], index)];
        }
        tagFlags := OneHot(|tagFlags|, index);
      } else {
        tagFlags := tagFlags[index := !tagFlags[index]];
        notified := notified + [MultiChoice(SelectedLabels(source, tagFlags))];
      }
    }

    /** The `_tags.forEach` of a single-choice press: every mounted chip but
        the one at `index` is cleared, without calling back. */
    method ClearOtherChips(index: nat)
      requires Valid()
      modifies Chips()
      ensures forall k :: 0 <= k < |tags| && k != index && tags[k] != null ==> !tags[k].selected
      ensures Mounted(index) ==> tags[index].selected == old(tags[index].selected)
      ensures forall k :: 0 <= k < |tags| && tags[k] != null ==> tags[k].stateChangeCalls == old(tags[k].stateChangeCalls)
    {
      var j := 0;
      while j < |tags|
        invariant 0 <= j <= |tags|
        invariant forall k :: 0 <= k < j && k != index && tags[k] != null ==> !tags[k].selected
        invariant forall k :: 0 <= k < |tags| && (j <= k || k == index) && tags[k] != null ==>
                    tags[k].selected == old(tags[k].selected)
        invariant forall k :: 0 <= k < |tags| && tags[k] != null ==> tags[k].stateChangeCalls == old(tags[k].stateChangeCalls)
      {
        if tags[j] != null && j != index {
          tags[j].ClearState();
        }
        j := j + 1;
      }
    }

    /** A tap on the chip at `index`: the chip gets
        `allowUnselect = singleChoiceMode && tagFlags[index]`, runs its own
        press, and its `onSelectStateChange` runs `_onTagPress(index)`. */
    method TapChip(index: nat)
      requires Valid() && index < |tagFlags| && Mounted(index)
      modifies this, Chips()
      ensures Valid()
      ensures source == old(source) && singleChoiceMode == old(singleChoiceMode) && tags == old(tags)
      ensures tagFlags == AfterPress(old(tagFlags), index, singleChoiceMode)
      ensures singleChoiceMode ==>
                notified == old(notified)
                  + if SingleChoiceFires(old(tagFlags), index) then [SingleChoice(source[index], index)] else []
      ensures !singleChoiceMode ==> notified == old(notified) + [MultiChoice(SelectedLabels(source, tagFlags))]
      ensures tags[index].stateChangeCalls == old(tags[index].stateChangeCalls) + 1
      ensures forall j :: 0 <= j < |tags| && j != index && tags[j] != null ==>
                tags[j].stateChangeCalls == old(tags[j].stateChangeCalls)
      ensures tags[index].selected == (if singleChoiceMode && old(tagFlags[index]) then true else !old(tags[index].selected))
      ensures singleChoiceMode ==> forall j :: 0 <= j < |tags| && j != index && tags[j] != null ==> !tags[j].selected
      ensures !singleChoiceMode ==> forall j :: 0 <= j < |tags| && j != index && tags[j] != null ==>
                tags[j].selected == old(tags[j].selected)
      ensures old(Consistent()) ==> Consistent()
    {
      var chip := tags[index];
      var allowUnselect := singleChoiceMode && tagFlags[index];
      chip.Press(allowUnselect);
      OnTagPress(index);
    }

    /** `select(index)`: forces the chip and the flag at `index` on, without
        calling back. */
    method Select(index: nat)
      requires Valid()
      modifies this, Chips()
      ensures Valid()
      ensures source == old(source) && singleChoiceMode == old(singleChoiceMode)
      ensures tags == old(tags) && notified == old(notified)
      ensures tagFlags == Force(old(tagFlags), |tags|, index, true)
      ensures index < |tags| && tags[index] != null ==> tags[index].selected
      ensures forall j :: 0 <= j < |tags| && j != index && tags[j] != null ==> tags[j].selected == old(tags[j].selected)
      ensures forall j :: 0 <= j < |tags| && tags[j] != null ==> tags[j].stateChangeCalls == old(tags[j].stateChangeCalls)
      ensures old(Consistent()) && (index < |tags| && index < |tagFlags| ==> tags[index] != null) ==> Consistent()
    {
      if index < |tags| {
        if tags[index] != null {
          tags[index].SetSelected();
        }
        tagFlags := Force(tagFlags, |tags|, index, true);
      }
    }

    /** `unselect(index)`: forces the chip and the flag at `index` off,
        without calling back. */
    method Unselect(index: nat)
      requires Valid()
      modifies this, Chips()
      ensures Valid()
      ensures source == old(source) && singleChoiceMode == old(singleChoiceMode)
      ensures tags == old(tags) && notified == old(notified)
      ensures tagFlags == Force(old(tagFlags), |tags|, index, false)
      ensures index < |tags| && tags[index] != null ==> !tags[index].selected
      ensures forall j :: 0 <= j < |tags| && j != index && tags[j] != null ==> tags[j].selected == old(tags[j].selected)
      ensures forall j :: 0 <= j < |tags| && tags[j] != null ==> tags[j].stateChangeCalls == old(tags[j].stateChangeCalls)
      ensures old(Consistent()) ==> Consistent()
    {
      if index < |tags| {
        if tags[index] != null {
          tags[index].ClearState();
        }
        tagFlags := Force(tagFlags, |tags|, index, false);
      }
    }
  }

  /** A client of the contracts above: in single-choice mode a second tap
      on the chosen chip keeps it chosen and does not call back, and the
      chips keep displaying the flags. */
  method SingleChoiceScenario()
  {
    var group := new TagGroup(["a", "b", "c"], true);
    group.Render();
    assert group.Mounted(1);
    group.TapChip(1);
    ghost var chosen := OneHot(3, 1);
    assert chosen == [false, true, false];
    assert group.tagFlags == chosen;
    assert group.notified == [SingleChoice("b", 1)];
    FiresUnlessFirstSelected(chosen, 1);
    group.TapChip(1);
    assert group.tagFlags == chosen;
    assert group.notified == [SingleChoice("b", 1)];
    assert group.Consistent();
  }
}
