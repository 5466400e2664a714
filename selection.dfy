/** The pure part of TagGroup's selection bookkeeping: the flag vector
    `tagFlags`, what `getSelectedIndex` and the label filter compute from it,
    the one-hot vector of a single-choice press, and the rule that decides
    whether a single-choice press calls `onSelectedTagChange`. */
module Selection {

  /** What `onSelectedTagChange` receives: `(label, index)` in single-choice
      mode, the list of selected labels in multi-choice mode. */
  datatype Notification =
    | SingleChoice(text: string, index: nat)
    | MultiChoice(labels: seq<string>)

  /** The result of `getSelectedIndex`: the sentinel `-1`, or the non-empty
      list of selected indices. */
  datatype SelectedIndex = MinusOne | Indices(indices: seq<nat>)

  predicate NoneSelected(flags: seq<bool>) {
    forall i :: 0 <= i < |flags| ==> !flags[i]
  }

  /** The single-choice invariant: no two distinct flags are set. */
  predicate AtMostOne(flags: seq<bool>) {
    forall i, j :: 0 <= i < |flags| && 0 <= j < |flags| && flags[i] && flags[j] ==> i == j
  }

  predicate StrictlyAscending(s: seq<nat>) {
    forall a, b :: 0 <= a < b < |s| ==> s[a] < s[b]
  }

  /** `source.map(value => false)`: the flags of a fresh or resized group. */
  function AllFalse(n: nat): (r: seq<bool>)
    ensures |r| == n && NoneSelected(r)
  {
    seq(n, _ => false)
  }

  /** `tagFlags.map((item, index) => item ? index : -1).filter(item => item > -1)`. */
  function TrueIndices(flags: seq<bool>): (r: seq<nat>)
    ensures forall m :: 0 <= m < |r| ==> r[m] < |flags|
    ensures forall k: nat :: k in r <==> k < |flags| && flags[k]
    ensures StrictlyAscending(r)
  {
    if flags == [] then []
    else
      var last := |flags| - 1;
      var init := flags[..last];
      assert forall k :: 0 <= k < last ==> init[k] == flags[k];
      TrueIndices(init) + (if flags[last] then [last] else [])
  }

  /** `getSelectedIndex`: `-1` when no flag is set, otherwise the selected
      indices in ascending order. */
  function GetSelectedIndex(flags: seq<bool>): (r: SelectedIndex)
    ensures r == MinusOne <==> NoneSelected(flags)
    ensures r.Indices? ==> r.indices != [] && r.indices == TrueIndices(flags)
  {
    var selected := TrueIndices(flags);
    if |selected| > 0 then
      assert selected[0] in selected;
      Indices(selected)
    else
      assert forall i :: 0 <= i < |flags| && flags[i] ==> i in selected;
      MinusOne
  }

  /** `source.filter((value, index) => flags[index])`; a flag missing from
      `flags` reads as `undefined`, which the filter treats as false. */
  function SelectedLabels(source: seq<string>, flags: seq<bool>): (r: seq<string>)
    ensures |r| <= |source|
    ensures forall m :: 0 <= m < |r| ==> r[m] in source
  {
    if source == [] then []
    else
      var last := |source| - 1;
      SelectedLabels(source[..last], flags)
        + (if last < |flags| && flags[last] then [source[last]] else [])
  }

  /** `tagFlags.map((value, tagFlagIndex) => index === tagFlagIndex)`. */
  function OneHot(n: nat, index: nat): (r: seq<bool>)
    ensures |r| == n && AtMostOne(r)
    ensures forall j :: 0 <= j < n ==> (r[j] <==> j == index)
  {
    seq(n, j => j == index)
  }

  /** The flags after a press at `index`: one-hot in single-choice mode,
      flag `index` flipped in multi-choice mode. */
  function AfterPress(flags: seq<bool>, index: nat, singleChoiceMode: bool): (r: seq<bool>)
    requires index < |flags|
    ensures |r| == |flags|
    ensures singleChoiceMode ==> AtMostOne(r) && r[index]
    ensures !singleChoiceMode ==> r[index] == !flags[index]
    ensures !singleChoiceMode ==> forall j :: 0 <= j < |flags| && j != index ==> r[j] == flags[j]
  {
    if singleChoiceMode then OneHot(|flags|, index) else flags[index := !flags[index]]
  }

  /** A single-choice press calls back when `getSelectedIndex()` is `-1` or
      its first entry is not the pressed index. */
  predicate SingleChoiceFires(flags: seq<bool>, index: nat)
    ensures !(index < |flags| && flags[index]) ==> SingleChoiceFires(flags, index)
  {
    match GetSelectedIndex(flags)
    case MinusOne => true
    case Indices(selected) => selected[0] != index
  }

  /** The first entry of `TrueIndices` is the lowest set flag. */
  lemma FirstTrueIndex(flags: seq<bool>, index: nat)
    requires TrueIndices(flags) != []
    ensures TrueIndices(flags)[0] == index
        <==> index < |flags| && flags[index] && forall j :: 0 <= j < index ==> !flags[j]
  {
    var s := TrueIndices(flags);
    assert s[0] in s;
    assert forall m :: 0 <= m < |s| ==> s[0] <= s[m];
    assert forall k: nat :: k in s ==> s[0] <= k;
  }

  /** A single-choice press stays silent exactly when the pressed index is
      already the lowest selected one. */
  lemma FiresUnlessFirstSelected(flags: seq<bool>, index: nat)
    ensures !SingleChoiceFires(flags, index)
        <==> index < |flags| && flags[index] && forall j :: 0 <= j < index ==> !flags[j]
  {
    if GetSelectedIndex(flags).Indices? {
      FirstTrueIndex(flags, index);
    }
  }

  /** Under the single-choice invariant the callback fires exactly when the
      press changes the flags. */
  lemma FiresExactlyWhenFlagsChange(flags: seq<bool>, index: nat)
    requires AtMostOne(flags) && index < |flags|
    ensures SingleChoiceFires(flags, index) <==> AfterPress(flags, index, true) != flags
  {
    FiresUnlessFirstSelected(flags, index);
    var r := AfterPress(flags, index, true);
    if flags[index] {
      assert forall j :: 0 <= j < |flags| ==> r[j] == flags[j];
    } else {
      assert r[index] != flags[index];
    }
  }

  /** When single-choice mode is switched on while two flags are set, a
      press on the lower one clears the other and stays silent. */
  lemma MixedSelectionSilentChange()
    ensures var flags := [true, true];
      !SingleChoiceFires(flags, 0) && AfterPress(flags, 0, true) != flags
  {
    var flags := [true, true];
    FiresUnlessFirstSelected(flags, 0);
    assert AfterPress(flags, 0, true)[1] == false;
  }

  /** `AtMostOne` is the same as `getSelectedIndex` holding at most one index. */
  lemma AtMostOneIffSingleIndex(flags: seq<bool>)
    ensures AtMostOne(flags) <==> |TrueIndices(flags)| <= 1
  {
    if |TrueIndices(flags)| >= 2 {
      TwoIndicesBreakAtMostOne(flags);
    } else if |TrueIndices(flags)| == 1 {
      OneIndexKeepsAtMostOne(flags);
    }
  }

  lemma TwoIndicesBreakAtMostOne(flags: seq<bool>)
    requires |TrueIndices(flags)| >= 2
    ensures !AtMostOne(flags)
  {
    var s := TrueIndices(flags);
    var i, j := s[0], s[1];
    assert i in s && j in s;
    assert flags[i] && flags[j] && i < j;
  }

  lemma OneIndexKeepsAtMostOne(flags: seq<bool>)
    requires |TrueIndices(flags)| == 1
    ensures AtMostOne(flags)
  {
    var s := TrueIndices(flags);
    assert s == [s[0]];
    forall i, j | 0 <= i < |flags| && 0 <= j < |flags| && flags[i] && flags[j]
      ensures i == j
    {
      assert i in s && j in s;
    }
  }

  /** A single-choice press leaves exactly the pressed index selected. */
  lemma OneHotSelectsExactly(n: nat, index: nat)
    requires index < n
    ensures GetSelectedIndex(OneHot(n, index)) == Indices([index])
  {
    var flags := OneHot(n, index);
    var s := TrueIndices(flags);
    assert index in s;
    AtMostOneIffSingleIndex(flags);
    assert s == [index];
  }

  /** A reset group reports `-1`. */
  lemma ResetSelectsNothing(n: nat)
    ensures GetSelectedIndex(AllFalse(n)) == MinusOne
    ensures TrueIndices(AllFalse(n)) == []
  {
  }

  /** Flags with only the last one set report exactly that index. */
  lemma OnlyLastSelected(n: nat)
    ensures GetSelectedIndex(AllFalse(n) + [true]) == Indices([n])
  {
    var w := AllFalse(n) + [true];
    assert w[..n] == AllFalse(n);
    ResetSelectsNothing(n);
  }

  /** The label filter over a source no longer than the flags picks, in
      source order, the labels at the indices `getSelectedIndex` reports for
      the first |source| flags. */
  lemma {:induction false} LabelsFollowIndices(source: seq<string>, flags: seq<bool>)
    requires |source| <= |flags|
    ensures var idx := TrueIndices(flags[..|source|]);
      |SelectedLabels(source, flags)| == |idx|
      && forall m :: 0 <= m < |idx| ==> SelectedLabels(source, flags)[m] == source[idx[m]]
  {
    if source != [] {
      var last := |source| - 1;
      var prefix := source[..last];
      LabelsFollowIndices(prefix, flags);
      var whole := flags[..|source|];
      assert whole[..last] == flags[..last];
      var idx := TrueIndices(whole);
      var before := TrueIndices(flags[..last]);
      assert idx == before + (if flags[last] then [last] else []);
      var labels := SelectedLabels(source, flags);
      assert labels == SelectedLabels(prefix, flags) + (if flags[last] then [source[last]] else []);
      forall m | 0 <= m < |idx|
        ensures labels[m] == source[idx[m]]
      {
        if m < |before| {
          assert before[m] < last;
          assert prefix[before[m]] == source[before[m]];
        }
      }
    }
  }

  /** The multi-choice callback argument: the labels whose flags are set, in
      source order. */
  lemma SelectedLabelsInSourceOrder(source: seq<string>, flags: seq<bool>)
    requires |source| == |flags|
    ensures var idx := TrueIndices(flags);
      |SelectedLabels(source, flags)| == |idx|
      && forall m :: 0 <= m < |idx| ==> SelectedLabels(source, flags)[m] == source[idx[m]]
  {
    LabelsFollowIndices(source, flags);
    assert flags[..|source|] == flags;
  }
}
