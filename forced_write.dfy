/** The flag write of `select(index)` and `unselect(index)`.

    Both guard on `index < this._tags.length` and then run
    `copy[index] = value` on the `tagFlags` array. `_tags` is the list of
    chip refs: a ref callback writes `_tags[index]`, and an unmounted chip
    leaves `null` behind, so the list never shrinks. Once the source has had
    more labels than it has now, the guard lets through indices past the end
    of `tagFlags`, and the JavaScript write there grows the array.
    `ForceAsWritten` models that; `Force` is the corrected write, which also
    stays inside `tagFlags`, and is the one `TagGroup` uses. */
module ForcedWrite {
  import opened Selection

  /** `flags[index] = value` on a JavaScript array. Past the end the array
      grows to `index + 1`. The holes it leaves are modelled as false: that
      is how `getSelectedIndex` (whose `map`/`filter` skip holes) and the
      label filter (which reads them as `undefined`) see them. */
  function JsAssign(flags: seq<bool>, index: nat, value: bool): (r: seq<bool>)
    ensures |r| == if index < |flags| then |flags| else index + 1
    ensures r[index] == value
    ensures forall j :: 0 <= j < |r| && j != index ==> r[j] == (j < |flags| && flags[j])
  {
    if index < |flags| then flags[index := value]
    else flags + seq(index - |flags|, _ => false) + [value]
  }

  /** The flag write of `select`/`unselect` as written: guarded by the
      ref-list length `tagCount` only. */
  function ForceAsWritten(flags: seq<bool>, tagCount: nat, index: nat, value: bool): (r: seq<bool>)
    ensures index < tagCount ==> |r| >= |flags| && index < |r| && r[index] == value
    ensures index >= tagCount ==> r == flags
  {
    if index < tagCount then JsAssign(flags, index, value) else flags
  }

  /** The corrected write: a no-op unless `index` is below both the ref-list
      length and the flag count; otherwise it sets flag `index` only. */
  function Force(flags: seq<bool>, tagCount: nat, index: nat, value: bool): (r: seq<bool>)
    ensures |r| == |flags|
    ensures forall j :: 0 <= j < |flags| && j != index ==> r[j] == flags[j]
    ensures index < |flags| ==> r[index] == (if index < tagCount then value else flags[index])
    ensures index >= |flags| || index >= tagCount ==> r == flags
  {
    if index < tagCount && index < |flags| then flags[index := value] else flags
  }

  /** Inside the flag vector the written and the corrected guards agree. */
  lemma AsWrittenAgreesInRange(flags: seq<bool>, tagCount: nat, index: nat, value: bool)
    requires index < |flags|
    ensures ForceAsWritten(flags, tagCount, index, value) == Force(flags, tagCount, index, value)
  {
  }

  /** Everywhere, the written guard differs from the corrected one only by
      growing the flags. */
  lemma AsWrittenOnlyGrows(flags: seq<bool>, tagCount: nat, index: nat, value: bool)
    ensures var w := ForceAsWritten(flags, tagCount, index, value);
      |w| >= |flags| && w[..|flags|] == Force(flags, tagCount, index, value)
  {
    var w := ForceAsWritten(flags, tagCount, index, value);
    var f := Force(flags, tagCount, index, value);
    assert forall j :: 0 <= j < |flags| ==> w[j] == f[j];
  }

  /** Once the source has shrunk below the number of refs, the written
      `select(index)` for an index past the flags but below the ref count
      grows the flags past the labels, and `getSelectedIndex` reports that
      index although it has no label (e.g. 3 labels, 5 refs, index 4). */
  lemma SelectAsWrittenReportsMissingTag(flags: seq<bool>, tagCount: nat, index: nat)
    requires NoneSelected(flags) && |flags| <= index < tagCount
    ensures var w := ForceAsWritten(flags, tagCount, index, true);
      |w| == index + 1 && GetSelectedIndex(w) == Indices([index])
  {
    SelectAsWrittenFlags(flags, tagCount, index);
    OnlyLastSelected(index);
  }

  lemma SelectAsWrittenFlags(flags: seq<bool>, tagCount: nat, index: nat)
    requires NoneSelected(flags) && |flags| <= index < tagCount
    ensures ForceAsWritten(flags, tagCount, index, true) == AllFalse(index) + [true]
  {
    var w := ForceAsWritten(flags, tagCount, index, true);
    var v := AllFalse(index) + [true];
    assert forall j :: 0 <= j < |w| ==> w[j] == v[j];
  }

  /** In the same state the written `unselect(index)` grows the flags past
      the labels too. */
  lemma UnselectAsWrittenGrowsFlags(flags: seq<bool>, tagCount: nat, index: nat)
    requires |flags| <= index < tagCount
    ensures |ForceAsWritten(flags, tagCount, index, false)| == index + 1 > |flags|
  {
  }
}
