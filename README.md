# TagGroup selection state, in Dafny

This project models the selection bookkeeping of `react-native-tag-group`.
A `TagGroup` shows one `Tag` chip for each label of its `source` list.

The group's state is `tagFlags`, one boolean per label. It also keeps `_tags`, the list of chip refs, and it calls `onSelectedTagChange` when the selection changes. Each `Tag` has one state, `selected`.

The model has four modules, one per concern:

- `Selection` (selection.dfy) holds the pure parts of the source.
  - `getSelectedIndex` (`-1` or the ascending list of selected indices).
  - The label filter passed to the multi-choice callback.
  - The one-hot vector of a single-choice press.
  - The rule that decides when a single-choice press calls back.
- `ForcedWrite` (forced_write.dfy) holds the flag write of `select`/`unselect`.
  - `ForceAsWritten` is the write as the source has it, with JavaScript array semantics.
  - `Force` is the corrected write, which the class uses. See "## Findings".
- `Chip` (tag.dfy) has the class `Tag`. Its methods update `selected` in place.
- `Group` (tag_group.dfy) has the class `TagGroup`, with these fields:
  - `source`, `singleChoiceMode`, `tagFlags`;
  - `tags`, the `_tags` ref list (`null` where a chip was unmounted);
  - a ghost log `notified`, one entry per call of `onSelectedTagChange`.

  `Valid()` says there is one flag per label and no chip is listed twice. `Consistent()` says every label's chip displays its flag. An index without a mounted chip displays "unselected", as a chip newly mounted there would.

Each handler runs as one atomic step.

- `TapChip` composes the chip's press with the group's `_onTagPress`. It proves that a chip press calls back exactly once and that the chips keep displaying the flags.
- `UpdateProps` is `shouldComponentUpdate` followed by the new props taking effect.
- `Render` is the ref bookkeeping of `render`. Existing chips are kept, missing ones are mounted unselected, and refs past the labels become `null`.

Some behaviours of the source are stated as the code has them, not as a description of the component might suggest.

- `select(i)` pays no attention to the mode. In single-choice mode it can set a second flag. So "at most one flag is set" is proved after each single-choice press (`AfterPress`), not as an invariant of the class.
- A single-choice press calls back unless the pressed index is the first selected one (`FiresUnlessFirstSelected`). This equals "calls back exactly when the flags change" only under the single-choice invariant (`FiresExactlyWhenFlagsChange`).
  - Suppose single-choice mode is switched on while two flags are set. A press on the lower one clears the other flag and stays silent (`MixedSelectionSilentChange`).
- `Tag._onTagPress` forces the chip on when `allowUnselect` is true, and toggles it otherwise (src/TagGroup.js:215-218). The group passes `singleChoiceMode && tagFlags[index]` (src/TagGroup.js:67), so in a group the prop means "stay selected". Some descriptions of the component put it the other way round; the model follows the code.
- `Select` keeps `Consistent()` only when the chip at `index` is mounted, or when the call does nothing.
  - Here is how it goes wrong. The source shrinks and re-renders, so refs become `null`. Then it grows again, and the render is skipped. A `select` in that window sets a flag that no chip shows. The chip later mounts unselected.
  - The source's own comment at src/TagGroup.js:102-103 expects the chip to be missing, so this is stated as behaviour, not as a finding.

## Model

| member | source | states |
|---|---|---|
| Selection.AllFalse | src/TagGroup.js:41 | the flags of a new or resized group have the requested length and none is set |
| Selection.TrueIndices | src/TagGroup.js:133-136 | the map/filter yields exactly the indices whose flag is set, each below the flag count, in strictly ascending order |
| Selection.GetSelectedIndex | src/TagGroup.js:132-142 | the result is `-1` exactly when no flag is set; otherwise it is the non-empty ascending list of selected indices |
| Selection.FirstTrueIndex | src/TagGroup.js:132-142 | the first entry of the selected-index list is `i` exactly when flag `i` is set and no lower flag is |
| Selection.OneHot | src/TagGroup.js:86 | the one-hot vector keeps the length and sets flag `j` exactly when `j` is the pressed index, so for an index past the end it sets nothing |
| Selection.OneHotSelectsExactly | src/TagGroup.js:86 | after a single-choice press `getSelectedIndex` reports exactly `[index]` |
| Selection.AtMostOneIffSingleIndex | src/TagGroup.js:132-142 | no two flags are set exactly when `getSelectedIndex` holds at most one index (both directions) |
| Selection.AfterPress | src/TagGroup.js:86-90 | a press keeps the flag count; single-choice leaves at most one flag set, the pressed one; multi-choice flips the pressed flag and no other |
| Selection.SingleChoiceFires | src/TagGroup.js:82-83 | the fire condition (`getSelectedIndex()` is `-1`, or its first entry is not the pressed index) always holds when the pressed index is not selected; the exact condition is `FiresUnlessFirstSelected` |
| Selection.FiresUnlessFirstSelected | src/TagGroup.js:82-85 | a single-choice press stays silent exactly when the pressed index is set and no lower index is (both directions) |
| Selection.FiresExactlyWhenFlagsChange | src/TagGroup.js:82-86 | if at most one flag is set, a single-choice press calls back exactly when it changes the flags |
| Selection.MixedSelectionSilentChange | src/TagGroup.js:82-86 | with flags `[true, true]` a single-choice press on 0 changes the flags without calling back |
| Selection.ResetSelectsNothing | src/TagGroup.js:50 | after a reset `getSelectedIndex` returns `-1` and no index is selected |
| Selection.SelectedLabels | src/TagGroup.js:91 | the label filter returns at most as many labels as the source has, each one a label of the source; its order and content are given by `LabelsFollowIndices` |
| Selection.LabelsFollowIndices | src/TagGroup.js:91 | the label filter over a source no longer than the flags returns, in order, the labels at the selected indices among the first labels |
| Selection.SelectedLabelsInSourceOrder | src/TagGroup.js:91-92 | the multi-choice callback argument is the labels at the selected indices, in source order, one per selected index |
| ForcedWrite.JsAssign | src/TagGroup.js:107-108 | a JavaScript element write sets the element and keeps every other one; past the end it grows the array to `index + 1` and leaves false (undefined) in the holes |
| ForcedWrite.ForceAsWritten | src/TagGroup.js:100-111 | the written guard on the ref count alone: when it passes, the flag is set and the flags may grow; otherwise they are unchanged |
| ForcedWrite.Force | src/TagGroup.js:117-127 | the corrected write keeps the flag count, changes no flag but `index`, sets `index` only when it is below the ref count, and is a no-op for an index past the flags |
| ForcedWrite.AsWrittenAgreesInRange | src/TagGroup.js:100-127 | inside the flag vector the written and the corrected guards give the same flags |
| ForcedWrite.AsWrittenOnlyGrows | src/TagGroup.js:100-127 | the written write equals the corrected one on the existing flags and can only add flags past them |
| ForcedWrite.SelectAsWrittenReportsMissingTag | src/TagGroup.js:100-111 | with no flag set and an index at or past the flag count but below the ref count (3 flags, 5 refs, index 4), the written `select` grows the flags to `index + 1` and `getSelectedIndex` returns `[index]` |
| ForcedWrite.UnselectAsWrittenGrowsFlags | src/TagGroup.js:117-127 | for an index at or past the flag count but below the ref count, the written `unselect` grows the flags to `index + 1` |
| Chip.Tag.constructor | src/TagGroup.js:172-178 | a chip mounts unselected, having called back zero times |
| Chip.Tag.Press | src/TagGroup.js:210-220 | a press calls `onSelectStateChange` exactly once; the chip ends selected if `allowUnselect`, else with its flag toggled |
| Chip.Tag.ClearState | src/TagGroup.js:222-224 | forces the chip unselected without a callback, and writes nothing when it already is (idempotent) |
| Chip.Tag.SetSelected | src/TagGroup.js:226-228 | forces the chip selected without a callback, and writes nothing when it already is (idempotent) |
| Group.TagGroup.constructor | src/TagGroup.js:37-45 | one false flag per label, `getSelectedIndex` is `-1`, no refs, no callback yet; `Valid` and `Consistent` hold |
| Group.TagGroup.Render | src/TagGroup.js:62-68 | mounted chips at label indices are kept, missing ones mount fresh and unselected, refs past the labels become null, the ref list never shrinks; flags untouched; `Consistent` is preserved |
| Group.TagGroup.UpdateProps | src/TagGroup.js:47-57 | on a length change the flags become all false with the new length, chips below the new length are cleared, others untouched, the render is skipped; otherwise flags and chips are unchanged and the render proceeds; never calls back; `Consistent` holds after a reset |
| Group.TagGroup.OnTagPress | src/TagGroup.js:73-95 | single-choice: other chips cleared, flags one-hot at `index`, callback `(source[index], index)` exactly when the fire rule says so; multi-choice: only flag `index` flips, chips untouched, callback with the labels now selected; chips never call back |
| Group.TagGroup.ClearOtherChips | src/TagGroup.js:76-80 | every mounted chip except the one at `index` ends unselected, that one keeps its state, and no chip calls back |
| Group.TagGroup.TapChip | src/TagGroup.js:62-68 | a chip tap with `allowUnselect = singleChoiceMode && tagFlags[index]` gives the flags and the callback of `_onTagPress`; the tapped chip calls back once and ends selected if it was chosen in single-choice mode, else toggled; other chips never call back, are cleared in single-choice mode and untouched in multi-choice mode; every chip still displays its flag if it did before |
| Group.TagGroup.Select | src/TagGroup.js:100-112 | when `index` is below the ref count, the chip there (if mounted) and flag `index` (if it exists) are set, and nothing else changes; no callback |
| Group.TagGroup.Unselect | src/TagGroup.js:117-127 | when `index` is below the ref count, the chip there (if mounted) and flag `index` (if it exists) are cleared, and nothing else changes; no callback; `Consistent` is preserved |

## Left out

- Rendering, styles, the choice of touchable, PropTypes and default props are left out. They carry no selection behaviour.
- A `Tag` used as a plain button through `onPress` is left out. It bypasses selection entirely.
- The default `console.log` callbacks are left out, because they are output. `onSelectedTagChange` is recorded in the ghost log `TagGroup.notified`. `onSelectStateChange` is counted in `Tag.stateChangeCalls`.
- React's batched, asynchronous `setState` and the timing of ref callbacks are not modelled. Each handler is one atomic step. `Render` runs only when the caller invokes it, and the caller decides what runs in between.
- Negative indices are not modelled: indices are `nat`. In JavaScript, `select(-1)` passes the guard and writes a property named `-1` that no reader of `tagFlags` sees.
- Group.TagGroup.TapChip and Group.TagGroup.OnTagPress require `index < |tagFlags|`.
  - Suppose the source shrinks and the render is skipped. A still-displayed chip past the new end can then be pressed.
  - In the source, a multi-choice press there grows `tagFlags`, and a single-choice press calls back with an `undefined` label. The model does not cover those presses.
- The example application (example/App.js) is not part of this model. It is a demo screen.

## Findings

| source | as written | input that shows it | evidently intended | confidence | as-written member | corrected member |
|---|---|---|---|---|---|---|
| src/TagGroup.js:100-111 | `select` checks only `index < this._tags.length`, then writes `copy[index] = true` into `tagFlags`; `_tags` keeps its length after the source shrinks | render 5 labels, change the source to 3 labels and render, then `select(4)`: `tagFlags` grows to 5 entries and `getSelectedIndex()` returns `[4]`, an index with no label | `select` is a no-op for an index outside `tagFlags`, so there is one flag per label | medium, not executed | ForcedWrite.ForceAsWritten | ForcedWrite.Force |
| src/TagGroup.js:117-127 | `unselect` has the same guard and writes `copy[index] = false` | the same state, then `unselect(4)`: `tagFlags` grows to 5 entries while the source has 3 labels | `unselect` is a no-op for an index outside `tagFlags` | medium, not executed | ForcedWrite.ForceAsWritten | ForcedWrite.Force |

`ForcedWrite.SelectAsWrittenReportsMissingTag` and `ForcedWrite.UnselectAsWrittenGrowsFlags` exhibit the two inputs. `Group.TagGroup.Select` and `Group.TagGroup.Unselect` use `Force`, and their `Valid()` postcondition proves one flag per label.
