/**
 * How the stride histogram wires the utilities together: it groups the
 * strides by walking bout, offers the group keys in the picker, and plots
 * the tuples of the chosen bouts (or, for one bout, of its left and right
 * strides). Dropping zero values beforehand is outside the model; the
 * strides given here are the ones left after it.
 */
module StrideHistogram {
  import opened Wrappers
  import opened Seqs
  import opened JsNumber
  import opened Parameters
  import opened Utils
  import opened WbDropdown

  /** The data the histogram plots. */
  function HistogramData(strides: seq<PerStrideParameter>, currentWbIds: seq<int>, focusParam: PerStrideField, splitLR: bool)
    : Result<seq<KeyVal>, string>
  {
    CreateDatasetOfKeyAndValTuples(currentWbIds, focusParam, GroupPerStrideParametersByWbId(strides), splitLR)
  }

  /** The ids the picker is given: the group keys, in the order they were first seen. */
  function AllWbIds(strides: seq<PerStrideParameter>): seq<int> {
    GroupPerStrideParametersByWbId(strides).order
  }

  /** Every bout the picker offers has at least one stride to plot. */
  lemma OfferedBoutsHaveStrides(strides: seq<PerStrideParameter>, currentWbIds: seq<int>, wbId: int)
    requires wbId in OfferedOptions(AllWbIds(strides), currentWbIds)
    ensures |StridesOfWb(strides, wbId)| > 0 && wbId !in currentWbIds
  {
    OfferedOptionsMembers(AllWbIds(strides), currentWbIds);
    GroupKeys(strides);
    StridesOfWbNonEmpty(strides, wbId);
  }

  /**
   * Without splitting, and with no bout chosen twice, the plotted tuples
   * keyed `String(wbId)` are one per stride of the input carrying `wbId`,
   * in input order, when that bout is chosen, and there are none otherwise.
   */
  lemma HistogramDataByWb(strides: seq<PerStrideParameter>, currentWbIds: seq<int>, focusParam: PerStrideField, wbId: int)
    requires NoDup(currentWbIds)
    ensures var r := HistogramData(strides, currentWbIds, focusParam, false);
      && r.Success?
      && TuplesWithKey(r.value, NumberToString(wbId))
         == if wbId in currentWbIds then TuplesOfGroup(NumberToString(wbId), StridesOfWb(strides, wbId), focusParam) else []
  {
    CreateDatasetOfKeyAndValTuplesByWb(currentWbIds, focusParam, GroupPerStrideParametersByWbId(strides), wbId);
    GroupMembers(strides, wbId);
  }

  /**
   * Splitting with one bout plots one `(lr_label, value)` tuple per stride
   * of the input carrying that bout's id, in input order.
   */
  lemma HistogramDataSplit(strides: seq<PerStrideParameter>, wbId: int, focusParam: PerStrideField)
    ensures var r := HistogramData(strides, [wbId], focusParam, true);
      var bout := StridesOfWb(strides, wbId);
      && r.Success? && |r.value| == |bout|
      && forall i :: 0 <= i < |bout| ==> r.value[i] == (bout[i].lrLabel, StrideValue(bout[i], focusParam))
  {
    GroupMembers(strides, wbId);
    CreateDatasetOfKeyAndValTuplesSplit(wbId, focusParam, GroupPerStrideParametersByWbId(strides));
  }
}
