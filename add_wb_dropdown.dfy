/**
 * The walking-bout picker: a drop-down offering the bouts not yet plotted
 * and an "Add" button that appends the chosen bout to the plotted list, or
 * reports that the list is at capacity.
 */
module WbDropdown {
  import opened Wrappers
  import opened Seqs
  import opened JsNumber

  /** `allWbIds.filter(id => !currentWbIds.includes(id))`. */
  function OfferedOptions(allWbIds: seq<int>, currentWbIds: seq<int>): seq<int> {
    if allWbIds == [] then []
    else (if allWbIds[0] in currentWbIds then [] else [allWbIds[0]]) + OfferedOptions(allWbIds[1..], currentWbIds)
  }

  /** The options are exactly the ids of `allWbIds` not already plotted. */
  lemma {:induction false} OfferedOptionsMembers(allWbIds: seq<int>, currentWbIds: seq<int>)
    ensures forall id :: id in OfferedOptions(allWbIds, currentWbIds) <==> id in allWbIds && id !in currentWbIds
  {
    if allWbIds != [] {
      OfferedOptionsMembers(allWbIds[1..], currentWbIds);
      assert allWbIds == [allWbIds[0]] + allWbIds[1..];
    }
  }

  /** The options keep the order of `allWbIds`: filtering commutes with concatenation. */
  lemma {:induction false} OfferedOptionsAppend(a: seq<int>, b: seq<int>, currentWbIds: seq<int>)
    ensures OfferedOptions(a + b, currentWbIds) == OfferedOptions(a, currentWbIds) + OfferedOptions(b, currentWbIds)
  {
    if a == [] {
      assert a + b == b;
    } else {
      assert (a + b)[1..] == a[1..] + b;
      OfferedOptionsAppend(a[1..], b, currentWbIds);
    }
  }

  /** No option is offered twice when no id is listed twice. */
  lemma {:induction false} OfferedOptionsNoDup(allWbIds: seq<int>, currentWbIds: seq<int>)
    requires NoDup(allWbIds)
    ensures NoDup(OfferedOptions(allWbIds, currentWbIds))
  {
    if allWbIds != [] {
      var rest := allWbIds[1..];
      assert NoDup(rest);
      OfferedOptionsNoDup(rest, currentWbIds);
      OfferedOptionsMembers(rest, currentWbIds);
      assert allWbIds[0] !in rest;
    }
  }

  /** The picker's state and the properties it is given. */
  class AddWbDropdown {
    /** Every walking bout that may be plotted. */
    const allWbIds: seq<int>
    /** The capacity of the plotted list. */
    const maxWbs: int
    /** Whether a `maxHit` callback was supplied. */
    const hasMaxHit: bool
    /** Whether the Add button is disabled. */
    const disabled: bool
    /** The plotted walking bouts (the parent's state, updated through `setCurrentWbIds`). */
    var currentWbIds: seq<int>
    /** The bout chosen in the drop-down, if any. */
    var selectedWb: Option<int>

    /**
     * Nothing is plotted twice, a chosen bout is not plotted yet, and with a
     * `maxHit` callback the plotted list is within capacity.
     */
    ghost predicate Valid()
      reads this
    {
      && NoDup(currentWbIds)
      && (selectedWb.Some? ==> selectedWb.value !in currentWbIds)
      && (hasMaxHit ==> |currentWbIds| <= maxWbs)
    }

    constructor (currentWbIds: seq<int>, allWbIds: seq<int>, maxWbs: int, hasMaxHit: bool, disabled: bool)
      ensures this.currentWbIds == currentWbIds && this.allWbIds == allWbIds
      ensures this.maxWbs == maxWbs && this.hasMaxHit == hasMaxHit && this.disabled == disabled
      ensures selectedWb == None
      ensures NoDup(currentWbIds) && (hasMaxHit ==> |currentWbIds| <= maxWbs) ==> Valid()
    {
      this.currentWbIds := currentWbIds;
      this.allWbIds := allWbIds;
      this.maxWbs := maxWbs;
      this.hasMaxHit := hasMaxHit;
      this.disabled := disabled;
      selectedWb := None;
    }

    /** The ids the drop-down lists. */
    function Options(): seq<int>
      reads this
    {
      OfferedOptions(allWbIds, currentWbIds)
    }

    /** The drop-down's `onValueChange(val)`: `setSelectedWb(Number(val))`. */
    method OnValueChange(val: string)
      modifies this
      ensures selectedWb == Some(StringToNumber(val))
      ensures forall id :: val == NumberToString(id) ==> selectedWb == Some(id)
      ensures currentWbIds == old(currentWbIds)
      ensures old(Valid()) && StringToNumber(val) in old(Options()) ==> Valid()
    {
      OfferedOptionsMembers(allWbIds, currentWbIds);
      forall id | val == NumberToString(id) ensures StringToNumber(val) == id {
        NumberStringRoundTrip(id);
      }
      selectedWb := Some(StringToNumber(val));
    }

    /**
     * The Add button's `onClick`. Returns whether `maxHit` was called. With
     * nothing chosen, or the button disabled, nothing happens; at capacity
     * (an equality test, made only when `maxHit` is supplied) `maxHit` is
     * called and nothing changes; otherwise the chosen bout is appended and
     * the choice cleared.
     */
    method Add() returns (maxHitCalled: bool)
      modifies this
      ensures maxHitCalled <==> !disabled && old(selectedWb).Some? && |old(currentWbIds)| == maxWbs && hasMaxHit
      ensures disabled || old(selectedWb).None? || maxHitCalled ==>
                currentWbIds == old(currentWbIds) && selectedWb == old(selectedWb)
      ensures !disabled && old(selectedWb).Some? && !maxHitCalled ==>
                currentWbIds == old(currentWbIds) + [old(selectedWb).value] && selectedWb == None
      ensures |currentWbIds| >= |old(currentWbIds)| && currentWbIds[..|old(currentWbIds)|] == old(currentWbIds)
      ensures hasMaxHit && |old(currentWbIds)| <= maxWbs ==> |currentWbIds| <= maxWbs
      ensures old(Valid()) ==> Valid()
    {
      maxHitCalled := false;
      if !disabled && selectedWb.Some? {
        if |currentWbIds| == maxWbs && hasMaxHit {
          maxHitCalled := true;
          return;
        }
        currentWbIds := currentWbIds + [selectedWb.value];
        selectedWb := None;
      }
    }
  }

  /**
   * Without a `maxHit` callback the capacity is not enforced: with a
   * capacity of one, choosing a second bout and pressing Add plots two.
   */
  method CapacityUnenforcedWithoutMaxHit() returns (plotted: int, capacity: int)
    ensures plotted > capacity
  {
    var dropdown := new AddWbDropdown([0], [0, 1], 1, false, false);
    dropdown.OnValueChange(NumberToString(1));
    var called := dropdown.Add();
    plotted, capacity := |dropdown.currentWbIds|, dropdown.maxWbs;
  }

  /** With a `maxHit` callback, Add at capacity reports it and plots nothing more. */
  method CapacityEnforcedWithMaxHit() returns (called: bool, plotted: int)
    ensures called && plotted == 1
  {
    var dropdown := new AddWbDropdown([0], [0, 1], 1, true, false);
    dropdown.OnValueChange(NumberToString(1));
    called := dropdown.Add();
    plotted := |dropdown.currentWbIds|;
  }
}
