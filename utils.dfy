/**
 * The array utilities the stride and walking-bout views are built on:
 * sorting records by a field, grouping strides by walking bout, splitting
 * strides into left and right, and building the (key, value) tuples a
 * histogram plots. They are modelled as functions that return new
 * sequences; whether the JavaScript versions sort or fill their argument in
 * place is not modelled.
 */
module Utils {
  import opened Wrappers
  import opened Seqs
  import opened JsNumber
  import opened Parameters

  // ---------------------------------------------------------------------
  // Ordering of field values
  // ---------------------------------------------------------------------

  /** Lexicographic order of strings by character code, as JavaScript's `<=`. */
  predicate TextLe(x: string, y: string)
    decreases |x|
  {
    x == [] || (y != [] && (x[0] < y[0] || (x[0] == y[0] && TextLe(x[1..], y[1..]))))
  }

  lemma {:induction false} TextLeReflexive(x: string)
    ensures TextLe(x, x)
    decreases |x|
  {
    if x != [] {
      TextLeReflexive(x[1..]);
    }
  }

  lemma {:induction false} TextLeTotal(x: string, y: string)
    ensures TextLe(x, y) || TextLe(y, x)
    decreases |x|
  {
    if x != [] && y != [] && x[0] == y[0] {
      TextLeTotal(x[1..], y[1..]);
    }
  }

  lemma {:induction false} TextLeTransitive(x: string, y: string, z: string)
    requires TextLe(x, y) && TextLe(y, z)
    ensures TextLe(x, z)
    decreases |x|
  {
    if x != [] && x[0] == y[0] && y[0] == z[0] {
      TextLeTransitive(x[1..], y[1..], z[1..]);
    }
  }

  /**
   * The order a sort by one field uses: numbers ascending, text
   * lexicographically. A single field never mixes the two kinds; numbers are
   * put first only so that the order is total.
   */
  predicate ValueLe(a: FieldValue, b: FieldValue) {
    match (a, b)
    case (Num(x), Num(y)) => x <= y
    case (Text(x), Text(y)) => TextLe(x, y)
    case (Num(_), Text(_)) => true
    case (Text(_), Num(_)) => false
  }

  lemma ValueLeReflexive(a: FieldValue)
    ensures ValueLe(a, a)
  {
    if a.Text? {
      TextLeReflexive(a.t);
    }
  }

  lemma ValueLeTotal(a: FieldValue, b: FieldValue)
    ensures ValueLe(a, b) || ValueLe(b, a)
  {
    if a.Text? && b.Text? {
      TextLeTotal(a.t, b.t);
    }
  }

  lemma ValueLeTransitive(a: FieldValue, b: FieldValue, c: FieldValue)
    requires ValueLe(a, b) && ValueLe(b, c)
    ensures ValueLe(a, c)
  {
    if a.Text? && b.Text? && c.Text? {
      TextLeTransitive(a.t, b.t, c.t);
    }
  }

  // ---------------------------------------------------------------------
  // Stable sorting by a key
  // ---------------------------------------------------------------------

  /** Ascending by `key`. */
  ghost predicate SortedBy<T>(s: seq<T>, key: T -> FieldValue) {
    forall i, j :: 0 <= i < j < |s| ==> ValueLe(key(s[i]), key(s[j]))
  }

  /** The elements of `s` whose key is `v`, in their order in `s`. */
  function WithKey<T>(s: seq<T>, key: T -> FieldValue, v: FieldValue): seq<T> {
    if s == [] then []
    else (if key(s[0]) == v then [s[0]] else []) + WithKey(s[1..], key, v)
  }

  /** Puts `x` in front of the first element whose key is not smaller. */
  function Insert<T>(x: T, s: seq<T>, key: T -> FieldValue): seq<T> {
    if s == [] || ValueLe(key(x), key(s[0])) then [x] + s
    else [s[0]] + Insert(x, s[1..], key)
  }

  /** Stable sort of `s` ascending by `key`. */
  function SortBy<T>(s: seq<T>, key: T -> FieldValue): seq<T> {
    if s == [] then [] else Insert(s[0], SortBy(s[1..], key), key)
  }

  lemma {:induction false} InsertPermutation<T>(x: T, s: seq<T>, key: T -> FieldValue)
    ensures multiset(Insert(x, s, key)) == multiset(s) + multiset{x}
  {
    if s != [] && !ValueLe(key(x), key(s[0])) {
      InsertPermutation(x, s[1..], key);
      assert s == [s[0]] + s[1..];
    }
  }

  lemma {:induction false} InsertSorted<T>(x: T, s: seq<T>, key: T -> FieldValue)
    requires SortedBy(s, key)
    ensures SortedBy(Insert(x, s, key), key)
  {
    if s == [] {
    } else if ValueLe(key(x), key(s[0])) {
      forall j | 0 < j < |s| + 1
        ensures ValueLe(key(x), key(([x] + s)[j]))
      {
        if j > 1 {
          ValueLeTransitive(key(x), key(s[0]), key(s[j - 1]));
        }
      }
    } else {
      var t := Insert(x, s[1..], key);
      InsertSorted(x, s[1..], key);
      InsertPermutation(x, s[1..], key);
      ValueLeTotal(key(x), key(s[0]));
      forall k | 0 <= k < |t|
        ensures ValueLe(key(s[0]), key(t[k]))
      {
        assert t[k] in multiset(t);
        if t[k] != x {
          assert t[k] in multiset(s[1..]);
          var m :| 0 <= m < |s[1..]| && s[1..][m] == t[k];
          assert s[m + 1] == t[k];
        }
      }
    }
  }

  /** Inserting `x` into a sorted sequence puts it before every element with the same key. */
  lemma {:induction false} InsertWithKey<T>(x: T, s: seq<T>, key: T -> FieldValue, v: FieldValue)
    requires SortedBy(s, key)
    ensures WithKey(Insert(x, s, key), key, v) == (if key(x) == v then [x] else []) + WithKey(s, key, v)
  {
    if s == [] || ValueLe(key(x), key(s[0])) {
      assert ([x] + s)[1..] == s;
    } else {
      ValueLeReflexive(key(x));
      InsertWithKey(x, s[1..], key, v);
      assert ([s[0]] + Insert(x, s[1..], key))[1..] == Insert(x, s[1..], key);
    }
  }

  lemma {:induction false} SortByPermutation<T>(s: seq<T>, key: T -> FieldValue)
    ensures multiset(SortBy(s, key)) == multiset(s)
  {
    if s != [] {
      SortByPermutation(s[1..], key);
      InsertPermutation(s[0], SortBy(s[1..], key), key);
      assert s == [s[0]] + s[1..];
    }
  }

  lemma {:induction false} SortBySorted<T>(s: seq<T>, key: T -> FieldValue)
    ensures SortedBy(SortBy(s, key), key)
  {
    if s != [] {
      SortBySorted(s[1..], key);
      InsertSorted(s[0], SortBy(s[1..], key), key);
    }
  }

  /** Elements with equal keys keep their relative order. */
  lemma {:induction false} SortByStable<T>(s: seq<T>, key: T -> FieldValue, v: FieldValue)
    ensures WithKey(SortBy(s, key), key, v) == WithKey(s, key, v)
  {
    if s != [] {
      SortByStable(s[1..], key, v);
      SortBySorted(s[1..], key);
      InsertWithKey(s[0], SortBy(s[1..], key), key, v);
    }
  }

  /** The sort key of `sortWbsByProperty`. */
  function WbKey(field: PerWbField): PerWbParameter -> FieldValue {
    wb => Num(WbNumber(wb, field))
  }

  /** The sort key of `sortStridesByProperty`. */
  function StrideKey(field: PerStrideField): PerStrideParameter -> FieldValue {
    stride => StrideValue(stride, field)
  }

  /**
   * `sortWbsByProperty(wbs, field)`: the same walking bouts, ascending in
   * `field`, bouts with equal values in their original order.
   */
  function SortWbsByProperty(wbs: seq<PerWbParameter>, field: PerWbField): (r: seq<PerWbParameter>)
    ensures multiset(r) == multiset(wbs)
    ensures forall i, j :: 0 <= i < j < |r| ==> WbNumber(r[i], field) <= WbNumber(r[j], field)
    ensures forall x: real :: WithKey(r, WbKey(field), Num(x)) == WithKey(wbs, WbKey(field), Num(x))
  {
    SortByPermutation(wbs, WbKey(field));
    SortBySorted(wbs, WbKey(field));
    forall x: real ensures WithKey(SortBy(wbs, WbKey(field)), WbKey(field), Num(x)) == WithKey(wbs, WbKey(field), Num(x)) {
      SortByStable(wbs, WbKey(field), Num(x));
    }
    SortBy(wbs, WbKey(field))
  }

  /**
   * `sortStridesByProperty(strides, field)`: the same strides, ascending in
   * `field` (numerically, or lexicographically for `lr_label`), strides with
   * equal values in their original order.
   */
  function SortStridesByProperty(strides: seq<PerStrideParameter>, field: PerStrideField): (r: seq<PerStrideParameter>)
    ensures multiset(r) == multiset(strides)
    ensures forall i, j :: 0 <= i < j < |r| ==> ValueLe(StrideValue(r[i], field), StrideValue(r[j], field))
    ensures forall v :: WithKey(r, StrideKey(field), v) == WithKey(strides, StrideKey(field), v)
  {
    SortByPermutation(strides, StrideKey(field));
    SortBySorted(strides, StrideKey(field));
    forall v ensures WithKey(SortBy(strides, StrideKey(field)), StrideKey(field), v) == WithKey(strides, StrideKey(field), v) {
      SortByStable(strides, StrideKey(field), v);
    }
    SortBy(strides, StrideKey(field))
  }

  /** Sorting by a numeric stride field orders the strides by that number. */
  lemma SortStridesByNumericField(strides: seq<PerStrideParameter>, field: PerStrideField)
    requires field != PerStrideField.LrLabel
    ensures var r := SortStridesByProperty(strides, field);
      forall i, j :: 0 <= i < j < |r| ==> StrideValue(r[i], field).n <= StrideValue(r[j], field).n
  {
  }

  /** Sorting by `lr_label` puts every "left" stride before every "right" stride. */
  lemma SortStridesByLabelLeftFirst(strides: seq<PerStrideParameter>)
    ensures var r := SortStridesByProperty(strides, PerStrideField.LrLabel);
      forall i, j :: 0 <= i < |r| && 0 <= j < |r| && r[i].lrLabel == "left" && r[j].lrLabel == "right" ==> i < j
  {
    var r := SortStridesByProperty(strides, PerStrideField.LrLabel);
    assert !TextLe("right", "left") by {
      assert "right"[0] == 'r' && "left"[0] == 'l';
    }
  }

  // ---------------------------------------------------------------------
  // Grouping strides by walking bout
  // ---------------------------------------------------------------------

  /**
   * The `Map<number, PerStrideParameters>` returned by the grouping: a
   * JavaScript Map remembers the order its keys were first set, kept here
   * in `order`.
   */
  datatype StrideGroups = StrideGroups(order: seq<int>, groups: map<int, seq<PerStrideParameter>>)

  /** `grouped.get(wbId)`, an absent key read as an empty group. */
  function GroupOf(g: StrideGroups, wbId: int): seq<PerStrideParameter> {
    if wbId in g.groups then g.groups[wbId] else []
  }

  /** The walking-bout ids that occur in `strides`. */
  function WbIdsOf(strides: seq<PerStrideParameter>): set<int> {
    set stride | stride in strides :: stride.wbId
  }

  /** The strides carrying `wbId`, in their order in `strides`. */
  function StridesOfWb(strides: seq<PerStrideParameter>, wbId: int): seq<PerStrideParameter>
    decreases |strides|
  {
    if strides == [] then []
    else
      var last := strides[|strides| - 1];
      StridesOfWb(strides[..|strides| - 1], wbId) + (if last.wbId == wbId then [last] else [])
  }

  lemma WbIdsOfSnoc(strides: seq<PerStrideParameter>)
    requires strides != []
    ensures WbIdsOf(strides) == WbIdsOf(strides[..|strides| - 1]) + {strides[|strides| - 1].wbId}
  {
    assert strides == strides[..|strides| - 1] + [strides[|strides| - 1]];
  }

  /** An id that occurs in the input has at least one stride. */
  lemma {:induction false} StridesOfWbNonEmpty(strides: seq<PerStrideParameter>, wbId: int)
    requires wbId in WbIdsOf(strides)
    ensures |StridesOfWb(strides, wbId)| > 0
    decreases |strides|
  {
    var prefix := strides[..|strides| - 1];
    WbIdsOfSnoc(strides);
    if strides[|strides| - 1].wbId != wbId {
      StridesOfWbNonEmpty(prefix, wbId);
    }
  }

  /** The position of the first stride carrying `wbId`. */
  function FirstIndexOfWb(strides: seq<PerStrideParameter>, wbId: int): (k: nat)
    requires wbId in WbIdsOf(strides)
    ensures k < |strides| && strides[k].wbId == wbId
    ensures forall i :: 0 <= i < k ==> strides[i].wbId != wbId
    decreases |strides|
  {
    var prefix := strides[..|strides| - 1];
    if wbId in WbIdsOf(prefix) then FirstIndexOfWb(prefix, wbId)
    else
      assert forall i :: 0 <= i < |prefix| ==> strides[i] == prefix[i];
      |strides| - 1
  }

  /** `groupPerStrideParametersByWbId(strides)`: one pass over the strides, appending each to its bout's group. */
  function GroupPerStrideParametersByWbId(strides: seq<PerStrideParameter>): StrideGroups
    decreases |strides|
  {
    if strides == [] then StrideGroups([], map[])
    else
      var g := GroupPerStrideParametersByWbId(strides[..|strides| - 1]);
      var last := strides[|strides| - 1];
      if last.wbId in g.groups then StrideGroups(g.order, g.groups[last.wbId := g.groups[last.wbId] + [last]])
      else StrideGroups(g.order + [last.wbId], g.groups[last.wbId := [last]])
  }

  /** The keys of the grouping are the ids of the input, each listed once in `order`. */
  lemma {:induction false} GroupKeys(strides: seq<PerStrideParameter>)
    ensures var g := GroupPerStrideParametersByWbId(strides);
      && g.groups.Keys == WbIdsOf(strides)
      && (forall wbId :: wbId in g.order <==> wbId in g.groups)
      && NoDup(g.order)
    decreases |strides|
  {
    if strides != [] {
      var prefix := strides[..|strides| - 1];
      var last := strides[|strides| - 1];
      GroupKeys(prefix);
      assert strides == prefix + [last];
      assert WbIdsOf(strides) == WbIdsOf(prefix) + {last.wbId};
    }
  }

  /** Each group holds exactly the strides carrying its id, in input order. */
  lemma {:induction false} GroupMembers(strides: seq<PerStrideParameter>, wbId: int)
    ensures GroupOf(GroupPerStrideParametersByWbId(strides), wbId) == StridesOfWb(strides, wbId)
    decreases |strides|
  {
    if strides != [] {
      GroupMembers(strides[..|strides| - 1], wbId);
    }
  }

  /** `order` lists the ids in the order they first occur in the input. */
  lemma {:induction false} GroupOrder(strides: seq<PerStrideParameter>)
    ensures var g := GroupPerStrideParametersByWbId(strides);
      forall i, j :: 0 <= i < j < |g.order| ==>
        g.order[i] in WbIdsOf(strides) && g.order[j] in WbIdsOf(strides) &&
        FirstIndexOfWb(strides, g.order[i]) < FirstIndexOfWb(strides, g.order[j])
    decreases |strides|
  {
    if strides != [] {
      var prefix := strides[..|strides| - 1];
      var last := strides[|strides| - 1];
      var p := GroupPerStrideParametersByWbId(prefix);
      var g := GroupPerStrideParametersByWbId(strides);
      GroupOrder(prefix);
      GroupKeys(prefix);
      WbIdsOfSnoc(strides);
      assert forall k :: 0 <= k < |p.order| ==>
          p.order[k] in WbIdsOf(prefix) && FirstIndexOfWb(strides, p.order[k]) == FirstIndexOfWb(prefix, p.order[k]) < |prefix| by {
        forall k | 0 <= k < |p.order|
          ensures p.order[k] in WbIdsOf(prefix) && FirstIndexOfWb(strides, p.order[k]) == FirstIndexOfWb(prefix, p.order[k]) < |prefix|
        {
          assert p.order[k] in p.order;
        }
      }
      if last.wbId in p.groups {
        assert g.order == p.order;
      } else {
        assert g.order == p.order + [last.wbId];
        assert FirstIndexOfWb(strides, last.wbId) == |prefix|;
        forall i, j | 0 <= i < j < |g.order|
          ensures g.order[i] in WbIdsOf(strides) && g.order[j] in WbIdsOf(strides) &&
                  FirstIndexOfWb(strides, g.order[i]) < FirstIndexOfWb(strides, g.order[j])
        {
          if j == |p.order| {
            assert g.order[j] == last.wbId;
          } else {
            assert g.order[i] == p.order[i] && g.order[j] == p.order[j];
          }
        }
      }
    }
  }

  /**
   * The grouping maps each walking-bout id of the input, and no other, to
   * exactly the strides carrying it, in input order; its keys are listed
   * once each, in the order the ids first occur.
   */
  lemma GroupPerStrideParametersByWbIdCorrect(strides: seq<PerStrideParameter>)
    ensures var g := GroupPerStrideParametersByWbId(strides);
      && g.groups.Keys == WbIdsOf(strides)
      && (forall wbId :: GroupOf(g, wbId) == StridesOfWb(strides, wbId))
      && (forall wbId :: wbId in g.order <==> wbId in g.groups)
      && NoDup(g.order)
      && (forall i, j :: 0 <= i < j < |g.order| ==>
            FirstIndexOfWb(strides, g.order[i]) < FirstIndexOfWb(strides, g.order[j]))
  {
    GroupKeys(strides);
    GroupOrder(strides);
    forall wbId ensures GroupOf(GroupPerStrideParametersByWbId(strides), wbId) == StridesOfWb(strides, wbId) {
      GroupMembers(strides, wbId);
    }
  }

  /** The total size of the groups listed in `order`. */
  function SumOfGroupSizes(order: seq<int>, groups: map<int, seq<PerStrideParameter>>): nat
    decreases |order|
  {
    if order == [] then 0
    else
      var last := order[|order| - 1];
      SumOfGroupSizes(order[..|order| - 1], groups) + (if last in groups then |groups[last]| else 0)
  }

  lemma {:induction false} SumOfGroupSizesUpdateOutside(order: seq<int>, groups: map<int, seq<PerStrideParameter>>, wbId: int, v: seq<PerStrideParameter>)
    requires wbId !in order
    ensures SumOfGroupSizes(order, groups[wbId := v]) == SumOfGroupSizes(order, groups)
    decreases |order|
  {
    if order != [] {
      SumOfGroupSizesUpdateOutside(order[..|order| - 1], groups, wbId, v);
    }
  }

  lemma {:induction false} SumOfGroupSizesUpdateInside(order: seq<int>, groups: map<int, seq<PerStrideParameter>>, wbId: int, v: seq<PerStrideParameter>)
    requires wbId in order && wbId in groups && NoDup(order)
    ensures SumOfGroupSizes(order, groups[wbId := v]) == SumOfGroupSizes(order, groups) - |groups[wbId]| + |v|
    decreases |order|
  {
    var prefix := order[..|order| - 1];
    assert NoDup(prefix);
    if order[|order| - 1] == wbId {
      assert wbId !in prefix;
      SumOfGroupSizesUpdateOutside(prefix, groups, wbId, v);
    } else {
      assert wbId in prefix;
      SumOfGroupSizesUpdateInside(prefix, groups, wbId, v);
    }
  }

  /** The groups partition the input: their sizes add up to its length. */
  lemma {:induction false} GroupSizesSumToLength(strides: seq<PerStrideParameter>)
    ensures var g := GroupPerStrideParametersByWbId(strides);
      SumOfGroupSizes(g.order, g.groups) == |strides|
    decreases |strides|
  {
    if strides != [] {
      var prefix := strides[..|strides| - 1];
      var last := strides[|strides| - 1];
      var p := GroupPerStrideParametersByWbId(prefix);
      GroupSizesSumToLength(prefix);
      GroupKeys(prefix);
      if last.wbId in p.groups {
        SumOfGroupSizesUpdateInside(p.order, p.groups, last.wbId, p.groups[last.wbId] + [last]);
      } else {
        SumOfGroupSizesUpdateOutside(p.order, p.groups, last.wbId, [last]);
        assert (p.order + [last.wbId])[..|p.order|] == p.order;
      }
    }
  }

  // ---------------------------------------------------------------------
  // Splitting strides into left and right
  // ---------------------------------------------------------------------

  /**
   * `splitPerStrideParametersIntoLAndRIndicesArray(strides)`: the positions
   * of the "left" strides and the positions of all others.
   */
  function SplitPerStrideParametersIntoLAndRIndicesArray(strides: seq<PerStrideParameter>): (seq<int>, seq<int>)
    decreases |strides|
  {
    if strides == [] then ([], [])
    else
      var (left, right) := SplitPerStrideParametersIntoLAndRIndicesArray(strides[..|strides| - 1]);
      var i := |strides| - 1;
      if strides[i].lrLabel == "left" then (left + [i], right) else (left, right + [i])
  }

  /** The first index list holds exactly the "left" positions, in ascending order. */
  lemma {:induction false} SplitLeft(strides: seq<PerStrideParameter>)
    ensures var left := SplitPerStrideParametersIntoLAndRIndicesArray(strides).0;
      && StrictlyIncreasing(left)
      && (forall i :: i in left <==> 0 <= i < |strides| && strides[i].lrLabel == "left")
    decreases |strides|
  {
    if strides != [] {
      var prefix := strides[..|strides| - 1];
      SplitLeft(prefix);
      var left := SplitPerStrideParametersIntoLAndRIndicesArray(prefix).0;
      assert forall i :: 0 <= i < |prefix| ==> prefix[i] == strides[i];
      assert forall k :: 0 <= k < |left| ==> left[k] in left;
    }
  }

  /** The second index list holds exactly the other positions, in ascending order. */
  lemma {:induction false} SplitRight(strides: seq<PerStrideParameter>)
    ensures var right := SplitPerStrideParametersIntoLAndRIndicesArray(strides).1;
      && StrictlyIncreasing(right)
      && (forall i :: i in right <==> 0 <= i < |strides| && strides[i].lrLabel != "left")
    decreases |strides|
  {
    if strides != [] {
      var prefix := strides[..|strides| - 1];
      SplitRight(prefix);
      var right := SplitPerStrideParametersIntoLAndRIndicesArray(prefix).1;
      assert forall i :: 0 <= i < |prefix| ==> prefix[i] == strides[i];
      assert forall k :: 0 <= k < |right| ==> right[k] in right;
    }
  }

  lemma {:induction false} SplitSizes(strides: seq<PerStrideParameter>)
    ensures var (left, right) := SplitPerStrideParametersIntoLAndRIndicesArray(strides);
      |left| + |right| == |strides|
    decreases |strides|
  {
    if strides != [] {
      SplitSizes(strides[..|strides| - 1]);
    }
  }

  /**
   * Both index lists ascend; the first holds exactly the positions whose
   * label is "left", the second exactly the other positions, so together
   * they partition `0 .. |strides| - 1`.
   */
  lemma SplitPerStrideParametersIntoLAndRIndicesArrayCorrect(strides: seq<PerStrideParameter>)
    ensures var (left, right) := SplitPerStrideParametersIntoLAndRIndicesArray(strides);
      && StrictlyIncreasing(left) && StrictlyIncreasing(right)
      && (forall i :: i in left <==> 0 <= i < |strides| && strides[i].lrLabel == "left")
      && (forall i :: i in right <==> 0 <= i < |strides| && strides[i].lrLabel != "left")
      && |left| + |right| == |strides|
  {
    SplitLeft(strides);
    SplitRight(strides);
    SplitSizes(strides);
  }

  // ---------------------------------------------------------------------
  // (key, value) tuples for a histogram
  // ---------------------------------------------------------------------

  /** A histogram datum: its series key and the plotted value. */
  type KeyVal = (string, FieldValue)

  const SplitErrorMessage: string := "Can only split left and right strides if only 1 wbId"

  /** `strides.map(s => [key, s[focusParam]])`. */
  function TuplesOfGroup(key: string, strides: seq<PerStrideParameter>, focusParam: PerStrideField): seq<KeyVal> {
    if strides == [] then []
    else [(key, StrideValue(strides[0], focusParam))] + TuplesOfGroup(key, strides[1..], focusParam)
  }

  /** `strides.map(s => [s.lr_label, s[focusParam]])`. */
  function LrTuples(strides: seq<PerStrideParameter>, focusParam: PerStrideField): seq<KeyVal> {
    if strides == [] then []
    else [(strides[0].lrLabel, StrideValue(strides[0], focusParam))] + LrTuples(strides[1..], focusParam)
  }

  /** For each id in turn, one tuple `(String(id), value)` per stride of its group. */
  function WbTuples(wbIds: seq<int>, focusParam: PerStrideField, g: StrideGroups): seq<KeyVal> {
    if wbIds == [] then []
    else TuplesOfGroup(NumberToString(wbIds[0]), GroupOf(g, wbIds[0]), focusParam) + WbTuples(wbIds[1..], focusParam, g)
  }

  /**
   * `createDatasetOfKeyAndValTuples(currentWbIds, focusParam, grouped, split)`;
   * a thrown error is a `Failure` carrying its message.
   */
  function CreateDatasetOfKeyAndValTuples(currentWbIds: seq<int>, focusParam: PerStrideField, g: StrideGroups, split: bool)
    : Result<seq<KeyVal>, string>
  {
    if split then
      if |currentWbIds| != 1 then Failure(SplitErrorMessage)
      else Success(LrTuples(GroupOf(g, currentWbIds[0]), focusParam))
    else Success(WbTuples(currentWbIds, focusParam, g))
  }

  /** The one error: splitting with other than exactly one walking bout. */
  lemma CreateDatasetOfKeyAndValTuplesFails(currentWbIds: seq<int>, focusParam: PerStrideField, g: StrideGroups, split: bool)
    ensures var r := CreateDatasetOfKeyAndValTuples(currentWbIds, focusParam, g, split);
      (r.Failure? <==> split && |currentWbIds| != 1) && (r.Failure? ==> r.error == SplitErrorMessage)
  {
  }

  lemma {:induction false} TuplesOfGroupAt(key: string, strides: seq<PerStrideParameter>, focusParam: PerStrideField)
    ensures var r := TuplesOfGroup(key, strides, focusParam);
      |r| == |strides| && forall i :: 0 <= i < |r| ==> r[i] == (key, StrideValue(strides[i], focusParam))
  {
    if strides != [] {
      TuplesOfGroupAt(key, strides[1..], focusParam);
    }
  }

  lemma {:induction false} LrTuplesAt(strides: seq<PerStrideParameter>, focusParam: PerStrideField)
    ensures var r := LrTuples(strides, focusParam);
      |r| == |strides| && forall i :: 0 <= i < |r| ==> r[i] == (strides[i].lrLabel, StrideValue(strides[i], focusParam))
  {
    if strides != [] {
      LrTuplesAt(strides[1..], focusParam);
    }
  }

  /**
   * Splitting with one walking bout gives one `(lr_label, value)` tuple per
   * stride of its group, in stored order.
   */
  lemma CreateDatasetOfKeyAndValTuplesSplit(wbId: int, focusParam: PerStrideField, g: StrideGroups)
    ensures var r := CreateDatasetOfKeyAndValTuples([wbId], focusParam, g, true);
      && r.Success? && |r.value| == |GroupOf(g, wbId)|
      && forall i :: 0 <= i < |r.value| ==>
           r.value[i] == (GroupOf(g, wbId)[i].lrLabel, StrideValue(GroupOf(g, wbId)[i], focusParam))
  {
    LrTuplesAt(GroupOf(g, wbId), focusParam);
  }

  /** Without splitting, the tuples of a list of ids are those of its parts, concatenated. */
  lemma {:induction false} WbTuplesAppend(a: seq<int>, b: seq<int>, focusParam: PerStrideField, g: StrideGroups)
    ensures WbTuples(a + b, focusParam, g) == WbTuples(a, focusParam, g) + WbTuples(b, focusParam, g)
  {
    if a != [] {
      assert (a + b)[1..] == a[1..] + b;
      WbTuplesAppend(a[1..], b, focusParam, g);
    } else {
      assert a + b == b;
    }
  }

  /** The tuples whose key is `key`, in order. */
  function TuplesWithKey(tuples: seq<KeyVal>, key: string): seq<KeyVal> {
    if tuples == [] then []
    else (if tuples[0].0 == key then [tuples[0]] else []) + TuplesWithKey(tuples[1..], key)
  }

  lemma {:induction false} TuplesWithKeyAppend(a: seq<KeyVal>, b: seq<KeyVal>, key: string)
    ensures TuplesWithKey(a + b, key) == TuplesWithKey(a, key) + TuplesWithKey(b, key)
  {
    if a != [] {
      assert (a + b)[1..] == a[1..] + b;
      TuplesWithKeyAppend(a[1..], b, key);
    } else {
      assert a + b == b;
    }
  }

  lemma {:induction false} TuplesWithKeyOfGroup(groupKey: string, strides: seq<PerStrideParameter>, focusParam: PerStrideField, key: string)
    ensures TuplesWithKey(TuplesOfGroup(groupKey, strides, focusParam), key)
         == if groupKey == key then TuplesOfGroup(groupKey, strides, focusParam) else []
  {
    if strides != [] {
      TuplesWithKeyOfGroup(groupKey, strides[1..], focusParam, key);
    }
  }

  /**
   * Without splitting, and with no walking bout chosen twice, the tuples
   * keyed `String(wbId)` are one per stride of that bout's group, in stored
   * order, when `wbId` is chosen, and there are none otherwise.
   */
  lemma {:induction false} CreateDatasetOfKeyAndValTuplesByWb(currentWbIds: seq<int>, focusParam: PerStrideField, g: StrideGroups, wbId: int)
    requires NoDup(currentWbIds)
    ensures var r := CreateDatasetOfKeyAndValTuples(currentWbIds, focusParam, g, false);
      && r.Success?
      && TuplesWithKey(r.value, NumberToString(wbId))
         == if wbId in currentWbIds then TuplesOfGroup(NumberToString(wbId), GroupOf(g, wbId), focusParam) else []
  {
    if currentWbIds != [] {
      var first := currentWbIds[0];
      var rest := currentWbIds[1..];
      assert NoDup(rest);
      CreateDatasetOfKeyAndValTuplesByWb(rest, focusParam, g, wbId);
      TuplesWithKeyAppend(TuplesOfGroup(NumberToString(first), GroupOf(g, first), focusParam), WbTuples(rest, focusParam, g), NumberToString(wbId));
      TuplesWithKeyOfGroup(NumberToString(first), GroupOf(g, first), focusParam, NumberToString(wbId));
      NumberToStringInjective(first, wbId);
      if first == wbId {
        assert wbId !in rest;
      }
    }
  }

  /** Without splitting there is one tuple per stride of the chosen groups. */
  lemma {:induction false} WbTuplesLength(currentWbIds: seq<int>, focusParam: PerStrideField, g: StrideGroups)
    ensures |WbTuples(currentWbIds, focusParam, g)| == SumOfGroupSizes(currentWbIds, g.groups)
    decreases |currentWbIds|
  {
    if currentWbIds != [] {
      var n := |currentWbIds|;
      var init := currentWbIds[..n - 1];
      var last := currentWbIds[n - 1];
      assert currentWbIds == init + [last];
      WbTuplesAppend(init, [last], focusParam, g);
      WbTuplesLength(init, focusParam, g);
      TuplesOfGroupAt(NumberToString(last), GroupOf(g, last), focusParam);
    }
  }
}
