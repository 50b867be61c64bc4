# mobVis core: stride utilities, walking-bout picker, measurement-condition check

mobVis is a dashboard for clinical gait analysis. It plots pre-computed per-stride and
per-walking-bout gait parameters. This project models three small sequential pieces of it
in Dafny and proves their properties:

1. **The stride and walking-bout utilities** (`@/lib/utils`), as the Jest suite
   `mobvis-app/__tests__/src/lib/utils.ts` and the stride histogram use them:
   - sorting walking bouts or strides by a field;
   - grouping strides by walking bout;
   - splitting stride positions into left and right;
   - building the `(key, value)` tuples a histogram plots.

   The records follow `mobvis-app/src/types/parameters.ts`. Every utility is a function
   over sequences. A JavaScript `Map` remembers key order, so the grouping returns
   its keys in first-seen order (`StrideGroups.order`) next to the groups themselves.
   `String(n)` and `Number(s)` on integral numbers are written out in module
   `JsNumber`. That module proves the decimal round trip, so distinct bouts get distinct
   histogram keys.
2. **The walking-bout picker** (`add-wb-dropdown.tsx`), a class:
   - fields: the plotted ids `currentWbIds` and the choice `selectedWb`;
   - the option filter `OfferedOptions`;
   - the drop-down's `OnValueChange`;
   - the Add button's `Add`.

   The optional `maxHit` callback is the flag `hasMaxHit`; `Add` returns whether it
   was called. The invariant `Valid()` says three things: nothing is plotted twice, the
   choice is not plotted yet, and with `maxHit` the list is within capacity. The
   constructor establishes it for valid props and `Add` preserves it. `OnValueChange`
   preserves it when the chosen id is one of the offered options.
3. **The measurement-condition check** (`scripts/dmo_extraction.py`):
   - `is_valid_measurement_condition` is a function returning `Pass` or
     `Fail(ValueError(...))`;
   - `create_dataset_from_dataframe` and `extract_dmos` are methods;
   - reading the CSV is a function parameter;
   - `extract_dmos` reports the steps it took, so it shows that an invalid condition
     raises before the CSV is read.

Module `StrideHistogram` connects these pieces as
`stride-param-distribution-histogram.tsx` does. It groups the strides, offers the group
keys in the picker, and plots the tuples of the chosen bouts.

The implementation of `@/lib/utils` is not part of this model. The behaviour modelled
is the one its tests and callers pin down, plus these choices:
- Sorting is a stable insertion sort, since JavaScript's `Array.prototype.sort` is
  stable. It is ascending: numbers numerically, and `lr_label` text by character code,
  so "left" sorts before "right".
- A walking-bout id that is missing from the grouped `Map` counts as an empty group.
- The second index list of the left/right split holds every stride not labelled "left".

## Model

| member | source | states |
|---|---|---|
| `Utils.SortWbsByProperty` | mobvis-app/__tests__/src/lib/utils.ts:14-20 | the result is a permutation of the walking bouts, ascending in the chosen field, and bouts with equal values keep their input order |
| `Utils.SortStridesByProperty` | mobvis-app/__tests__/src/lib/utils.ts:35-65 | the result is a permutation of the strides, ascending in the chosen field, and strides with equal values keep their input order |
| `Utils.SortByPermutation` | mobvis-app/__tests__/src/lib/utils.ts:14-20 | the stable sort returns the same multiset of records |
| `Utils.SortBySorted` | mobvis-app/__tests__/src/lib/utils.ts:35-50 | the stable sort's result is ascending by its key |
| `Utils.SortByStable` | mobvis-app/__tests__/src/lib/utils.ts:41-49 | for every key value, the records with that value appear in the result in the same order as in the input |
| `Utils.SortStridesByNumericField` | mobvis-app/__tests__/src/lib/utils.ts:36-50 | sorting by a numeric stride field orders the strides by that number |
| `Utils.SortStridesByLabelLeftFirst` | mobvis-app/__tests__/src/lib/utils.ts:52-65 | after sorting by `lr_label`, every "left" stride comes before every "right" stride |
| `Utils.GroupPerStrideParametersByWbIdCorrect` | mobvis-app/__tests__/src/lib/utils.ts:23-32 | the keys are exactly the input's walking-bout ids, each listed once, in first-occurrence order; `get(id)` is exactly the input's strides carrying `id`, in input order |
| `Utils.GroupKeys` | mobvis-app/__tests__/src/lib/utils.ts:23-32 | the map's keys are exactly the ids that occur, and its key order lists each of them exactly once |
| `Utils.GroupMembers` | mobvis-app/__tests__/src/lib/utils.ts:26-31 | the group read for any id equals the input filtered to that id (empty for an absent id) |
| `Utils.GroupOrder` | mobvis-app/src/components/page-specific/stride_analysis/stride-param-distribution-histogram.tsx:34-37 | the key order (which `Array.from(keys())` yields) ascends by each id's first position in the input |
| `Utils.GroupSizesSumToLength` | mobvis-app/__tests__/src/lib/utils.ts:23-32 | the group sizes add up to the number of strides, so the groups partition the input |
| `Utils.FirstIndexOfWb` | mobvis-app/__tests__/src/lib/utils.ts:23-32 | the position found carries the id and no earlier stride does |
| `Utils.StridesOfWbNonEmpty` | mobvis-app/__tests__/src/lib/utils.ts:23-32 | every id that occurs has a non-empty group |
| `Utils.SplitPerStrideParametersIntoLAndRIndicesArrayCorrect` | mobvis-app/__tests__/src/lib/utils.ts:68-78 | the result is two strictly ascending index lists: left holds exactly the positions labelled "left", right exactly the other positions, and together they cover `0..n-1` |
| `Utils.SplitLeft` | mobvis-app/__tests__/src/lib/utils.ts:73-76 | the left list ascends and contains exactly the positions labelled "left" |
| `Utils.SplitRight` | mobvis-app/__tests__/src/lib/utils.ts:74-77 | the right list ascends and contains exactly the positions not labelled "left" |
| `Utils.SplitSizes` | mobvis-app/__tests__/src/lib/utils.ts:68-78 | the two lists together are as long as the input |
| `Utils.CreateDatasetOfKeyAndValTuplesFails` | mobvis-app/__tests__/src/lib/utils.ts:110-126 | the dataset fails exactly when splitting is asked for with other than one walking bout, with the message "Can only split left and right strides if only 1 wbId" |
| `Utils.CreateDatasetOfKeyAndValTuplesSplit` | mobvis-app/__tests__/src/lib/utils.ts:128-163 | splitting with one bout yields one `(lr_label, value)` tuple per stride of its group, in stored order |
| `Utils.CreateDatasetOfKeyAndValTuplesByWb` | mobvis-app/__tests__/src/lib/utils.ts:82-108 | without splitting, and with no id chosen twice, the tuples keyed `String(id)` are one per stride of that group in stored order when `id` is chosen, and there are none otherwise |
| `Utils.WbTuplesAppend` | mobvis-app/__tests__/src/lib/utils.ts:100-105 | the unsplit tuples follow the order of `currentWbIds`: the tuples for `a + b` are those for `a` followed by those for `b` |
| `Utils.WbTuplesLength` | mobvis-app/__tests__/src/lib/utils.ts:82-108 | the unsplit dataset has one tuple per stride of the chosen groups |
| `Utils.TuplesOfGroupAt` | mobvis-app/__tests__/src/lib/utils.ts:95-105 | a group's tuples are one `(key, stride[focusParam])` per stride, position by position |
| `Utils.LrTuplesAt` | mobvis-app/__tests__/src/lib/utils.ts:142-160 | the split tuples are one `(lr_label, stride[focusParam])` per stride, position by position |
| `JsNumber.NumberStringRoundTrip` | mobvis-app/src/components/page-specific/shared/add-wb-dropdown.tsx:34 | `Number(String(id)) == id`: choosing the item for `id` selects `id` |
| `JsNumber.NumberToStringInjective` | mobvis-app/__tests__/src/lib/utils.ts:100-105 | distinct walking-bout ids give distinct tuple keys |
| `WbDropdown.OfferedOptionsMembers` | mobvis-app/src/components/page-specific/shared/add-wb-dropdown.tsx:49-51 | an id is offered exactly when it is in `allWbIds` and not in `currentWbIds` |
| `WbDropdown.OfferedOptionsAppend` | mobvis-app/src/components/page-specific/shared/add-wb-dropdown.tsx:49-51 | the options keep the order of `allWbIds` (the filter distributes over concatenation) |
| `WbDropdown.OfferedOptionsNoDup` | mobvis-app/src/components/page-specific/shared/add-wb-dropdown.tsx:49-55 | with distinct `allWbIds`, no option is listed twice |
| `WbDropdown.AddWbDropdown.constructor` | mobvis-app/src/components/page-specific/shared/add-wb-dropdown.tsx:21-29 | the picker starts from the given props with no choice, and is valid when the plotted list is |
| `WbDropdown.AddWbDropdown.OnValueChange` | mobvis-app/src/components/page-specific/shared/add-wb-dropdown.tsx:33-35 | the choice becomes `Number(val)`, which is the id whose text `val` is; the plotted list is unchanged; choosing an offered option keeps the picker valid |
| `WbDropdown.AddWbDropdown.Add` | mobvis-app/src/components/page-specific/shared/add-wb-dropdown.tsx:59-71 | with no choice (or disabled) nothing changes; when `maxHit` is supplied and the plotted list is at capacity, `maxHit` is called and nothing changes; otherwise the choice is appended after the unchanged earlier ids and cleared; with `maxHit` the capacity bound is kept; validity (no duplicates) is kept |
| `WbDropdown.CapacityUnenforcedWithoutMaxHit` | mobvis-app/src/components/page-specific/shared/add-wb-dropdown.tsx:64 | without `maxHit` the equality guard is skipped and the plotted list can outgrow `maxWbs` |
| `WbDropdown.CapacityEnforcedWithMaxHit` | mobvis-app/src/components/page-specific/shared/add-wb-dropdown.tsx:64-67 | an example: with `maxHit`, one plotted bout and a capacity of one, Add calls `maxHit` and the list stays at one bout |
| `DmoExtraction.IsValidMeasurementConditionIff` | scripts/dmo_extraction.py:8-10 | the check passes exactly for the names of the two settings, "laboratory" and "free_living" (the form's `setting` type); anything else raises `ValueError` with the fixed message |
| `DmoExtraction.CreateDatasetFromDataframe` | scripts/dmo_extraction.py:18-48 | an invalid condition raises before anything is built; otherwise the one record ("MS","1") holds the data under "LowerBack", the participant (cohort "MS", the given heights) and exactly the validated condition, and every record's condition passes the check |
| `DmoExtraction.ExtractDmos` | scripts/dmo_extraction.py:52-69 | an invalid condition raises with no step taken, so the CSV is not read; otherwise the CSV is read, then the dataset is built from it: the read data, the participant (cohort "MS", the given sensor and body heights), exactly the validated condition, the given sampling rate and the index columns, all under ("MS","1") |
| `StrideHistogram.OfferedBoutsHaveStrides` | mobvis-app/src/components/page-specific/stride_analysis/stride-param-distribution-histogram.tsx:34-51 | every bout the picker offers has at least one stride and is not plotted yet |
| `StrideHistogram.HistogramDataByWb` | mobvis-app/src/components/page-specific/stride_analysis/stride-param-distribution-histogram.tsx:91-96 | the plotted tuples keyed `String(id)` are one per input stride of bout `id`, in input order, when `id` is plotted, and there are none otherwise |
| `StrideHistogram.HistogramDataSplit` | mobvis-app/src/components/page-specific/stride_analysis/stride-param-distribution-histogram.tsx:91-96 | with left/right splitting for one bout, the plotted tuples are `(lr_label, value)` for exactly that bout's input strides, in input order |

## Left out

- React rendering, charts, pages, dialogs, login and the session header: they are UI.
- `getAndParseStorageItem` and localStorage reads: they are I/O.
- `roundToNDpIfNeeded`, `convertHoursToMinutesAndTrunc` and the regression/correlation lines: they are floating-point presentation.
- Histogram binning and `filterOutZeros*`: their implementations are not part of this model. The histogram lemmas take the strides left after the zero filter as given.
- The FastAPI routes: they are network I/O plus pandas and numpy.
- `load_csv`, the `GRAV_MS2` scaling, the mobgap pipeline run and the `print` calls: these are file I/O, float maths and a foreign library. `ExtractDmos` returns the dataset whose single record the pipeline would run on, not the pipeline object.
- `ExtractDmos`: `load_csv` is assumed to return. Its I/O errors are not modelled.
- `AddWbDropdown.OnValueChange`: `Number` applied to text that no item produces (the JavaScript `NaN` case) is not modelled; the drop-down only passes its items' values.
- `AddWbDropdown`: the props `allWbIds`, `maxWbs`, `maxHit` and `disabled` are fixed per object. Their change between renders, and removal of plotted bouts by the selected-bouts list, are not modelled.
- `create_dataset_from_dataframe` declares `sampling_rate_hz = int`, whose default is the type `int` itself. The only caller always passes a rate, so the model takes the rate as a parameter.
- The concrete expected values in the Jest suite refer to sample data that is not part of this model. The lemmas state the general properties those expectations are instances of.
- Default arguments are passed explicitly: the `split` flag of `CreateDatasetOfKeyAndValTuples` (false when omitted), the `convertAccFromGToMs` flag of `ExtractDmos` (False when omitted) and the `disabled` prop of `AddWbDropdown` (false when omitted).
- `NumberToString`: models `String(n)` in plain decimal only. JavaScript writes integers from 1e21 upward in exponent form; walking-bout ids are small counters, far below that bound.
- Whether the JavaScript utilities sort or fill their argument arrays in place is not modelled; every utility is a function that returns a new sequence.
