# pyaerocom-plotting: GCOS compliance fractions and model-data bookkeeping

This project is a Dafny model of the two pieces of pure logic in
pyaerocom-plotting. The rest of that repository is plotting and CLI glue.

- **`gcos_percentages`** (`src/pyaerocom_plotting/stats.py`) takes co-located observation and model values. It reports, for every accuracy tier of the GCOS ECV requirements listed for a variable ("goal", "breakthrough", "threshold"), the fraction of valid pairs that meet the tier. A pair meets a tier when its error relative to the model value, or relative to the observed value, or its absolute error is within the tier's bound.
- **`PyaModelData`** (`src/pyaerocom_plotting/readers.py`) keeps a nested map, model → variable → gridded data. Beside it are two append-only lists of model and variable names. `add_model_data`, the `data` setter and the `models`/`variables` setters change them.

Modelling choices:

- Samples are `real`. A NaN sample is `None` in a `seq<Option<real>>`. The missing-value filter is written as the source writes it: a position is dropped when `obs + model` is NaN (`AddNaN`).
- A relative test `absdiff / d <= pct` is `d != 0 && absdiff / d <= pct`. Dividing a non-negative difference by zero gives +inf or NaN in floating point, and neither compares `<=`. The denominator is not made positive, as in the source.
- The criterion table `GCOS_CRITERION_V2` is not part of this model. The table is a parameter, a map from variable name to a map from tier name to `Tier(errPercent, absErr)`.
- Python exceptions become `Err` values:
  - a variable missing from the table (`KeyError`) is `UnknownVariable`;
  - no valid pair while tiers exist (`ZeroDivisionError` at line 61) is `DivisionByZero`;
  - an empty tier map (the failing `assert outdict`) is `NoTiers`.
- The `PyaModelData` state is an immutable record `ModelData(models, variables, data)`. Each operation returns the new state. The three property getters are the record's fields. The stored gridded data is `GriddedData(dataId, varName, cube)`, with the cube of an open type. The `data` setter reads `data_id` and `var_name` from the value.

Three behaviours of the code fix how errors and inputs are modelled:

- With tiers present and no valid pair, the division at `stats.py:61` raises `ZeroDivisionError`; the model returns `DivisionByZero` instead of a value.
- An unknown variable is the `KeyError` of the table lookup at `stats.py:46`; the model returns `UnknownVariable`.
- Both series are layers 0 and 1 of one array (`stats.py:25-26`), so their lengths always agree; `|obs| == |model|` is a precondition.

Files:

- `wrappers.dfy`: `Option` and `Result`.
- `stats.dfy`: module `Stats`.
- `stats_scenarios.dfy`: module `StatsScenarios`, which holds worked inputs under an illustrative three-tier table (its values are examples, not the table the code imports).
- `readers.dfy`: module `Readers`.

## Model

| member | source | states |
|---|---|---|
| Stats.ValidPositions | src/pyaerocom_plotting/stats.py:29-32 | the positions whose sum is not NaN are listed in increasing order, and they are exactly the positions where both samples are present |
| Stats.KeepValid | src/pyaerocom_plotting/stats.py:34-35 | the filtered pairs: the samples at the valid positions, in order (its meaning is stated by KeepValidSelectsValidPositions) |
| Stats.KeepValidSelectsValidPositions | src/pyaerocom_plotting/stats.py:30-35 | the filtered series are `obs[idx_pos]`, `model[idx_pos]`: the k-th kept pair is the pair at the k-th valid position |
| Stats.NothingKeptIffAllMissing | src/pyaerocom_plotting/stats.py:30-35 | the filter keeps nothing exactly when every position has a missing sample |
| Stats.RelativeWithin | src/pyaerocom_plotting/stats.py:41-53 | `absdiff / denom <= pct` under IEEE comparison: a zero denominator (giving +inf or NaN) never passes, and the denominator keeps its sign |
| Stats.Compliant | src/pyaerocom_plotting/stats.py:48-57 | a pair meets a tier when the model-relative, the observation-relative or the absolute test passes |
| Stats.CompliantIndices | src/pyaerocom_plotting/stats.py:58-60 | the de-duplicated concatenation of the three index lists, as a set of indices below the kept count |
| Stats.CompliantIndicesMeaning | src/pyaerocom_plotting/stats.py:48-60 | the de-duplicated concatenation of the three `np.where` index lists holds an index exactly when that pair passes the model-relative, the observation-relative or the absolute test (a union) |
| Stats.CompliantIndicesCount | src/pyaerocom_plotting/stats.py:58-61 | the size of the unique index set equals the number of compliant pairs, each pair counted once |
| Stats.Fraction | src/pyaerocom_plotting/stats.py:58-61 | a tier's fraction, unique compliant indices over kept pairs, lies in [0, 1] |
| Stats.FractionAllOrNothing | src/pyaerocom_plotting/stats.py:58-61 | a tier's fraction is 1 exactly when every kept pair complies, and 0 exactly when none does |
| Stats.GcosPercentages | src/pyaerocom_plotting/stats.py:15-64 | an unknown variable, an empty tier map and "no valid pair" each give their error, and each error occurs only in its case; on success the keys are exactly the variable's tiers and every value lies in [0, 1] |
| Stats.KeptCounts | src/pyaerocom_plotting/stats.py:34-35 | filtering then counting agrees with counting present (and compliant) positions of the original series |
| Stats.GcosFractionIsCompliantShare | src/pyaerocom_plotting/stats.py:29-61 | each reported fraction is the number of original positions with both samples present and the pair compliant, divided by the number with both samples present |
| Stats.KeepValidIgnoresMissing | src/pyaerocom_plotting/stats.py:30-35 | inserting a pair with a NaN on either side, at any position, leaves the filtered pairs unchanged |
| Stats.MissingPairHasNoInfluence | src/pyaerocom_plotting/stats.py:30-61 | inserting a pair with a NaN on either side, at any position, leaves the whole result unchanged |
| Stats.KeepValidOfComplete | src/pyaerocom_plotting/stats.py:30-35 | filtering series that have no missing sample keeps every pair, in order |
| Stats.FilteredInputGivesSameResult | src/pyaerocom_plotting/stats.py:34-61 | running the statistic on the filtered pairs alone gives the same result as running it on the full series |
| Stats.LooserTierKeepsHits | src/pyaerocom_plotting/stats.py:48-60 | raising the relative and/or absolute bound only adds compliant indices |
| Stats.LooserTierNeverLowers | src/pyaerocom_plotting/stats.py:48-61 | raising the relative and/or absolute bound never lowers the fraction |
| Stats.TierOrderGivesOrderedFractions | src/pyaerocom_plotting/stats.py:46-61 | when some position has both samples, the call succeeds, and if one tier's bounds are at most another's, its reported fraction is at most the other's |
| Stats.IdenticalSeriesFullyCompliant | src/pyaerocom_plotting/stats.py:39-61 | identical complete series succeed, and every tier whose absolute bound is not negative reports 1, whatever the other tiers' bounds |
| Stats.ZeroModelValue | src/pyaerocom_plotting/stats.py:41-53 | a zero model value fails the model-relative test; the pair still complies exactly when the observation-relative or the absolute test passes |
| Stats.ZeroObservationValue | src/pyaerocom_plotting/stats.py:42-56 | a zero observation fails the observation-relative test; the pair still complies exactly when the model-relative or the absolute test passes |
| Stats.NegativeDenominatorPasses | src/pyaerocom_plotting/stats.py:41-53 | a negative denominator passes the relative test for any non-negative bound, because the denominator is not made positive |
| StatsScenarios.TwentyPercentError | src/pyaerocom_plotting/stats.py:39-61 | observations [1, 1] against model [1.2, 1] give goal 0.5, breakthrough 0.5, threshold 1 |
| StatsScenarios.MissingObservationIgnored | src/pyaerocom_plotting/stats.py:29-61 | a NaN observation drops its pair; the remaining exact pair gives 1 for every tier |
| StatsScenarios.ZeroObservationsUseAbsoluteBound | src/pyaerocom_plotting/stats.py:39-61 | zero observations against model [0.02, 0.03]: only the absolute bound decides, inclusive of its end point (goal 0.5, breakthrough 1, threshold 1) |
| StatsScenarios.AllMissingDividesByZero | src/pyaerocom_plotting/stats.py:29-61 | with no valid pair the division by the kept count fails |
| StatsScenarios.UnknownVariableRejected | src/pyaerocom_plotting/stats.py:46 | a variable absent from the table is a lookup error |
| Readers.Init | src/pyaerocom_plotting/readers.py:23-29 | a fresh object: empty lists and an empty nested map (stated by InitIsEmpty) |
| Readers.InitIsEmpty | src/pyaerocom_plotting/readers.py:23-29 | a fresh object has empty model and variable lists and an empty data map, so no lookup finds anything |
| Readers.AddModelData | src/pyaerocom_plotting/readers.py:73-78 | each list grows by exactly one name at its end, even if the name is already there; the data is stored under (model, variable); the model's other variables and all other models are untouched |
| Readers.SetData | src/pyaerocom_plotting/readers.py:66-71 | the lists are untouched; the value's model now holds only this value, under its variable name; other models are untouched |
| Readers.SetModels | src/pyaerocom_plotting/readers.py:84-86 | the argument is appended to the model list; nothing else changes |
| Readers.SetVariables | src/pyaerocom_plotting/readers.py:92-94 | the argument is appended to the variable list; nothing else changes |
| Readers.AddModelDataKeepsModelsInStep | src/pyaerocom_plotting/readers.py:73-78 | `add_model_data` preserves both "every listed model is stored" and "every stored model is listed" |
| Readers.SetDataLeavesModelUnlisted | src/pyaerocom_plotting/readers.py:66-71 | the data setter can store a model that the model list does not contain |
| Readers.SetModelsLeavesModelUnstored | src/pyaerocom_plotting/readers.py:84-86 | the models setter can list a model that has no stored data |
| Readers.SetDataAgreesWithAddIffNoSiblings | src/pyaerocom_plotting/readers.py:66-78 | the data setter and `add_model_data` leave the same nested map exactly when the model held no other variable |
| Readers.ListsAreNotAGrid | src/pyaerocom_plotting/readers.py:73-78 | after adding (a, x) and then (b, y), model a and variable y are both listed but nothing is stored under (a, y); the plotting loops that index `data[model][var]` over both lists hit a missing key there |
| Readers.AddModelDataTwiceKeepsLater | src/pyaerocom_plotting/readers.py:73-78 | storing twice under the same names keeps the later value and lists both names twice |

## Left out

- Extraction of the two series from a pyaerocom `ColocatedData` object (stats.py lines 25-27: layer slicing and flattening, and the variable name). That belongs to a library outside this model. The model takes two equal-length series and a variable name instead.
- Floating-point rounding. Samples are reals, so a boundary case such as a relative error of exactly 0.2 may come out differently in binary floating point.
- Infinite samples and negative zero. An infinite sample passes the NaN filter unless its partner is the opposite infinity, whose sum is NaN. A model value of -0.0 with a non-zero difference turns `absdiff / model` into -inf, which passes the relative test; with a zero difference `0 / -0.0` is NaN and fails. Neither case is representable over reals.
- Stats.GcosPercentages: the precondition `|obs| == |model|` stands in for numpy broadcasting and its shape errors. The source always passes two layers of one array, so the lengths agree.
- A tier entry missing its `gcos_err_percent` or `gcos_abs_err` key (a `KeyError` in the source). In the model each tier is a record that has both fields.
- The order of the result keys. A Python dict keeps insertion order; the model returns a map.
- `PyaModelData.read` and the `_model_obj` map it fills. They read model files through pyaerocom and print.
- Aliasing. The getters return the internal list and dict objects, so a caller can mutate the state through them. The model returns values.
- The empty `PyaColocatedData` and `AerovalJsonData` classes, all plotting and pixel-map rendering, the CLI modules (argument parsing, job submission) and the constants module. None of them holds logic of its own.
