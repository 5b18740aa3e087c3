# Benchmark sweep matrix generator

A Dafny model of `utils/matrix-logic/get_test_sweep_configs.py`. This script
turns a compact benchmark preset into a flat, ordered list of run records.

It works in five steps:

1. It merges several configuration documents into one mapping. A document
   that repeats a key already merged stops the run.
2. It resolves the requested key. A missing key is reported with every
   available key in sorted order.
3. It checks the preset's required fields.
4. It optionally restricts the sequence-length scenarios to the names given
   with `--seq-lens`. These names are the aliases `1k1k`, `1k8k` and `8k1k`.
5. For every selected sequence-length config, every `bmk-space` entry and
   every concurrency value, it emits one record. The concurrency values run
   geometrically from `conc-start` to `conc-end`, multiplying by the step
   size and clamping an overshoot to `conc-end`.

Any error stops the program before it prints anything.

Modules, in dependency order:

- `Wrappers`: `Option` and `Result`.
- `StringOrder`: Python's order on `str`, and `SortedKeys`, which is
  `sorted()` of a set of keys.
- `Config`: the parsed documents, presets, `seq-len-configs` and
  `bmk-space` entries, and the errors. A missing or null YAML field is
  `None`.
- `Merge`: the merge loop.
- `Validate`: key lookup and field validation.
- `SeqLenFilter`: the alias table and the filter.
- `Concurrency`: the concurrency sweep.
- `Records`: the run record and the object it becomes.
- `Sweep`: the nested expansion and the whole program, `Generate`.

The program's inputs become parameters of `Generate`:

- the already parsed documents;
- the key;
- the list of `--seq-lens` names;
- the step size.

Its output is the sequence of records, or the first error met.

## Model

| member | source | states |
|---|---|---|
| StringOrder.SortedKeys | utils/matrix-logic/get_test_sweep_configs.py:60 | the key listing is strictly ascending in Python string order and holds exactly the keys of the set |
| StringOrder.AscendingListingIsSorted | utils/matrix-logic/get_test_sweep_configs.py:60 | any strictly ascending listing of a set is the sorted listing, so the sorted order of keys is unique |
| StringOrder.BelowTransitive | utils/matrix-logic/get_test_sweep_configs.py:60 | the string order that `sorted` uses is transitive |
| StringOrder.BelowTotal | utils/matrix-logic/get_test_sweep_configs.py:60 | any two strings are comparable |
| StringOrder.BelowAntisymmetric | utils/matrix-logic/get_test_sweep_configs.py:60 | two strings each below the other are equal |
| Merge.MergeConfigs | utils/matrix-logic/get_test_sweep_configs.py:49-63 | the merge succeeds exactly when every document is a mapping sharing no key with those before it; then its keys are the union and each value is the defining document's; otherwise the error is for the first offending document and names its repeated keys sorted |
| Merge.MergeSnoc | utils/matrix-logic/get_test_sweep_configs.py:50-63 | the merge is a left fold: merging one more document merges the earlier ones first, then checks and adds the new one |
| Merge.UnionMember | utils/matrix-logic/get_test_sweep_configs.py:57-63 | a key is merged exactly when some document defines it |
| Merge.MergedFrom | utils/matrix-logic/get_test_sweep_configs.py:63 | a merged value is the value of some document that defines the key |
| Merge.DisjointMergeCommutes | utils/matrix-logic/get_test_sweep_configs.py:57-63 | two documents with disjoint keys merge cleanly, to the same mapping in either order |
| Merge.SharedKeyRejected | utils/matrix-logic/get_test_sweep_configs.py:57-61 | two documents defining the same key fail with a duplicate-keys error naming the second file and listing that key |
| Validate.Lookup | utils/matrix-logic/get_test_sweep_configs.py:68-75 | lookup succeeds exactly when the key is present and returns its value; otherwise the error lists every available key exactly once, in ascending order |
| Validate.MissingKeyListsSorted | utils/matrix-logic/get_test_sweep_configs.py:68-73 | against keys `a` and `b` the missing-key error lists `["a", "b"]` |
| Validate.ValidatePreset | utils/matrix-logic/get_test_sweep_configs.py:78-88 | a preset is accepted exactly when `seq-len-configs` is non-empty and all five scalar fields are present; a missing or empty list is reported first, and any missing scalar field gives one combined error |
| SeqLenFilter.BuildFilter | utils/matrix-logic/get_test_sweep_configs.py:44-46 | no names give no filter; otherwise the filter is a non-empty set of table pairs holding exactly the given names' pairs |
| SeqLenFilter.FilterSelects | utils/matrix-logic/get_test_sweep_configs.py:101-102 | a config is kept exactly when no names were given or some given name stands for its (isl, osl) pair |
| SeqLenFilter.OneKOneKFilter | utils/matrix-logic/get_test_sweep_configs.py:6-10 | `--seq-lens 1k1k` keeps (1024, 1024) and drops (1024, 8192) |
| Concurrency.NextGrows | utils/matrix-logic/get_test_sweep_configs.py:143-145 | one step from inside a terminating range moves strictly up and never past `conc-end`, which is the loop's termination measure |
| Concurrency.ConcSweep | utils/matrix-logic/get_test_sweep_configs.py:118-145 | the sweep is empty exactly when `conc-start > conc-end`; otherwise it starts at `conc-start` and ends at exactly `conc-end` |
| Concurrency.SweepShape | utils/matrix-logic/get_test_sweep_configs.py:118-145 | every value lies in `[conc-start, conc-end]`, the values strictly increase, and only the last one equals `conc-end` |
| Concurrency.SweepSteps | utils/matrix-logic/get_test_sweep_configs.py:141-145 | each value after the first is its predecessor times the step, or `conc-end` when that product overshoots |
| Concurrency.SweepClosedForm | utils/matrix-logic/get_test_sweep_configs.py:118-145 | the i-th value is `conc-start * step^i` clamped to `conc-end`, and the sweep stops at the first power that reaches `conc-end` |
| Concurrency.ClosedFormUnique | utils/matrix-logic/get_test_sweep_configs.py:118-145 | the closed form determines the sweep: any sequence meeting it is the sweep |
| Concurrency.SingleValueRange | utils/matrix-logic/get_test_sweep_configs.py:118-142 | a range whose start equals its end yields exactly that one value |
| Concurrency.SweepLoop | utils/matrix-logic/get_test_sweep_configs.py:118-145 | the `while` loop with its early `break` and clamp emits exactly the sweep |
| Concurrency.WorkedExamples | utils/matrix-logic/get_test_sweep_configs.py:118-145 | (2, 16, 2) gives 2, 4, 8, 16; (3, 10, 2) gives 3, 6, 10; (5, 5, 2) gives 5; (6, 5, 2) gives nothing |
| Records.ToObject | utils/matrix-logic/get_test_sweep_configs.py:120-137 | the object has the ten fixed keys, plus `ep` and `dp-attn` exactly when present and holding the record's values; `max-model-len` is the record's |
| Records.ObjectRoundTrip | utils/matrix-logic/get_test_sweep_configs.py:120-137 | reading a record back from its object gives the record, so an absent optional field is told apart from a present one by the key alone |
| Sweep.ExpandBmk | utils/matrix-logic/get_test_sweep_configs.py:107-145 | an entry expands exactly when `tp`, `conc-start` and `conc-end` are present; then there is one record per sweep value, in sweep order, each copying the preset header, the lengths, `tp`, `ep` and `dp-attn`, with `max-model-len == isl + osl` |
| Sweep.ExpandBmks | utils/matrix-logic/get_test_sweep_configs.py:107-116 | a `bmk-space` list expands exactly when every entry has its fields; each record copies the header and comes from one of the entries |
| Sweep.ExpandSeqConfig | utils/matrix-logic/get_test_sweep_configs.py:93-116 | `isl`/`osl` are checked on every config, even one the filter skips, and a missing one gives the `isl`/`osl` error; a skipped config yields nothing; on a kept config an absent or empty `bmk-space` gives the `bmk-space` error, and a non-empty list with an entry lacking a field gives the entry-field error |
| Sweep.ExpandSeqConfigs | utils/matrix-logic/get_test_sweep_configs.py:93-116 | the configs expand exactly when each one passes its checks; each record comes from a selected config and one of its entries |
| Sweep.DegenerateRanges | utils/matrix-logic/get_test_sweep_configs.py:118-142 | `conc-start == conc-end` yields exactly one record at that value; `conc-start > conc-end` yields none |
| Sweep.OptionalKeysFollowEntry | utils/matrix-logic/get_test_sweep_configs.py:111-137 | a record's object has an `ep` key exactly when the entry's `ep` is non-null, and likewise for `dp-attn`, with the entry's value |
| Sweep.ExpandBmksAppend | utils/matrix-logic/get_test_sweep_configs.py:107-139 | expanding a split entry list is expanding the first part, then the second; the first error wins |
| Sweep.ExpandSeqConfigsAppend | utils/matrix-logic/get_test_sweep_configs.py:93-139 | the output is in seq-config order: a split config list expands to the first part's records followed by the second's; the first error wins |
| Sweep.ExpandBmksComplete | utils/matrix-logic/get_test_sweep_configs.py:107-139 | every sweep value of every entry yields its record |
| Sweep.ExpandSeqConfigsFirstError | utils/matrix-logic/get_test_sweep_configs.py:93-116 | a failed expansion reports exactly the error of the first config that fails a check |
| Sweep.ExpandSeqConfigsComplete | utils/matrix-logic/get_test_sweep_configs.py:93-139 | when every config passes its checks the expansion succeeds, and every sweep value of every entry of every config the filter keeps yields its record, so the filter is the only thing that drops runs |
| Sweep.MergedTerminates | utils/matrix-logic/get_test_sweep_configs.py:63-75 | the merged preset's loops terminate when they do in the document that defines it |
| Sweep.Generate | utils/matrix-logic/get_test_sweep_configs.py:43-148 | any merge error is the first offending document's; after a clean merge, a missing key reports the sorted key list and an invalid preset reports its validation error; once the preset validates, the result is exactly the expansion of its configs, so success, the expansion error, the record order and completeness are those of `ExpandSeqConfigs`; on success every record copies the header of the preset that defines the key and comes from one of its configs and entries |
| Sweep.GeneratedRecords | utils/matrix-logic/get_test_sweep_configs.py:101-130 | every record has `max-model-len == isl + osl`, and when names are given its (isl, osl) pair is one of theirs |

## Left out

- Command-line parsing is not modelled; its results are parameters of
  `Generate`. The `choices` restriction on `--seq-lens` is kept as the
  `SeqLenName` type. `nargs='+'` means at least one name, so an empty
  name list stands for "option not given".
- Opening files is not modelled, nor is the `FileNotFoundError` path,
  because it is I/O.
- YAML parsing is not modelled, because it is a foreign library. Documents
  arrive already parsed. A document whose top level is not a mapping has
  no body (`NotAMapping`); this includes an empty file, which loads as
  null.
- JSON serialisation and printing are not modelled, because they are I/O.
  The record's object is modelled as a map, so the key order of the JSON
  text is not modelled.
- Dynamic typing and truthiness are not modelled. `isl`, `osl`,
  `conc-start` and `conc-end` are integers. The copied fields are opaque
  scalars. A preset or entry that is not a mapping is not representable.
  A present but falsy scalar is treated as present, as `None not in (...)`
  does.
- The text of error messages is not modelled. Errors are a datatype
  carrying what each message names: the file, the key, and the sorted key
  lists.
- Six of the script's checks are Python `assert` statements: the mapping
  check (line 54), `seq-len-configs` (line 79), the five scalar fields
  (line 87), `isl`/`osl` (line 97), `bmk-space` (line 105) and the entry
  fields (line 114). The model assumes they are enabled; `python -O` would
  skip them. The duplicate-key and missing-key checks raise `ValueError`
  and run in either case.
- Concurrency.ConcSweep: requires `Terminates`, that is
  `conc-start >= conc-end`, or `conc-start >= 1` and step `>= 2`. For a
  step of 1 or more this is exactly when the source loop stops: a step of
  1, a start of 0, or a negative start below `conc-end` loops forever, and
  divergence is not modelled. A step of 0 or less is excluded outright,
  although some such ranges do stop in the source. Step -2 from 1 to 5
  emits 1, -2, 4, -8, 5, where 16 is clamped to 5. Step 0 from -3 to 0
  emits -3, 0. These sign-alternating and zeroing sweeps are not modelled.
- Concurrency.SweepLoop: requires `Terminates` for the same reason.
- Sweep.Generate: requires `KeyTerminates`. This is `Terminates` for
  every entry of every config the filter keeps, in the document that
  defines the key. It also covers entries that an earlier error would stop
  before their loop starts, so it asks slightly more than the source
  needs.
