# Stratified train/dev/test splitter and class-weight table

This project models the computational core of the staging step of a small
data pipeline (`src/preprocess_to_staging.py`). Each cleaned record carries
an integer class code. The staging step:

1. takes the sorted distinct codes (`np.unique`);
2. partitions the record positions into train, dev and test with
   `split_indices`, visiting classes in ascending code order. A class is
   dispatched on its record count:
   - one record: round-robin over train, dev and test, driven by a counter
     shared by all one-record classes;
   - two records: the lower position goes to train, the higher to test;
   - three records: one each to train, dev and test, in ascending order;
   - four or more: the positions are shuffled, then split into slices of
     `count / 3`, `count / 3` and the rest;
3. builds the class-weight table from the train records' codes. The table is
   absent when train is empty. Otherwise it is keyed by `0 .. max(train
   codes)`, with weight `1 / count` normalised to sum 1, and 0 for a code with
   no train record.

Modules:

- `Split` (`split.dfy`): the splitter as imperative methods. `SplitIndices`
  loops over the classes with three `seq<nat>` accumulators and a counter.
  `AssignClass` is the loop body, `Where` is `np.where`, and `AppendRange` is
  an inner `for j` loop. Each is proved against the specification functions:
  `Positions`, `ClassShare`, and `SplitUpTo`/`Splits`, a fold over the
  classes.
- `SplitProperties` (`split_properties.dfy`): what the splitter guarantees.
  It proves the partition of the record positions, the rule for each class
  size, the round-robin rotation, that later classes only append, and that
  a code with no record changes nothing.
- `Weights` (`weights.dfy`): the class-weight table over exact reals.
- `Staging` (`staging.dfy`): `np.unique`, row selection by position, and the
  composed step `Preprocess`.

The seeded shuffle is a parameter: any function `shuffle` that returns a
permutation of its argument (`IsPermuter`). The source reseeds the generator
with 42 before every shuffle. So, in the source, the permutation is a fixed
function of the class's positions, and every such function is covered.

The source computes the slice length as `int(count * (1/3))` in double
precision. The model uses `count / 3`. The two agree for every count below
2^50: the rounded product stays in `[count / 3, count / 3 + 1)`. When `count`
is a multiple of 3, a product that falls exactly half-way rounds to even,
which gives `count / 3`.

One might expect every code of the labelled data to get a weight, 0 when
absent from train. The code builds keys only up to the largest train code, so
a code above it has no entry rather than weight 0. The model follows the
code. `Staging.DevOnlyCodeHasNoWeight` shows the difference on the codes
`[0, 1]`. The code guards the weights against an empty train split (line
138). `Staging.TrainEmptyIffNoRecords` proves that split is empty only when
there is no record at all. The `len(class_counts.index) > 0` test
(line 143) is always true once the table is built, so its `{}` branch is
dead. The model has only the live branch.

## Model

| member | source | states |
|---|---|---|
| Split.SplitIndices | src/preprocess_to_staging.py:11-60 | the returned train, dev and test lists are exactly `Splits(codes, classes, shuffle)`, the fold over the classes in the given order, for any permuting shuffle |
| Split.AssignClass | src/preprocess_to_staging.py:20-58 | one class: each list grows by exactly that class's share for its record count, and the counter moves by one only for a one-record class |
| Split.Where | src/preprocess_to_staging.py:22 | returns `Positions(codes, c)`, the positions holding `c` in ascending order |
| Split.AppendRange | src/preprocess_to_staging.py:53-58 | the list grows by exactly the elements `lo .. hi-1` of the source, in order |
| Split.PositionsCorrect | src/preprocess_to_staging.py:22 | every listed position holds `c`, every position holding `c` is listed, and the list is strictly ascending |
| Split.ClassSharePermutes | src/preprocess_to_staging.py:25-58 | for every record count, a class's share hands out each of its positions exactly once across the three splits |
| SplitProperties.Partition | src/preprocess_to_staging.py:19-58 | with distinct classes covering every code, train+dev+test is a permutation of `0 .. n-1`: sizes sum to `n`, a number is in some split iff it is below `n`, and the splits are pairwise disjoint |
| SplitProperties.SplitGathers | src/preprocess_to_staging.py:19-58 | after `n` classes, the splits together hold exactly the positions of those classes, as a multiset |
| SplitProperties.GatheredIsRange | src/preprocess_to_staging.py:19-22 | distinct classes that cover every code gather every record position exactly once |
| SplitProperties.LandsUpTo | src/preprocess_to_staging.py:19-58 | a record of class `i` is in a split after `n` classes iff `i < n` and its own class's share put it there |
| SplitProperties.Lands | src/preprocess_to_staging.py:19-58 | in the final splits, a record is in train/dev/test iff its own class's share put it there |
| SplitProperties.ContributionOwn | src/preprocess_to_staging.py:22 | a class's share contains only positions of records of that class |
| SplitProperties.OtherClassMisses | src/preprocess_to_staging.py:22 | with distinct classes, a class's share contains no record of another class |
| SplitProperties.CounterCountsSingles | src/preprocess_to_staging.py:17-36 | the counter after `i` classes equals the number of one-record classes among them |
| SplitProperties.SingletonRotation | src/preprocess_to_staging.py:25-36 | the record of a one-record class with `k` one-record classes before it is in train iff `k % 3 == 0`, dev iff `k % 3 == 1`, test iff `k % 3 == 2` |
| SplitProperties.PairAssignment | src/preprocess_to_staging.py:38-41 | a two-record class puts its lower position in train only and its higher position in test only |
| SplitProperties.TripleAssignment | src/preprocess_to_staging.py:42-46 | a three-record class puts its ascending positions into train, dev and test respectively, each in that split only |
| SplitProperties.ManyShare | src/preprocess_to_staging.py:47-58 | a class of `count >= 4` gives `t = count / 3` to train, `t` to dev and `count - 2t` to test, with `1 <= t <= count - 2t`; the three slices concatenate to the shuffled positions and permute the class |
| SplitProperties.ManyAssignment | src/preprocess_to_staging.py:47-58 | in the final splits, a record of a class of four or more is in train/dev/test iff it is in the first, second or last slice of the shuffled class |
| SplitProperties.AbsentClass | src/preprocess_to_staging.py:47-58 | a listed code with no record contributes nothing and leaves the splits and counter unchanged |
| SplitProperties.AppendOnly | src/preprocess_to_staging.py:19-58 | the splits after `i` classes are prefixes of the splits after any `n >= i` classes |
| SplitProperties.ClassOrder | src/preprocess_to_staging.py:19-60 | each final split starts with what the earlier classes gave, followed directly by the share of class `i` |
| Weights.Count | src/preprocess_to_staging.py:137 | the count of a code is its number of occurrences (its multiplicity in the train codes); it is positive iff the code occurs, and at most the length |
| Weights.MaxCode | src/preprocess_to_staging.py:144 | the largest code occurs in the list and bounds every element |
| Weights.Total | src/preprocess_to_staging.py:141-142 | the normaliser, the sum of `1 / count` over the table's codes, is positive for non-empty train codes |
| Weights.ClassWeights | src/preprocess_to_staging.py:137-146 | no table iff there are no train codes; otherwise the keys are exactly `0 .. max(train codes)` |
| Weights.WeightSign | src/preprocess_to_staging.py:141-144 | a table code with train records has a positive weight; one without has weight 0 |
| Weights.WeightsSumToOne | src/preprocess_to_staging.py:141-142 | the weights over the whole table sum to 1 |
| Weights.WeightTimesCount | src/preprocess_to_staging.py:141-142 | for every code with train records, weight times train count is the same constant `1 / total`: weights are inversely proportional to counts |
| Staging.Unique | src/preprocess_to_staging.py:98 | the result is strictly ascending and holds exactly the codes that occur |
| Staging.Labels | src/preprocess_to_staging.py:104 | the codes of the selected rows, one per position, in the order of the positions |
| Staging.UniquePartition | src/preprocess_to_staging.py:98-101 | splitting by the sorted distinct codes partitions `0 .. n-1`, as in `Partition` |
| Staging.TrainEmptyIffNoRecords | src/preprocess_to_staging.py:137-139 | the train split is empty iff there is no record, so the no-training-data branch is taken only for an empty table |
| Staging.Preprocess | src/preprocess_to_staging.py:97-146 | the splits are those of `Splits` over the sorted distinct codes and permute `0 .. n-1`; the weight table is that of the train rows' codes, and is absent iff there is no record |
| Staging.DevOnlyCodeHasNoWeight | src/preprocess_to_staging.py:143-144 | for the codes `[0, 1]`, code 0 goes to train and code 1 to dev, and the table has key 0 but no key 1 |

## Left out

- Downloading from and uploading to object storage, reading and writing CSV, JSON serialisation, saving the label encoder and the command line (lines 62-95, 108-135, 147-173): these are I/O; the model's input is the encoded code column and its outputs are values.
- Dropping rows with a missing cost (line 80): the model's input is the code column of the rows that remain.
- Label encoding (lines 84-85): a foreign library call; the model starts from the codes it produces, which are natural numbers.
- The seeded random shuffle (lines 49-50): replaced by a permuting function parameter; the Mersenne-Twister sequence is not modelled, so the model does not say which permutation the source picks.
- The in-place shuffle of the `np.where` result: that array is fresh and never aliased, so the model shuffles a value.
- Floating point: the slice length is `count / 3` (exact below 2^50, argued above), and the weights are exact reals, where the source has rounding in `1 / count`, the sum and the division.
- The row data carried by `data.iloc` (lines 104-106): only the `class_encoded` column matters to the weights, so `Labels` keeps just the codes; dev and test rows are not materialised.
- `src/process_to_curated.py` and `app.py` are not part of this model: floating-point feature engineering through libraries, and HTTP endpoints that list storage buckets.
