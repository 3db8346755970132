# Greedy rank-weighted object selection (Kennard-Stone / Most Descriptive Compound)

This project models the two selectors of `optobj`: `KS` (optobj/ks.py), which works on a
given square distance matrix, and `MDC` (optobj/mdc.py), which works on the matrix its caller
would compute from raw points. Both run the same four steps:

1. **Build the information vector.** Every reference row `i` walks the objects in rank order.
   Rank position `i` adds 1 to object `i`. Every other position adds `1/div` to the object
   sitting there, with `div` running 2, 3, ...
2. **Pick.** Take the first index holding the largest score.
3. **Remove the contribution.** The pick's score is multiplied by 0. Every other score is
   multiplied by `1 - 1/div`, following the pick's rank order.
4. **Stop.** Either after a target count, or (autostop) once more scores are below 1 than
   objects have been picked.

Files:

- `ranking.dfy` (module `Ranking`): rank orders, ks.py's stable sort by (distance, index), and
  the running denominator `Div`.
- `greedy.dfy` (module `Greedy`): the engine both selectors share, stated on values. It covers:
  - the built vector (`InfoSpec`) and its one-credit-at-a-time walk (`Walked`);
  - the decay (`Decayed`) and the first-maximum pick (`FirstMax`);
  - the run of the loop (`Step`, `Iterate`) and the stop rule (`Halts`, `FirstHalt`);
  - the lemmas about all of these.
- `ks.dfy` (module `Ks`): class `KS`, with its rank orders given by the stable sort.
- `mdc.dfy` (module `Mdc`): class `MDC`, with numpy's column-wise `tmp.sort(axis=0)` and
  closed forms for what it computes.

Each class keeps its scores in an `array<real>` and its selection list in a `seq<nat>` field.
Its methods mutate both with the source's loops. Each method is proved against the value-level
functions of `Greedy`.

Quirks of the code, which the model follows as written:

- **Self-credit keys on rank position.** Both files test the rank position `j` against the
  row number `i` (ks.py:115, mdc.py:122). Object `i` gets its 1, and the object that actually
  sits at rank position `i` gets nothing from row `i`. On the symmetric two-object matrix
  `[[0, 1], [1, 0]]`, ks.py scores `[1, 2]` and first picks object 1
  (`Ks.KsSelfCreditExample`), while mdc.py scores `[1.5, 1.5]` and first picks object 0
  (`Mdc.MdcTwoObjectsExample`).
- **mdc.py never ranks by distance.** `tmp.sort(axis=0)` sorts the distance column and the
  index column separately, so the index column stays `0..n-1`. Credit and decay therefore
  follow index order, and the information vector depends on `n` alone
  (`Mdc.MdcInfoClosedForm`, `Mdc.MdcFactorClosedForm`).
- **mdc.py has no cap on its fixed count.** Its loop runs exactly `nobjects` rounds. Asking
  for more than `n` objects repeats an object (`Mdc.MdcFixedCount`), and every round after
  the n-th picks object 0 (`Greedy.IterateExhausted`). ks.py also stops once
  every object is listed.
- **ks.py keeps its selection in two lists.** It initialises `ksids` (ks.py:58).
  `_appendnext` and `select` write `mdcids`, which is never initialised (ks.py:98, 133).
  `getnext` and `kslist` read `ksids` (ks.py:63, 69). The model keeps one list, empty after
  construction.
- **Neither autostop loop is bounded.** Once `n` objects are listed, autostop can never fire
  (`Greedy.NoStopAfterExhaustion`), so a run that has not stopped by then never stops. The
  model gives `select` a `fuel` bound. A fresh run that its own test stops returns fewer than
  `n` objects, all distinct (`Greedy.AutostopDistinct`).

## Model

| member | source | states |
|---|---|---|
| Ranking.IotaOrder | optobj/mdc.py:113-117 | the index column 0..n-1, read as a rank order, is a permutation in which every object sits at its own index |
| Ranking.IndexOfAt | optobj/ks.py:147-148 | in a permutation, the object read at rank position p is found back at position p |
| Ranking.DivIncreasing | optobj/ks.py:113-120 | along the positions that advance it, `div` starts at 2 and grows strictly, so no two credited positions share a denominator |
| Ranking.InsertByDistance | optobj/ks.py:110 | one insertion step of `sorted(tmp, key=distance)`: the index goes in front of the first entry that is not closer; the result is one longer and holds only object indices |
| Ranking.SortByDistance | optobj/ks.py:110 | `sorted(tmp, key=distance)` on the index column, as an insertion sort: as many entries as given, all object indices (permutation in `Ranking.SortPerm`, order in `Ranking.SortRanked`) |
| Ranking.InsertPerm | optobj/ks.py:110 | inserting an index into the sorted list adds exactly that index and loses none |
| Ranking.SortPerm | optobj/ks.py:110 | `sorted(tmp, key=distance)` is a permutation of the indices it is given |
| Ranking.InsertRanked | optobj/ks.py:110 | inserting an index larger than all present, in front of the first entry not closer, keeps the list ordered by (distance, index) |
| Ranking.SortRanked | optobj/ks.py:110 | the sort of ascending indices is ordered by (distance, index), so equal distances keep ascending index order |
| Ranking.SortIotaRanked | optobj/ks.py:107-110 | sorting the index column 0..n-1 of a row gives a permutation of 0..n-1, ascending by distance with ties in index order |
| Ranking.StableOrder | optobj/ks.py:107-110 | the rank order ks.py walks from one reference object (also optobj/ks.py:142-145): a permutation of 0..n-1, ascending by distance with ties in ascending index order |
| Ranking.RankedPositions | optobj/ks.py:145-148 | an object that comes first in (distance, index) order sits at an earlier rank position |
| Greedy.PartialEnds | optobj/ks.py:106-120 | row i starts from the vector rows 0..i-1 left and ends in the vector with row i added |
| Greedy.RowCreditStep | optobj/ks.py:114-120 | walking rank position j of row i credits exactly one object: object i with 1 at j == i, otherwise the object at position j with 1/Div(i, j) |
| Greedy.PartialUpdate | optobj/ks.py:114-120 | one walked position adds its credit to the credited object and changes no other score |
| Greedy.Walk | optobj/ks.py:113-120 | the crediting loop of one row, one credit per rank position in walk order; it keeps the vector length (tied to the closed form by `Greedy.WalkPartial`) |
| Greedy.Walked | optobj/ks.py:106-120 | the row loop from all zeros, each row walked in turn; it keeps the vector length (equal to the closed form by `Greedy.WalkedBuilt`) |
| Greedy.WalkPartial | optobj/ks.py:113-120 | walking positions 0..j-1 of row i one credit at a time gives the closed-form partial vector |
| Greedy.WalkedBuilt | optobj/ks.py:106-120 | walking rows 0..m-1 from all zeros gives, for every object, the sum of its per-row credits |
| Greedy.InfoEntryLowerBound | optobj/ks.py:114-120 | after m rows, object k has at least 1 when k < m and at least 0 otherwise |
| Greedy.InfoAtLeastOne | optobj/ks.py:113-120 | every score of the built information vector is at least 1 |
| Greedy.SumAdd | optobj/ks.py:116-119 | helper of `Greedy.PartialSum`: adding x to one score, as each credit does, adds x to the total |
| Greedy.RowSumStep | optobj/ks.py:113-120 | each walked position adds its credit (1 at j == i, 1/Div(i, j) elsewhere) to the row's share of the total |
| Greedy.RowSumEnds | optobj/ks.py:113-120 | a complete row adds 1 + 1/2 + ... + 1/n to the total, because `div` skips position i |
| Greedy.RowsProduct | optobj/ks.py:106-120 | m complete rows add m(1 + 1/2 + ... + 1/n) |
| Greedy.PartialSum | optobj/ks.py:113-120 | while row i is walked, the total is the earlier rows' total plus the row's running share |
| Greedy.BuiltSum | optobj/ks.py:106-120 | after m rows the total is m(1 + H), H = 1/2 + ... + 1/n |
| Greedy.InfoSpecSum | optobj/ks.py:101-120 | the built vector sums to n(1 + 1/2 + ... + 1/n) (with `Greedy.RowsProduct`) |
| Greedy.Factor | optobj/ks.py:149-153 | the pick's factor is 0; every other factor lies between 1/2 and 1 - 1/n |
| Greedy.FactorAt | optobj/ks.py:147-153 | the object at rank position p gets 0 if it is the pick and 1 - 1/Div(position of pick, p) otherwise |
| Greedy.Factors | optobj/ks.py:146-153 | the `rank` array the factor loop fills, by object index: 0 for the pick, between 1/2 and 1 for every other object |
| Greedy.Scaled | optobj/ks.py:155-156 | the multiply loop: every score times the factor at the same index, length kept |
| Greedy.Decayed | optobj/ks.py:136-156 | `_rm_mdc_contrib` on values: the scores times the pick's factors, with the pick's own score 0 (the rest in `Greedy.DecayBounds`) |
| Greedy.DecayBounds | optobj/ks.py:147-156 | decay zeroes the pick, keeps every non-negative score in [0, old], and keeps every other positive score strictly between 0 and its old value |
| Greedy.DecayAt | optobj/ks.py:155-156 | the same three bounds for one object |
| Greedy.DecayOrderedByRank | optobj/ks.py:146-153 | of two objects other than the pick, the one earlier in the pick's rank order gets the strictly smaller factor |
| Greedy.FirstMax | optobj/ks.py:123-133 | the pick is an index holding the maximum, and every earlier index holds strictly less |
| Greedy.FirstMaxUnique | optobj/ks.py:127-132 | only one index is the first maximum |
| Greedy.BelowOne | optobj/ks.py:88-93 | the `ncheck` count of scores below 1, which is at most n |
| Greedy.BelowOneZero | optobj/ks.py:88-93 | the count of scores below 1 is 0 exactly when every score is at least 1 |
| Greedy.InitialScoresNotBelowOne | optobj/mdc.py:97-105 | before the first pick no score is below 1, so autostop cannot fire on the built vector |
| Greedy.NoStopAfterExhaustion | optobj/ks.py:95-96 | once at least n objects are listed, the autostop test can never succeed |
| Greedy.Step | optobj/ks.py:76-77 | one round keeps the vector length and extends the picks by exactly one |
| Greedy.Iterate | optobj/ks.py:75-77 | after t rounds there are t picks, each an object index |
| Greedy.IterateExtends | optobj/ks.py:75-77 | one more round keeps the picks made so far |
| Greedy.IteratePrefix | optobj/ks.py:75-77 | a longer run starts with the picks of a shorter one |
| Greedy.CountPositiveDrop | optobj/ks.py:149-156 | zeroing one positive score while every other score keeps its sign lowers the number of positive scores by exactly one |
| Greedy.PickFresh | optobj/ks.py:123-133 | while a score is positive, the pick is positive and not yet picked |
| Greedy.AppendFresh | optobj/ks.py:133 | appending an object not yet listed keeps the list free of repeats |
| Greedy.ZeroesTrackPicks | optobj/ks.py:149-150 | after a pick, scores stay non-negative, exactly the listed objects and the new pick have score 0, and every other score keeps its sign |
| Greedy.PickStep | optobj/ks.py:76-77 | a round from positive remaining scores picks a fresh object, zeroes it and keeps the rest positive |
| Greedy.CountAllPositive | optobj/ks.py:75-77 | helper of `Greedy.IterateDistinct`: when every score is positive, as after the build, all n are counted positive |
| Greedy.IterateDistinct | optobj/ks.py:75-77 | from positive scores, the first n picks are distinct, exactly the picked scores are 0, and n - t stay positive |
| Greedy.ZeroStep | optobj/mdc.py:75-88 | from an all-zero vector the pick is object 0 and the vector stays zero |
| Greedy.AllPickedAfterN | optobj/mdc.py:75-88 | after n rounds from positive scores every object has been picked and every score is 0 |
| Greedy.IterateExhausted | optobj/mdc.py:75-88 | every round after the n-th picks object 0 again |
| Greedy.RepeatBeyondExhaustion | optobj/mdc.py:75-88 | more than n rounds from positive scores repeat an object |
| Greedy.Halts | optobj/ks.py:79-96 | the stop branches after a round; an autostop that is not the fuel bound fires only while fewer than n objects are listed |
| Greedy.FirstHalt | optobj/ks.py:74-97 | the round after which the loop exits, never before the round it starts from |
| Greedy.FirstHaltIsFirst | optobj/ks.py:74-97 | `select` returns after the first round whose stop test succeeds: that round stops and no earlier one does |
| Greedy.CappedFixedCount | optobj/ks.py:79-86 | with a target count, ks.py runs exactly min(nobjects, n) rounds |
| Greedy.UncappedFixedCount | optobj/mdc.py:86-95 | with a target count, mdc.py runs exactly nobjects rounds |
| Greedy.AutostopDistinct | optobj/ks.py:87-96 | under autostop, a run from the built scores that its own test stops (not the fuel bound) stops before n rounds, and its picks are distinct |
| Ks.KsOrders | optobj/ks.py:106-110 | every row's rank order is a permutation of 0..n-1 |
| Ks.FixedCountDistinct | optobj/ks.py:72-98 | a fresh selector with a target count picks min(nobjects, n) distinct objects |
| Ks.KS.constructor | optobj/ks.py:50-58 | construction stores the matrix and target, builds the information vector and starts with an empty list |
| Ks.KS.BuildInfoVector | optobj/ks.py:101-120 | the scores become the built information vector of the stable rank orders |
| Ks.WalkRows | optobj/ks.py:106-120 | the row loop leaves the vector with every row walked |
| Ks.WalkRow | optobj/ks.py:113-120 | the crediting loop of one row adds its credits one position at a time |
| Ks.KS.AppendNext | optobj/ks.py:121-133 | appends the first maximum of the scores and leaves the scores unchanged |
| Ks.KS.RmMdcContrib | optobj/ks.py:136-156 | the scores become the decay of the old scores by the last pick |
| Ks.RankFactors | optobj/ks.py:138-153 | the factor array holds, for each object, its factor in the pick's rank order |
| Ks.KS.ApplyRank | optobj/ks.py:155-156 | each score is multiplied by its factor |
| Ks.KS.Round | optobj/ks.py:76-77 | one pass of the loop moves the state to the next round of the run |
| Ks.KS.CountBelowOne | optobj/ks.py:88-93 | counts the scores below 1 |
| Ks.KS.StopTest | optobj/ks.py:79-96 | the stop branches decide exactly the stop rule: every object listed or target reached, or under autostop more scores below 1 than listed objects (or fuel used up) |
| Ks.KS.Rounds | optobj/ks.py:74-97 | the loop leaves the state of the run after the first stopping round |
| Ks.KS.Select | optobj/ks.py:72-98 | returns the list after the first stopping round. From a fresh selector with a target count, that is min(nobjects, n) distinct objects; under autostop, when its own test stops it, fewer than n distinct objects |
| Ks.KS.GetNext | optobj/ks.py:66-69 | appends and returns the first maximum without touching the scores |
| Ks.KS.KsList | optobj/ks.py:61-63 | returns the selection list, every entry an object index |
| Ks.GetNextTwice | optobj/ks.py:66-69 | two `getnext` calls in a row append the same object twice |
| Ks.SymmetricOrders | optobj/ks.py:107-110 | on `[[0, 1], [1, 0]]` row 0 ranks object 0 first and row 1 ranks object 1 first |
| Ks.KsSelfCreditExample | optobj/ks.py:113-133 | on `[[0, 1], [1, 0]]` the self-credit at rank position 1 of row 1 goes to object 1, so the scores are [1, 2] and the first pick is object 1 |
| Ks.KsDecayMonotone | optobj/ks.py:145-153 | of two objects other than the pick, the one first in (distance, index) order from the pick gets the smaller factor |
| Mdc.SortColumn | optobj/mdc.py:117 | sorting one column of `tmp` in place leaves it ascending with the same entries |
| Mdc.SinkLast | optobj/mdc.py:117 | one insertion step extends the sorted prefix by one, keeps the entries and leaves the unsorted rest untouched |
| Mdc.Swap | optobj/mdc.py:117 | helper of `Mdc.SinkLast`, the insertion sort standing in for numpy's sort: exchanging two neighbours keeps the same entries |
| Mdc.IndexColumn | optobj/mdc.py:114-116 | the index column of `tmp`: entry j is j |
| Mdc.SortedIndexColumn | optobj/mdc.py:116-117 | the sorted index column is 0..n-1 again |
| Mdc.ColumnOrders | optobj/mdc.py:113-118 | every row is walked in index order |
| Mdc.ColumnEntryStep | optobj/mdc.py:121-127 | row i adds 1 to object i, 1/(k+1) to objects k above it and 1/(k+2) to objects below it, in closed form |
| Mdc.ColumnRowCredit | optobj/mdc.py:121-127 | in index order, row i credits object k with 1, 1/(k+1) or 1/(k+2) |
| Mdc.ColumnEntryBuilt | optobj/mdc.py:111-127 | after m rows, object k holds its closed-form score |
| Mdc.MdcInfoClosedForm | optobj/mdc.py:109-127 | the built vector is info[k] = 1 + (n-1-k)/(k+2) + k/(k+1), whatever the distances |
| Mdc.MdcFactorClosedForm | optobj/mdc.py:129-147 | removing pick m multiplies object j by 0 at j == m, by 1 - 1/(j+2) for j < m, by 1 - 1/(j+1) for j > m |
| Mdc.MdcTwoObjectsExample | optobj/mdc.py:75-84 | with two objects the scores are [1.5, 1.5] whatever the distances, so the first pick is object 0 |
| Mdc.MdcFixedCount | optobj/mdc.py:72-95 | with a target count, exactly nobjects picks. The first min(nobjects, n) are distinct, and more than n repeat an object |
| Mdc.MDC.constructor | optobj/mdc.py:56-61 | stores target and metric, with no matrix, no scores and no picks |
| Mdc.MDC.Select | optobj/mdc.py:63-107 | resets the list and builds the scores. Returns the picks of the run up to the first stopping round: exactly nobjects with a target count, the first min(nobjects, n) distinct, repeats beyond n; under autostop, when its own test stops it, fewer than n distinct picks |
| Mdc.MDC.Rounds | optobj/mdc.py:72-105 | the loop leaves the state of the run after the first stopping round |
| Mdc.MDC.Round | optobj/mdc.py:75-88 | scan, append and removal move the state to the next round of the run |
| Mdc.MDC.PickFirstMax | optobj/mdc.py:75-84 | the scan from index 0 finds the first maximum |
| Mdc.MDC.StopTest | optobj/mdc.py:90-105 | the stop branches decide exactly the stop rule: nmdc reached the target, or under autostop more scores below 1 than picks (or fuel used up) |
| Mdc.MDC.BuildInfoVector | optobj/mdc.py:109-127 | the scores become the built vector of the index-order rank orders |
| Mdc.MDC.RmMdcContrib | optobj/mdc.py:129-150 | the scores become the decay of the old scores by the last pick, in index order |
| Mdc.ColumnFactors | optobj/mdc.py:131-147 | fills and sorts `tmp` and returns each object's factor |
| Mdc.ScaleBy | optobj/mdc.py:149-150 | each score is multiplied by its factor |
| Mdc.FillColumns | optobj/mdc.py:113-116 | `tmp` holds the row's distances and the indices 0..n-1 |
| Mdc.CreditRow | optobj/mdc.py:119-127 | the crediting loop over the sorted index column adds row i's credits one position at a time |
| Mdc.RankColumn | optobj/mdc.py:140-147 | the factor loop over the sorted index column gives every object its factor |

## Left out

- Computing distances (`pdist`, `squareform`, the metric names, optobj/mdc.py:66) is done by a foreign library in floating point. `Mdc.MDC.Select` takes the square distance matrix instead, and `metric` is only stored.
- Floating-point rounding: distances, `1/div` and products are exact `real`s.
- Ks.KS.Select: ks.py's autostop loop has no bound on its rounds. The model stops it after at most `fuel` rounds, and `fuel` appears in the stop rule it proves.
- Mdc.MDC.Select: mdc.py's autostop loop has no bound on its rounds either. The model bounds it by `fuel` in the same way.
- Ks.KS.Select: ks.py's `select` appends to `mdcids`, which is never initialised, while `getnext`/`kslist` read `ksids`. The model uses one list for all of them and does not model the resulting `AttributeError`.
- Ks.KS.BuildInfoVector: the rank order of every row is computed as a value (`Ks.KsOrders`) and handed to the row loop, instead of re-sorting `tmp` inside the loop; the result is the same order.
- Mdc.MDC.BuildInfoVector: the distance column of `tmp` is sorted like the index column, but its contents are never read, so nothing is proved about it beyond the sort's own contract.
- Ks.KS.RmMdcContrib: the pick's rank order is computed as a value (`Ranking.StableOrder` of the pick's row) instead of filling `tmp` and sorting it in place (optobj/ks.py:142-145); the factor and multiply loops after it are kept as loops.
- The loops of `select`, `_build_infovector` and `_rm_mdc_contrib` are split into helper methods (`Rounds`, `Round`, `StopTest`, `WalkRow`, `RankFactors`, `ColumnFactors`, ...). Each helper keeps the source's loop and its order of updates, except the fill-and-sort of ks.py named in the `Ks.KS.BuildInfoVector` and `Ks.KS.RmMdcContrib` lines above.
- An empty distance matrix: both files read `info_[0]` and fail. The model requires at least one object for selection.
- Input validation and error kinds, which the code does not perform.
- The MATLAB `kenstone`/`fastdist` text after the class in optobj/ks.py (lines 160 on), which is not Python.
- The example scripts and setup.py, and the unused imports.
