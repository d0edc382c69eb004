# QC manager filter — a Dafny model

This project models the QC manager filter of UFO (`src/ufo/filters/QCmanager.cc`). The
filter owns no data of its own. It borrows an `nvars x nlocs` integer flag matrix and
works on it in three passes:

- **Construction.** After checking the dimensions of the flag and error matrices, it marks
  a cell `missing` when its flag is the integer missing sentinel, or its observation value
  or observation error is the floating-point missing sentinel. Every other cell keeps its
  flag.
- **`postFilter`.** A cell whose flag is `0` (pass) becomes `Hfailed` when the H(x) vector
  is missing at position `nvars * jobs + jv`. In that vector the location varies slowly and
  the variable fast.
- **`print`.** The destructor calls it. For each variable it:
  - counts the variable's locations into ten buckets, where the GNSSRO codes 76 and 77
    share one bucket;
  - sums every counter over all processes;
  - on rank 0, writes one line per non-empty rejection bucket in a fixed order, then a
    "passed out of" line;
  - asserts that the buckets add up to the reduced location count.

The model has four modules, one file each:

- `qc_flags.dfy` (`QCFlags`): the flag codes, the missing sentinels, the measure type
  (`MissingValue | Value(x)`), the ten reporting categories, and the two per-cell rules.
- `qc_tally.dfy` (`QCTally`): the per-variable counters (`Tally`), the left-to-right scan
  `CountRow`, the sum reduction `Merge`/`AllReduce`, and the conservation law `Conserves`.
  Its lemmas say:
  - what each counter counts;
  - when conservation holds;
  - how the reduction over partitions relates to one scan over all locations.
- `qc_report.dfy` (`QCReport`): the report lines as values, with:
  - `Entry = Rejected(category, count) | Passed(pass, total)`;
  - the print order of the rejection buckets;
  - a reference walk `Rejections`;
  - lemmas that fix the shape of the report.
- `qc_manager.dfy` (`QCFilter`): the class `QCmanager`, with the flag matrix as an
  `array2<int>` field. The constructor and `PostFilter` update it in place with the
  source's nested loops. `LocalTally` and `Print` read it. The row-level specification
  functions `DetectRow`, `MarkRow` and `PrintRun` state what those methods do. The
  lemmas relate the three passes to the counters and the conservation assertion.

The other processes are modelled as the value `Comm(rank, others)`. For each variable,
`others` holds the counters that every other process contributes to the sum reduction.
`PrintCompletesIffKnown` then describes the situation where every process scans its own
rows. It proves that print completes exactly when no process holds a flag outside the
enumerated codes.

Print order and scan order differ:
- the scan in `print` (lines 109-118) tests first-guess before thinning;
- the report (lines 141-142) writes thinning before first-guess.

`PrintOrder` records the report order.

## Model

| member | source | states |
|---|---|---|
| QCFlags.CategoryOf | src/ufo/filters/QCmanager.cc:109-118 | the bucket a flag is counted in: pass exactly for 0, missing exactly for `missing`, Hfailed exactly for `Hfailed`, the GNSSRO bucket exactly for 76 or 77, no bucket for the integer sentinel |
| QCFilter.CheckConstruction | src/ufo/filters/QCmanager.cc:42-48 | no construction assertion fails exactly when both handles are present and both matrices are `nvars x nlocs`; a missing flag handle is the first failure, a missing error handle the second |
| QCFilter.QCmanager.constructor | src/ufo/filters/QCmanager.cc:34-64 | the manager keeps the observed variables, nlocs and the borrowed matrix; every row of the matrix becomes `DetectRow` of its old contents, the observation values and the errors |
| QCFilter.DetectRow | src/ufo/filters/QCmanager.cc:55-61 | a cell ends up `missing` exactly when it was already `missing`, or was the integer sentinel, or its value or error is missing; every other cell keeps its flag, so no flag is ever reset to pass |
| QCFilter.DetectRowIdempotent | src/ufo/filters/QCmanager.cc:57-59 | running the missing-data rule twice with the same inputs gives the same row as once |
| QCFilter.DetectRowTally | src/ufo/filters/QCmanager.cc:55-61 | after the missing-data pass no bucket but `missing` has grown; the row conserves exactly when every cell was a counted code, the integer sentinel, or had a missing value or error |
| QCFilter.RelabelShrinksOtherBuckets | src/ufo/filters/QCmanager.cc:57-58 | relabelling some cells with one code can only shrink the buckets of other categories |
| QCFilter.QCmanager.PostFilter | src/ufo/filters/QCmanager.cc:68-82 | every row of the matrix becomes `MarkRow` of its old contents and of that variable's H(x) values, read at position `nvars * jobs + jv` |
| QCFilter.MarkRow | src/ufo/filters/QCmanager.cc:73-80 | a cell changes exactly when its flag is 0 and its H(x) value is missing, and then it becomes `Hfailed`; a cell whose flag is not 0 is never touched |
| QCFilter.MarkRowIdempotent | src/ufo/filters/QCmanager.cc:76-77 | applying postFilter's rule twice with the same H(x) gives the same row as once |
| QCFilter.MarkRowTally | src/ufo/filters/QCmanager.cc:76-77 | postFilter only moves cells from pass to Hfailed: pass never grows, pass + Hfailed is unchanged, every other bucket and the bucket sum are unchanged |
| QCFilter.HofxIndex | src/ufo/filters/QCmanager.cc:75 | the position `nvars * jobs + jv` lies inside the `nvars * nlocs` vector and determines `jobs` (its quotient by nvars) and `jv` (its remainder) |
| QCFilter.HofxIndexOnto | src/ufo/filters/QCmanager.cc:75 | every position of the H(x) vector is the position of exactly one (location, variable) cell |
| QCFilter.SwappedOrderReadsWrongCell | src/ufo/filters/QCmanager.cc:75 | on a 2-variable, 3-location example, the missing H(x) at position 1 belongs to location 0 of variable 1, while reading with variable slow would assign it to location 1 of variable 0 |
| QCFilter.SwappedOrderMarksWrongCell | src/ufo/filters/QCmanager.cc:75-77 | so postFilter marks location 0 of variable 1 and leaves variable 0 alone, where the swapped ordering would mark location 1 of variable 0 |
| QCFilter.QCmanager.LocalTally | src/ufo/filters/QCmanager.cc:96-119 | the ten counters built by the loop are the left-to-right scan `CountRow` of the variable's row, with iobs = nlocs |
| QCTally.Occurrences | src/ufo/filters/QCmanager.cc:108-119 | the number of locations carrying a code is at most the row length, and zero exactly when no location carries it |
| QCTally.CountRowCounts | src/ufo/filters/QCmanager.cc:108-119 | each counter equals the number of locations carrying its code; the GNSSRO counter is the count of 76 plus the count of 77 |
| QCTally.BucketsBounded | src/ufo/filters/QCmanager.cc:108-119 | each bucket of a scan is at most the number of locations scanned |
| QCTally.BumpBucket | src/ufo/filters/QCmanager.cc:109-118 | one scan step raises exactly the bucket of the code's category by one, and none for a code no bucket counts; iobs is untouched |
| QCTally.BumpSum | src/ufo/filters/QCmanager.cc:109-118 | one scan step raises the bucket sum by one for a counted code and by zero otherwise |
| QCTally.SumCountRow | src/ufo/filters/QCmanager.cc:108-119 | the bucket sum of a scan plus the number of uncounted codes equals the number of locations |
| QCTally.ConservesIffKnown | src/ufo/filters/QCmanager.cc:147 | one process's counters satisfy the assertion exactly when every flag of the row is one of the enumerated codes |
| QCTally.Unknown | src/ufo/filters/QCmanager.cc:108-119 | the number of locations no bucket counts is at most the row length, and zero exactly when every flag is a counted code |
| QCTally.CountRowAppend | src/ufo/filters/QCmanager.cc:108-119 | scanning two stretches of locations and merging the counters equals scanning their concatenation |
| QCTally.CountRowShift | src/ufo/filters/QCmanager.cc:96-119 | a scan that starts from a larger iobs differs only in iobs |
| QCTally.MergeSum | src/ufo/filters/QCmanager.cc:121-131 | merging two processes' counters adds their bucket sums and their location counts |
| QCTally.MergeConservesIff | src/ufo/filters/QCmanager.cc:121-147 | counters whose sum never exceeds their location count conserve after merging exactly when each of them conserves |
| QCTally.PartitionTallies | src/ufo/filters/QCmanager.cc:108-119 | each process's counters are the scan of its own rows |
| QCTally.AllReducePartitions | src/ufo/filters/QCmanager.cc:121-131 | the reduced counters of disjoint partitions equal one scan over all their locations |
| QCTally.AllReduceSnoc | src/ufo/filters/QCmanager.cc:121-131 | adding one more process to the reduction merges its counters in |
| QCTally.AllReduceConserves | src/ufo/filters/QCmanager.cc:121-147 | if every process's counters conserve, so do the reduced counters |
| QCTally.UnknownAppend | src/ufo/filters/QCmanager.cc:108-119 | the number of uncounted codes of a concatenation is the sum over its parts |
| QCTally.ConcatUnknown | src/ufo/filters/QCmanager.cc:121-131 | the concatenated rows of all processes hold no uncounted code exactly when no process's rows do |
| QCTally.GlobalConservesIffKnown | src/ufo/filters/QCmanager.cc:147 | after the reduction, the assertion holds exactly when no process holds a flag outside the enumerated codes |
| QCReport.PrintRank | src/ufo/filters/QCmanager.cc:135-143 | the position of each rejection category in the report order, with pass last |
| QCReport.PrintOrderRanked | src/ufo/filters/QCmanager.cc:135-143 | the report order lists every category but pass, in strictly increasing rank |
| QCReport.RejectionsTail | src/ufo/filters/QCmanager.cc:135-144 | the walk over the buckets ends with the line it is given to append |
| QCReport.RejectionsSound | src/ufo/filters/QCmanager.cc:135-143 | every line of the walk reports a non-empty bucket of the listed categories, with that bucket's count |
| QCReport.RejectionsComplete | src/ufo/filters/QCmanager.cc:135-143 | every non-empty bucket of the listed categories is reported by the walk |
| QCReport.RejectionsOrdered | src/ufo/filters/QCmanager.cc:135-143 | over categories in increasing rank, the walk's lines come in increasing rank |
| QCReport.RejectionsExact | src/ufo/filters/QCmanager.cc:135-143 | over the report order, a category other than pass is reported exactly when its bucket is non-empty |
| QCReport.ReportSplits | src/ufo/filters/QCmanager.cc:133-145 | the coordinator's report is the walk over the report order followed by the pass/total line |
| QCReport.ReportShape | src/ufo/filters/QCmanager.cc:133-145 | off rank 0 the report is empty; on rank 0 it ends with "pass passed out of total"; every earlier line is a rejection of a non-pass category with that bucket's non-zero count; a bucket is reported exactly when non-empty; the lines follow the report order |
| QCReport.PassedLinesAppend | src/ufo/filters/QCmanager.cc:144 | pass/total lines of a concatenation add up |
| QCReport.NoPassedLines | src/ufo/filters/QCmanager.cc:135-143 | a text made only of rejection lines holds no pass/total line |
| QCReport.ReportPassedOnce | src/ufo/filters/QCmanager.cc:144 | the coordinator's report of one variable holds exactly one pass/total line |
| QCFilter.ReducedCounts | src/ufo/filters/QCmanager.cc:108-131 | when every process scans its own rows, a variable's reduced counters are those of one scan over its locations on this process followed by those on every other process; with CountRowCounts, each reported count is the number of locations carrying that code across all processes |
| QCFilter.QCmanager.ReportVariable | src/ufo/filters/QCmanager.cc:95-147 | one variable's turn: the lines written are the report of its reduced counters, and the returned verdict is the conservation assertion on them |
| QCFilter.QCmanager.Print | src/ufo/filters/QCmanager.cc:94-149 | the lines written and the variable at which the run aborts are `PrintRun` of the variables and their reduced counters; the destructor (lines 86-90) runs this |
| QCFilter.PrintRunStops | src/ufo/filters/QCmanager.cc:147 | once an assertion has failed, later variables add no lines and change nothing |
| QCFilter.PrintRunSplits | src/ufo/filters/QCmanager.cc:94-149 | the run aborts at the first failing variable, if any; the text written is the reports of all variables up to and including that one, or of all variables |
| QCFilter.PrintCompletes | src/ufo/filters/QCmanager.cc:147 | print completes without a failed assertion exactly when every variable's reduced counters conserve |
| QCFilter.PrintFailsFirst | src/ufo/filters/QCmanager.cc:147 | print aborts at variable k exactly when k's reduced counters fail the assertion and every earlier variable's pass it |
| QCFilter.ReportsLines | src/ufo/filters/QCmanager.cc:133-145 | off rank 0 print writes nothing; on rank 0 it writes exactly one pass/total line per reported variable |
| QCFilter.VariableConservesIffKnown | src/ufo/filters/QCmanager.cc:121-147 | one variable's assertion holds exactly when neither this process's row nor any other process's row holds an uncounted code |
| QCFilter.PrintCompletesIffKnown | src/ufo/filters/QCmanager.cc:94-149 | when every process scans its own rows, print completes exactly when no process holds a flag outside the enumerated codes, for any variable |
| QCFilter.FiveLocationScenario | src/ufo/filters/QCmanager.cc:55-119 | a worked example: missing value and error give `missing`, a missing H(x) on a passing cell gives `Hfailed`, and the counters are 2 pass, 2 missing, 1 Hfailed out of 5 |

## Left out

- The flag codes come from `ufo/filters/QCflags.h`, which is not part of this model.
  - `pass` is 0, because postFilter tests the literal 0 where print tests `QCflags::pass`.
  - The other named codes are distinct placeholder values, none of them 76 or 77.
  - The integer missing sentinel is a placeholder distinct from all of them.
- Logging through `oops::Log` (lines 40, 63, 69, 81, 87-89) is not modelled: it is I/O.
  Report lines are returned as values, not written to a stream.
- The text of a report line is not modelled. The model keeps the variable name, the
  category and the count. It drops the observation type (`flags_.obstype()`, line 134)
  and the wording.
- MPI is not modelled. `allReduceInPlace` and `rank()` (lines 121-133) become the value
  `Comm`: the rank and the counters of the other processes. Blocking and collective
  ordering are out of scope.
- Loading `ObsValue` from the observation space (line 53) is a foreign storage call. The
  values are an input of the constructor (`ObsSpace.obsValue`).
- Floating-point semantics are not modelled. Values, errors and H(x) are only compared
  with the missing sentinel, so they are `Measure` values without arithmetic.
- The H(x) vector `ObsVector` is a flat sequence of `Measure`.
  `QCFilter.QCmanager.PostFilter` requires it to hold `nvars * nlocs` entries, as an
  `ObsVector` over the same space does. The source reads `hofx[iobs]` (line 76) without a
  bounds check.
- Factory registration (line 31) and the stored configuration are left out: they have no
  behaviour.
- QCFilter.QCmanager.constructor: the dimension and handle assertions (lines 42-48)
  abort the program, so the constructor requires that `CheckConstruction` finds no
  failure, and `CheckConstruction` models which assertion fails first. The initialiser
  list dereferences `qcflags` (line 37) before `ASSERT(qcflags)` runs, so a null flag
  handle is undefined behaviour before the assertion. The model does not capture that
  ordering.
- QCFilter.QCmanager.Print: the counters are `size_t` and the model uses unbounded
  naturals. Wrap-around of the counters or of the reduced sums is not modelled.
- QCFilter.QCmanager.Print: a failed conservation assertion aborts the program. The model
  returns the lines written so far and the index of the failing variable.
- QCFilter.HofxIndex: the index `nvars * jobs + jv` is a `size_t` product, and its
  wrap-around for huge matrices is not modelled.
