# DRAM bank interference daemon: verified model

The daemon in this repository recovers the masks by which a memory controller hashes physical addresses to DRAM banks,
profiles which banks each process uses, and throttles processes that collide with protected ones.  Research harnesses
beside it select cache lines of chosen bank classes and time pointer chains through them.  This project models the logic
of both and proves it right for all inputs, runs and reachable states.

* **Mask recovery** (`Gf2Vectors`, `Gf2Space`, `Gf2Elimination`, `Calibration`, `CandidateMasks`, `MaskSelection`): machine
  words are sets of bit positions, XOR is symmetric difference, and `Words` proves that this is the same as numbers.
  Rank, nullspace, candidate discovery and greedy selection are the loops of the calibrator.
* **The bank map** (`DramMapping`): the daemon's map from address to class, its validation and its agreement with the
  calibrator.
* **Line selection and chains** (`PageClasses`, `Shuffle`, `LineVisits`, `LineSelection`, `Histograms`, `OverlapSweep`,
  `Chains`): from class counts to collected lines to rebuilt histograms.  The structural overlap check that the harness
  performs at run time is a theorem here.
* **The bank worker** (`BankWorker`, `WorkerRun`): from its arguments to the ring it walks, through the selection of
  blocks and the release of the other pages.
* **Process table** (`ProcessSlots`, `ProcessTable`, `ProcessEvents`, `ProcessLineage`): an open-addressing table with
  tombstones refines a finite map, and protection passes along runs of events.
* **Throttle controller** (`ThrottleRecords`, `ThrottleController`, `ThrottleRuns`, `ThrottleLaws`): an array of records
  refines one state machine per process; `ThrottleLaws` says who is throttled and who is released; whole runs cannot
  flap.
* **Profiles and small parts** (`BankHistograms`, `BankProfile`, `ActivityPrefilter`, `MaskArray`), with stock facts in
  `Arithmetic`, `FiniteSets`, `Sorting`, `Histories` and `Options`.

Parameters of the model: the pseudo-random generator and every seed derived from the configured one, the samples drawn by
the calibrator, clock readings, the outcomes of cgroup moves and control-file writes, address translation, what the C
library makes of numbers that are not in hexadecimal form, and all sizes (table slots, masks, pools, streams, entries).
Results hold for every value of them.  `qsort` and Python's `sort` are a stable insertion sort.  Scores are real numbers.
Events and records hold command names in buffers of one size (protected-daemon/src/protected_daemon.h:22,
protected-daemon/src/process.h:37), so copying one never cuts it off.

Three statements that one might expect are false of the code, and the exact condition is proved instead:

* `build_offset_classes` accepts every page size that is a multiple of 64, but splitting a class into page and offset
  parts is right exactly for powers of two (`PageClasses.DecomposesIffPowerOfTwo`).  This is a missing guard, not a
  failure that occurs: the harness takes the page size from `sysconf`, where it is a power of two in practice.
* A fork event that names one pid as parent and child makes that process lose its protection, because the child's record
  is cleared before the parent's is read (`ProcessEvents.ForkInheritsIff`, `ProcessEvents.SelfForkUnprotects`).
* The class map reaches every class exactly when the masks are linearly independent, which the daemon does not check and
  the calibrator guarantees (`DramMapping.ClassesOntoIffIndependent`, `MaskSelection.SelectionAccepted`); with the masks
  1, 2 and 3, which the daemon accepts, one class is never reached (`DramMapping.DependentMasksAccepted`).

A comment in the bank worker says that the lowest mask bit is 8; the code, and the model, work for any lowest bit whose
granularity is at least 64 bytes and divides the page, and refuse the others (oracle_bank_worker.c:447-496).

## Model

| member | source | states |
|---|---|---|
| `Gf2Elimination.Gf2Rank` | protected-daemon/scripts/kk_calibrate.py:385-400 | the result is the dimension of the row space: the span of the rows has exactly `2^rank` elements, whatever the order of the rows |
| `Gf2Elimination.ClearColumn` | protected-daemon/scripts/kk_calibrate.py:425-427 | clearing a column of all other rows changes no linear combination of the rows |
| `Gf2Elimination.Eliminate` | protected-daemon/scripts/kk_calibrate.py:408-435 | the matrix ends in reduced row echelon form for its pivot columns and spans what the input spans |
| `Gf2Elimination.ReadBasis` | protected-daemon/scripts/kk_calibrate.py:439-448 | one vector per free column, with the pivots that column feeds |
| `Gf2Elimination.NullspaceOfReduced` | protected-daemon/scripts/kk_calibrate.py:435-450 | for a reduced matrix the vectors read off span exactly the annihilators, are independent, and rank plus nullity is the number of columns |
| `Gf2Elimination.Gf2Nullspace` | protected-daemon/scripts/kk_calibrate.py:403-450 | sound and complete: the basis spans exactly the vectors below `2^ncols` with even parity against every row; it is independent; its length and the rank of the masked rows add up to `ncols` |
| `Gf2Space.SpanIffCombination` | protected-daemon/scripts/kk_calibrate.py:403-450 | a vector is in the span exactly when it is the XOR of some subset of the basis |
| `Gf2Space.CombinationUnique` | protected-daemon/scripts/kk_calibrate.py:403-450 | over an independent basis that subset is unique |
| `Gf2Space.RankOfSpan` | protected-daemon/scripts/kk_calibrate.py:385-400 | lists of rows with the same span have the same rank |
| `Words.XorNumBits` | protected-daemon/src/dram_mapping.c:152-178 | the XOR of two numbers has exactly the positions that one of them has |
| `Words.FoldedParityCorrect` | protected-daemon/src/dram_mapping.c:26-35 | the portable shift-and-fold with the 4-bit table computes the parity of a 64-bit word |
| `DramMapping.ClassLinear` | protected-daemon/src/dram_mapping.c:125-136 | the class of `a ^ b` is the XOR of the classes |
| `DramMapping.SameClassIffPredicted` | protected-daemon/scripts/kk_calibrate.py:457-458 | the calibrator predicts a conflict for the difference of two addresses exactly when the daemon puts them in one class |
| `DramMapping.Preimage` | protected-daemon/src/dram_mapping.c:125-136 | with independent masks every class below `2^mask_count` has an address of the given width |
| `DramMapping.ClassesOntoIffIndependent` | protected-daemon/src/dram_mapping.c:125-136 | the class map is onto exactly when the masks are linearly independent |
| `DramMapping.DependentMasksAccepted` | protected-daemon/src/dram_mapping.c:52-89 | the masks 1, 2 and 3 pass every check of the daemon, are dependent, and leave a class that no address of any width has |
| `DramMapping.MaskParity` | protected-daemon/src/dram_mapping.c:20-36 | the parity of the bits that an address and a mask share |
| `DramMapping.IndependentMasksValid` | protected-daemon/src/dram_mapping.c:76-86 | independent masks are nonzero and pairwise different, which is what the daemon checks |
| `DramMapping.ValidateMasks` | protected-daemon/src/dram_mapping.c:52-89 | the nested loops give the verdict of the first offending mask: zero, or equal to an earlier one |
| `DramMapping.VerdictMeans` | protected-daemon/src/dram_mapping.c:91-123 | a result is accepted exactly when the calibration succeeded and passed its acceptance, there are 1 to 32 masks, nonzero and different, and a name of 1 to 64 characters; and which check refuses it otherwise |
| `DramMapping.MaskVerdictMeans` | protected-daemon/src/dram_mapping.c:52-89 | a mask is blamed when all before it are nonzero and different and it is zero or repeats one |
| `DramMapping.Mapping.Reset` | protected-daemon/src/dram_mapping.c:38-45 | an empty mapping that is not ready |
| `DramMapping.Mapping.InitFromCalibration` | protected-daemon/src/dram_mapping.c:91-123 | fails closed: the mapping is ready exactly when the result passes every check, and is empty otherwise |
| `DramMapping.Mapping.BankClassFast` | protected-daemon/src/dram_mapping.c:125-136 | the accumulated bits are the parities of the address against the masks |
| `DramMapping.Mapping.BankClass` | protected-daemon/src/dram_mapping.c:138-150 | refuses exactly an unready mapping, and otherwise gives the class |
| `DramMapping.Mapping.SameBankClass` | protected-daemon/src/dram_mapping.c:152-178 | true exactly when the classes are equal, which is what the calibrator predicts for the difference |
| `Calibration.CompressDiff` | protected-daemon/scripts/kk_calibrate.py:365-372 | bit `i` of the result is the bit of the difference at the `i`-th active position |
| `Calibration.ExpandMask` | protected-daemon/scripts/kk_calibrate.py:375-382 | bit `i` of the mask goes to the `i`-th active position |
| `Calibration.CompressExpand` | protected-daemon/scripts/kk_calibrate.py:365-382 | on masks over the active positions compression undoes expansion |
| `Calibration.ExpandCompress` | protected-daemon/scripts/kk_calibrate.py:365-382 | expansion undoes compression up to the inactive bits |
| `Calibration.ExpandDot` | protected-daemon/scripts/kk_calibrate.py:365-382 | the parity of an expanded mask against a difference is that of the mask against the compressed difference |
| `Calibration.RoundCandidates` | protected-daemon/scripts/kk_calibrate.py:558-570 | the expanded nullspace basis of a sample spans exactly the masks over the active bits that annihilate every sampled difference |
| `Calibration.Evaluate` | protected-daemon/scripts/kk_calibrate.py:461-487 | the four counters are exactly the numbers of records with each outcome, and the ratios are theirs |
| `Calibration.MetricsMean` | protected-daemon/scripts/kk_calibrate.py:461-487 | accuracy, precision and recall are the shares of the records, the predicted and the labelled conflicts that are right, and F1 times predicted plus labelled conflicts is twice the true positives |
| `Calibration.NoFalseNegatives` | protected-daemon/scripts/kk_calibrate.py:461-487 | masks that annihilate every conflict never miss one |
| `CandidateMasks.MaskQuality` | protected-daemon/scripts/kk_calibrate.py:490-506 | the two rates are the shares of conflicting and of other records that the mask annihilates |
| `CandidateMasks.RateIsShare` | protected-daemon/scripts/kk_calibrate.py:490-506 | a rate times the number of records with the label is the number of those in which mask and difference share an even number of bits |
| `CandidateMasks.ActiveUnionHas` | protected-daemon/scripts/kk_calibrate.py:525-538 | the active positions are those at which some difference has a one bit |
| `CandidateMasks.ScoreMasks` | protected-daemon/scripts/kk_calibrate.py:578-594 | exactly the counted masks that pass the rate filter are scored, each once |
| `CandidateMasks.CountRound` | protected-daemon/scripts/kk_calibrate.py:566-570 | each nonzero mask is counted as often as the round lists it, and the keys keep the order of first occurrence |
| `CandidateMasks.CountRounds` | protected-daemon/scripts/kk_calibrate.py:548-570 | over all rounds the counter holds exactly the masks listed, each as often as listed |
| `CandidateMasks.RankCandidates` | protected-daemon/scripts/kk_calibrate.py:578-597 | the distinct counted masks that pass the filter, cut off at the limit: by higher rate on the conflicts, then higher count, fewer bits, a rate on the others closer to one half, and smaller number; every counted mask left out ranks behind every mask kept |
| `CandidateMasks.DiscoverCandidates` | protected-daemon/scripts/kk_calibrate.py:509-618 | succeeds exactly when the limit is positive and some mask listed in the rounds passes the filter; the counts are the occurrences in all rounds, each round spanning what annihilates its sample; the candidates are ranked as above, nonzero and over the active bits; with all conflicts sampled every candidate annihilates all conflicts, an uncut list spans every such mask, and discovery succeeds exactly when there is one |
| `MaskSelection.ChooseBest` | protected-daemon/scripts/kk_calibrate.py:635-657 | the first mask outside the span of the selection whose key no other such mask exceeds; none when all are in the span |
| `MaskSelection.BestMeans` | protected-daemon/scripts/kk_calibrate.py:635-657 | no mask outside the span beats the choice: by F1, then precision, recall, count and fewer bits |
| `MaskSelection.SelectMasksGreedy` | protected-daemon/scripts/kk_calibrate.py:621-678 | the selection is a greedy run: independent masks from the candidates, at most the limit, stopping early only when no remaining mask helps enough |
| `MaskSelection.GreedyRunFacts` | protected-daemon/scripts/kk_calibrate.py:634-667 | every greedy run is linearly independent and drawn from the candidates |
| `MaskSelection.SelectionAccepted` | protected-daemon/src/dram_mapping.c:52-89 | a selection of 1 to 32 masks passes all checks of the daemon and its map reaches every class |
| `MaskSelection.FitConflictsShareClass` | protected-daemon/scripts/kk_calibrate.py:528-666 | when discovery saw every conflict, any nonempty selection has no false negatives on the fit set, and the daemon puts every conflicting pair in one class |
| `PageClasses.DecompositionAgrees` | experiments/stage6_5/6_5c_bank_overlap/src/oracle_bank_overlap_sweep.c:1050-1083 | for a power-of-two page size the page class XOR the offset class is the class recomputed from the address, even when `pfn * page_size` wraps |
| `PageClasses.DecomposedBelow` | experiments/stage6_5/6_5c_bank_overlap/src/oracle_bank_overlap_sweep.c:1070-1076 | the decomposed class is always below the class space: the failure exit is dead |
| `PageClasses.DecomposesIffPowerOfTwo` | experiments/stage6_5/6_5c_bank_overlap/src/oracle_bank_overlap_sweep.c:954-1019 | the check that the page size is a multiple of 64 is not enough: among those sizes the decomposition is right exactly for the powers of two |
| `Shuffle.ShuffleInPlace` | experiments/stage6_5/6_5c_bank_overlap/src/oracle_bank_overlap_sweep.c:127-149 | the in-place Fisher-Yates exchange loop empties an urn: the outputs of the generator from the seed, taken modulo n, n - 1 and so on down to 2, decide which element goes to which place |
| `Shuffle.ShuffledIsDrawn` | experiments/stage6_5/6_5c_bank_overlap/src/oracle_bank_overlap_sweep.c:127-149 | the exchanges are draws from an urn without replacement, fixed by the outputs of the generator |
| `Shuffle.LastDrawn` | experiments/stage6_5/6_5c_bank_overlap/src/oracle_bank_overlap_sweep.c:127-149 | the element at the first output modulo n comes last |
| `Shuffle.EveryOrderDrawn` | experiments/stage6_5/6_5c_bank_overlap/src/oracle_bank_overlap_sweep.c:127-149 | every rearrangement comes from some sequence of draws |
| `Shuffle.DrawnOnce` | experiments/stage6_5/6_5c_bank_overlap/src/oracle_bank_overlap_sweep.c:127-149 | and, for different elements, from only one |
| `Shuffle.EveryOrderShuffled` | experiments/stage6_5/6_5c_bank_overlap/src/oracle_bank_overlap_sweep.c:127-149 | so no order is out of reach: each is the shuffle of some generator |
| `Shuffle.ShuffledOrder` | experiments/stage6_5/6_5c_bank_overlap/src/oracle_bank_overlap_sweep.c:1604-1639 | the order made from any seed is a permutation |
| `Shuffle.ShuffledIdentity` | experiments/stage6_5/6_5c_bank_overlap/src/oracle_bank_overlap_sweep.c:127-149 | shuffling the identity gives a permutation for every generator and seed |
| `LineVisits.OfClassCountIndependent` | experiments/stage6_5/6_5c_bank_overlap/src/oracle_bank_overlap_sweep.c:1330-1397 | every order of pages and lines finds the same number of lines of a class |
| `LineVisits.ClassCountsTotal` | experiments/stage6_5/6_5c_bank_overlap/src/oracle_bank_overlap_sweep.c:1021-1083 | the counts of all classes add up to the lines visited |
| `LineSelection.BuildOffsetClasses` | experiments/stage6_5/6_5c_bank_overlap/src/oracle_bank_overlap_sweep.c:954-1019 | fails exactly on sizes that are no multiple of 64; otherwise one class per line of the page |
| `LineSelection.CountLineClasses` | experiments/stage6_5/6_5c_bank_overlap/src/oracle_bank_overlap_sweep.c:1021-1083 | each counter is the number of lines of its class in the pool |
| `LineSelection.CountsTotal` | experiments/stage6_5/6_5c_bank_overlap/src/oracle_bank_overlap_sweep.c:1021-1083 | the counters add up to pages times lines per page |
| `LineSelection.ListEligible` | experiments/stage6_5/6_5e_multicandidate_control/src/oracle_multicandidate_control.c:1056-1068 | exactly the classes with a quota of lines in every pool, in order |
| `LineSelection.ChooseClassSets` | experiments/stage6_5/6_5e_multicandidate_control/src/oracle_multicandidate_control.c:1024-1092 | succeeds exactly when twice the group is eligible; the two sets are disjoint, eligible, and the first classes in the order drawn from the seed |
| `LineSelection.EveryChoiceMade` | experiments/stage6_5/6_5e_multicandidate_control/src/oracle_multicandidate_control.c:1024-1092 | any different eligible classes, in any order, are the first ones for some generator |
| `LineSelection.BuildOverlapClasses` | experiments/stage6_5/6_5c_bank_overlap/src/oracle_bank_overlap_sweep.c:310-341 | the first shared victim classes, then disjoint ones |
| `LineSelection.CollectLineSet` | experiments/stage6_5/6_5c_bank_overlap/src/oracle_bank_overlap_sweep.c:1218-1423 | succeeds exactly when the classes are distinct, in range and have a quota of lines each; slot by slot it returns the first lines of the class in visiting order |
| `Histograms.AddressClassOfLine` | experiments/stage6_5/6_5c_bank_overlap/src/oracle_bank_overlap_sweep.c:1436-1493 | the class rebuilt from the address of a line is the one the collector used |
| `Histograms.BuildHistogram` | experiments/stage6_5/6_5c_bank_overlap/src/oracle_bank_overlap_sweep.c:1495-1537 | fails exactly on an unclassified address; otherwise the counters are the multiplicities of the classes |
| `Histograms.CollectedClasses` | experiments/stage6_5/6_5c_bank_overlap/src/oracle_bank_overlap_sweep.c:1495-1537 | a collected set rebuilds to each requested class, quota times |
| `Histograms.HistogramJaccard` | experiments/stage6_5/6_5c_bank_overlap/src/oracle_bank_overlap_sweep.c:1539-1584 | intersection and union are the sums of minima and maxima |
| `Histograms.SharedClasses` | experiments/stage6_5/6_5c_bank_overlap/src/oracle_bank_overlap_sweep.c:1197-1216 | the number of classes both histograms use |
| `Histograms.UniqueClasses` | experiments/stage6_5/6_5c_bank_overlap/src/oracle_bank_overlap_sweep.c:1586-1602 | the number of classes a histogram uses |
| `Histograms.OverlapTotals` | experiments/stage6_5/6_5c_bank_overlap/src/oracle_bank_overlap_sweep.c:2839-2877 | shared = requested, intersection = shared * quota, union = (2 * group - shared) * quota |
| `OverlapSweep.CountsPredictVisit` | experiments/stage6_5/6_5c_bank_overlap/src/oracle_bank_overlap_sweep.c:1021-1083 | the counts taken in address order are the lines any visiting order finds |
| `OverlapSweep.EligibleCollectable` | experiments/stage6_5/6_5c_bank_overlap/src/oracle_bank_overlap_sweep.c:1218-1423 | classes eligible in a pool never run short in the collector, for any seeds |
| `OverlapSweep.SelectionStable` | experiments/stage6_5/6_5c_bank_overlap/src/oracle_bank_overlap_sweep.c:1330-1397 | of two selections over the same visiting order, each as `CollectLineSet` returns it, a class gets the same lines in both, whatever other classes are requested |
| `OverlapSweep.SharedClassKeepsLines` | experiments/stage6_5/6_5c_bank_overlap/src/oracle_bank_overlap_sweep.c:2797-2804 | two levels of an accepted run over one pool and with the same seeds select the same lines for a class they share |
| `OverlapSweep.SelectionDistinct` | experiments/stage6_5/6_5c_bank_overlap/src/oracle_bank_overlap_sweep.c:1330-1397 | no line is selected twice |
| `OverlapSweep.CollectedHistogram` | experiments/stage6_5/6_5c_bank_overlap/src/oracle_bank_overlap_sweep.c:1495-1537 | the rebuilt histogram has the quota on the requested classes and zero elsewhere |
| `OverlapSweep.CollectAndCount` | experiments/stage6_5/6_5c_bank_overlap/src/oracle_bank_overlap_sweep.c:2787-2823 | collecting eligible classes and rebuilding the histogram always works, and the histogram is exact |
| `OverlapSweep.CountPools` | experiments/stage6_5/6_5e_multicandidate_control/src/oracle_multicandidate_control.c:2732-2750 | the counters of every pool |
| `OverlapSweep.CheckLevel` | experiments/stage6_5/6_5c_bank_overlap/src/oracle_bank_overlap_sweep.c:2702-2877 | the check passes exactly when the five totals are the requested ones |
| `OverlapSweep.CollectedLevelPasses` | experiments/stage6_5/6_5c_bank_overlap/src/oracle_bank_overlap_sweep.c:2839-2877 | the check is a theorem: histograms of collected sets always pass, and the weighted overlap is shared / (2 * group - shared) |
| `OverlapSweep.CandidateShared` | experiments/stage6_5/6_5e_multicandidate_control/src/oracle_multicandidate_control.c:1497-1509 | no candidate asks for more shared classes than the group has |
| `OverlapSweep.SharedQuarters` | experiments/stage6_5/6_5e_multicandidate_control/src/oracle_multicandidate_control.c:1497-1509 | candidate `i` shares `i` quarters of the group |
| `OverlapSweep.RunLevels` | experiments/stage6_5/6_5e_multicandidate_control/src/oracle_multicandidate_control.c:2785-2870 | no level is ever rejected; each has the requested overlap and the lines of its classes |
| `OverlapSweep.RunSweep` | experiments/stage6_5/6_5e_multicandidate_control/src/oracle_multicandidate_control.c:2732-2870 | for every generator, seeds and pools the run is accepted exactly when enough classes are eligible in all pools; the selected lines are determined pool by pool |
| `Chains.ChainsAreDisjointCycles` | experiments/stage6_5/6_5c_bank_overlap/src/oracle_bank_overlap_sweep.c:1682-1735 | stream `s` is a cycle without repetition through exactly the lines at positions congruent to `s`, back to its root |
| `Chains.PermutedLines` | experiments/stage6_5/6_5c_bank_overlap/src/oracle_bank_overlap_sweep.c:1690-1720 | a permutation of distinct lines loses and repeats none |
| `Chains.BuildMultiChain` | experiments/stage6_5/6_5c_bank_overlap/src/oracle_bank_overlap_sweep.c:1682-1735 | succeeds exactly for 1 to `n` streams; links every line to the next of its stream, returns the roots, writes nothing else |
| `Chains.BuildSingleChain` | experiments/stage6_5/6_5c_bank_overlap/src/oracle_bank_overlap_sweep.c:1641-1680 | succeeds exactly for a nonempty set; links every line to the next, writes nothing else |
| `Chains.SingleChainCoversAll` | experiments/stage6_5/6_5c_bank_overlap/src/oracle_bank_overlap_sweep.c:1641-1680 | the single chain visits every line once before it returns |
| `BankWorker.FindMinimumMaskBit` | experiments/stage6_5/6_5c_bank_overlap/src/oracle_bank_worker.c:129-172 | the lowest bit any mask has; none exactly when all masks are zero |
| `BankWorker.BlockHasOneClass` | experiments/stage6_5/6_5c_bank_overlap/src/oracle_bank_worker.c:776-804 | every line of a block has the class of the block, even when the physical address wraps |
| `BankWorker.WriteBlock` | experiments/stage6_5/6_5c_bank_overlap/src/oracle_bank_worker.c:788-804 | the lines of the block are written behind those already there, in bounds |
| `BankWorker.SelectRow` | experiments/stage6_5/6_5c_bank_overlap/src/oracle_bank_worker.c:743-806 | the wanted blocks of a page are taken until there are enough |
| `BankWorker.SelectBlocks` | experiments/stage6_5/6_5c_bank_overlap/src/oracle_bank_worker.c:680-838 | for any way to recognise wanted blocks: the lines are those of the first required blocks, the marked pages are theirs, writes stay below `required_lines`; fails exactly on an untranslatable page before enough were found, or too few blocks |
| `BankWorker.RequiredLines` | experiments/stage6_5/6_5c_bank_overlap/src/oracle_bank_worker.c:578-587 | the lines allocated are the lines of the required blocks |
| `BankWorker.LinesHaveClass` | experiments/stage6_5/6_5c_bank_overlap/src/oracle_bank_worker.c:680-806 | every selected line has the target class |
| `BankWorker.SelectedDistinct` | experiments/stage6_5/6_5c_bank_overlap/src/oracle_bank_worker.c:680-806 | no address is selected twice |
| `BankWorker.ReleaseUnselectedPages` | experiments/stage6_5/6_5c_bank_overlap/src/oracle_bank_worker.c:210-251 | succeeds exactly when the system refuses no maximal run of scanned pages not kept; the ranges given back are those runs, or those before the first refused |
| `BankWorker.BuildRing` | experiments/stage6_5/6_5c_bank_overlap/src/oracle_bank_worker.c:877-910 | the shuffled lines form one ring, and nothing else is written |
| `WorkerRun.RefusalIs` | experiments/stage6_5/6_5c_bank_overlap/src/oracle_bank_worker.c:380-570 | which arguments are refused and why: nothing to map or select, a target without a class, masks all zero, a lowest mask bit below 6, or sizes that are not multiples of the block and the page |
| `WorkerRun.Run` | experiments/stage6_5/6_5c_bank_overlap/src/oracle_bank_worker.c:406-911 | every result has its own cause: a refused argument, too few matching blocks before the first page without a frame, too few in all, a run of unused pages that the system refuses; otherwise, and only then, the worker is ready: one ring, in shuffled order, of exactly the lines of the first matching blocks, with exactly the scanned pages without a matching block given back |
| `WorkerRun.SelectAndLink` | experiments/stage6_5/6_5c_bank_overlap/src/oracle_bank_worker.c:578-911 | the same from checked arguments |
| `WorkerRun.SelectTargets` | experiments/stage6_5/6_5c_bank_overlap/src/oracle_bank_worker.c:680-838 | selection alone: the cause of each failure, and the pages kept are those scanned that have a matching block |
| `WorkerRun.MatchingIsSelected` | experiments/stage6_5/6_5c_bank_overlap/src/oracle_bank_worker.c:743-760 | the blocks found are exactly the aligned blocks whose physical address, in 64 bits, has the target class, each once |
| `WorkerRun.TakenAreFirst` | experiments/stage6_5/6_5c_bank_overlap/src/oracle_bank_worker.c:743-806 | a block is taken exactly when fewer matching blocks than required come before it |
| `WorkerRun.SelectionIsGood` | experiments/stage6_5/6_5c_bank_overlap/src/oracle_bank_worker.c:680-875 | the lines selected are different, of the target class, and outside every range given back |
| `Chains.RingWalk` | experiments/stage6_5/6_5c_bank_overlap/src/oracle_bank_worker.c:877-910 | following a single ring from its first line visits the lines in order and then comes back |
| `ProcessSlots.ProbeIsMod` | protected-daemon/src/process.c:29-52 | the slots probed are the hash plus the probe number, modulo the table size |
| `ProcessSlots.MissedAbsent` | protected-daemon/src/process.c:29-52 | a probe that ends at an EMPTY slot, or after all slots, proves the pid absent |
| `ProcessSlots.ScanFull` | protected-daemon/src/process.c:59-104 | a whole scan without a free slot met only OCCUPIED slots |
| `ProcessSlots.InsertKeeps` | protected-daemon/src/process.c:106-127 | inserting in the slot found keeps pids unique and every entry reachable, and adds one record |
| `ProcessSlots.ReplaceKeeps` | protected-daemon/src/process.c:106-127 | overwriting in place keeps the table and replaces one record |
| `ProcessSlots.RemoveKeeps` | protected-daemon/src/process.c:238-252 | a tombstone keeps every other entry reachable and takes one record away |
| `ProcessSlots.ModelSize` | protected-daemon/src/process.c:136-139 | the occupancy counter is the number of records, and is below capacity exactly when a slot is free |
| `ProcessSlots.ParentSlot` | protected-daemon/src/process.c:206-236 | the parent is read from the slot just cleared exactly when parent and child are one pid |
| `ProcessTable.Table.Reset` | protected-daemon/src/process.c:129-134 | the table is empty |
| `ProcessTable.Table.Count` | protected-daemon/src/process.c:136-139 | the exact number of records |
| `ProcessTable.Table.FindExisting` | protected-daemon/src/process.c:29-52 | finds exactly the recorded pids |
| `ProcessTable.Table.FindUpsert` | protected-daemon/src/process.c:59-104 | finds the pid, or the first slot on its probe path that is not OCCUPIED; fails exactly when the pid is absent and all slots are OCCUPIED |
| `ProcessTable.Table.UpsertExec` | protected-daemon/src/process.c:158-204 | the map gains or updates one record; fails exactly on a bad pid or a full table |
| `ProcessLineage.ExecWrites` | protected-daemon/src/process.c:158-204 | what an exec leaves: pid, parent, user and names from the event, both marks of a known process, protection added only by a protected name, and the group by the policy except for the processes of the daemon |
| `ProcessLineage.ForkWrites` | protected-daemon/src/process.c:206-236 | what a fork leaves: a new record, protected and marked as inherited exactly when the parent is protected and another process |
| `ProcessLineage.OthersWrite` | protected-daemon/src/protected_daemon.c:113-172 | an exit removes, and refused or unknown events change nothing |
| `ProcessTable.Table.UpsertFork` | protected-daemon/src/process.c:206-236 | the child is recorded anew with its inheritance; fails exactly on a bad pid or a full table |
| `ProcessTable.Table.Remove` | protected-daemon/src/process.c:238-252 | the map loses the pid and nothing else |
| `ProcessTable.Table.Snapshot` | protected-daemon/src/process.c:323-393 | never inconsistent; returns each record once, or reports exactly that they do not fit |
| `ProcessEvents.Daemon.HandleEvent` | protected-daemon/src/protected_daemon.c:113-172 | one event takes the step of the map and makes exactly the cgroup moves that go with it |
| `ProcessEvents.MovedAreProtected` | protected-daemon/src/protected_daemon.c:113-172 | only processes that end up recorded as protected are moved, and only to the protected group |
| `ProcessLineage.MovesWritten` | protected-daemon/src/protected_daemon.c:129-165 | the moves, exactly: an exec, not of the daemon itself, whose record ends in the protected group, and a fork whose child ends protected |
| `ProcessEvents.JudgedGroup` | protected-daemon/src/protected_daemon.c:129-142 | outside the daemon, the protected group goes exactly to protected processes with a name and a pid above 2 |
| `ProcessEvents.RunConsistent` | protected-daemon/src/protected_daemon.c:113-172 | in every reachable state inherited protection implies protection |
| `ProcessEvents.ProtectionStep` | protected-daemon/src/protected_daemon.c:113-172 | the set of protected processes evolves by a rule on that set, the policy and the event alone; an event that the table does not take up changes nothing |
| `ProcessEvents.ProtectionPersists` | protected-daemon/src/protected_daemon.c:113-172 | a protected process stays protected over any run without its exit or a fork naming it as child |
| `ProcessEvents.ForkedChildProtected` | protected-daemon/src/process.c:206-236 | a child recorded while its parent is protected is protected and stays so, execs included |
| `ProcessEvents.ForkInheritsIff` | protected-daemon/src/process.c:206-236 | a recorded child is protected exactly when its parent was and is another process |
| `ProcessLineage.InheritedIff` | protected-daemon/src/process.c:158-236 | the lineage law over every run: a live process has the inherited mark exactly when its last recorded fork, with no exit since, named a protected parent other than itself; execs do not matter |
| `ProcessLineage.ProtectedIff` | protected-daemon/src/process.c:158-236 | a live process is protected exactly when in this life it was so forked or has executed under a protected name |
| `ProcessEvents.SelfForkUnprotects` | protected-daemon/src/process.c:206-236 | counterexample to inheritance: a fork naming one pid twice takes its protection away |
| `ThrottleRecords.OrderIrrelevant` | protected-daemon/src/throttle_controller.c:487-577 | reordering the candidates does not change the effect of a round |
| `ThrottleRecords.StatsBalance` | protected-daemon/src/throttle_controller.c:445-603 | throttle + release + kept + low score + cooldown + errors = candidates + throttled records unseen |
| `ThrottleRecords.BookedBalance` | protected-daemon/src/throttle_controller.c:445-603 | the counters add up to the processes about which something was decided |
| `ThrottleController.Controller.Init` | protected-daemon/src/throttle_controller.c:389-434 | accepts exactly valid configurations, control values included, whose control files could all be written, and starts with no records |
| `ThrottleController.Controller.FindRecord` | protected-daemon/src/throttle_controller.c:165-180 | finds exactly the recorded pids |
| `ThrottleController.Controller.Prevalidate` | protected-daemon/src/throttle_controller.c:310-336 | exact: an invalid or repeated candidate first, then room for the new pids |
| `ThrottleController.Controller.ThrottleRecord` | protected-daemon/src/throttle_controller.c:233-258 | a failed move changes only the error; a successful one throttles the record and moves the process |
| `ThrottleController.Controller.ReleaseRecord` | protected-daemon/src/throttle_controller.c:260-289 | a failed move changes only the error; a successful one starts the cooldown and moves the process |
| `ThrottleController.Controller.SeeRecord` | protected-daemon/src/throttle_controller.c:502-577 | the step of a process a candidate names |
| `ThrottleController.Controller.SweepRecord` | protected-daemon/src/throttle_controller.c:580-600 | the step of a recorded process no candidate names |
| `ThrottleController.Controller.CreateRecord` | protected-daemon/src/throttle_controller.c:197-215 | with room the record is added; the failure exit is unreachable after validation |
| `ThrottleController.Controller.ApplyCandidates` | protected-daemon/src/throttle_controller.c:445-603 | atomic: unless validation passes and the clock can be read nothing changes; otherwise every process takes its own step, independent of all others, the statistics count exactly what was done, the processes are moved accordingly and the result is an error exactly when a move failed |
| `ThrottleLaws.ThrottledIff` | protected-daemon/src/throttle_controller.c:502-577 | a candidate that is new, normal or past its cooldown ends throttled exactly when it is active, flagged, at or above the high score, and the move succeeds |
| `ThrottleLaws.ReleasedIff` | protected-daemon/src/throttle_controller.c:540-600 | a throttled process is released exactly when the minimum duration is over, the move succeeds, and its candidate is at or below the low score or it has been no candidate for the stale time; its cooldown begins then |
| `ThrottleLaws.CooldownKept` | protected-daemon/src/throttle_controller.c:555-600 | a process in its cooldown stays there until the time is over |
| `ThrottleLaws.UnnamedNotThrottled` | protected-daemon/src/throttle_controller.c:580-600 | a process no candidate names is never throttled |
| `ThrottleLaws.Remembered` | protected-daemon/src/throttle_controller.c:502-525 | what a round remembers of a candidate |
| `ThrottleLaws.NotForgotten` | protected-daemon/src/throttle_controller.c:580-600 | of a process no candidate names a round forgets nothing but the mark |
| `ThrottleLaws.Stamped` | protected-daemon/src/throttle_controller.c:233-289 | a record is stamped with the time exactly when it is throttled or released, and an error is noted only for a failed move |
| `ThrottleLaws.StatsMean` | protected-daemon/src/throttle_controller.c:445-603 | each counter is the number of processes with its cause |
| `ThrottleLaws.RefusedIff` | protected-daemon/src/throttle_controller.c:291-336 | when a round is refused, and with which error |
| `ThrottleLaws.ConfigMeans` | protected-daemon/src/throttle_controller.c:13-83 | a configuration is accepted exactly when its groups are the three groups of the daemon in some order, the thresholds are shares in order, there is room for a record, and the control values to write are lines of 1 to 63 characters |
| `ThrottleLaws.RefusedCounts` | protected-daemon/src/throttle_controller.c:445-467 | a refused round counts nothing but its error |
| `ThrottleLaws.MovedTo` | protected-daemon/src/throttle_controller.c:222-289 | where a round leaves every process |
| `ThrottleController.Controller.ReleaseAll` | protected-daemon/src/throttle_controller.c:605-636 | every throttled record takes a release step, everything else is unchanged, counted exactly |
| `ThrottleLaws.RollbackIff` | protected-daemon/src/throttle_controller.c:605-636 | a rollback releases exactly the throttled processes whose move succeeds and leaves the others alone |
| `ThrottleController.Controller.GetRecord` | protected-daemon/src/throttle_controller.c:638-651 | a copy of the record of a recorded process |
| `ThrottleController.GroupsMatchKept` | protected-daemon/src/throttle_controller.c:445-603 | a round keeps: throttled exactly when in the throttled group, never in the protected group |
| `ThrottleController.GroupsMatchRolledBack` | protected-daemon/src/throttle_controller.c:605-636 | a rollback keeps the same |
| `ThrottleRuns.PidStepPhase` | protected-daemon/src/throttle_controller.c:504-600 | a step of one process keeps what its record says about the last time it was throttled |
| `ThrottleRuns.RunPairsApart` | protected-daemon/src/throttle_controller.c:445-636 | over every run, a throttle action on a process and the next one are at least minimum duration plus cooldown apart when no rollback comes between them, and cooldown apart in any case |
| `ThrottleRuns.ThrottlesApart` | protected-daemon/src/throttle_controller.c:445-636 | the same for any two throttle actions on a process |
| `ThrottleRuns.AntiFlapping` | protected-daemon/src/throttle_controller.c:445-636 | any stretch of k throttle actions on one process spans at least (k - 1) times the minimum duration plus the cooldown, or the cooldown if a rollback comes within the stretch, whatever moves fail |
| `ThrottleRuns.GroupsFollowRecords` | protected-daemon/src/throttle_controller.c:217-289 | over all runs without dry run a record is throttled exactly when the last successful move was to the throttled group, and no process is ever in the protected group |
| `ThrottleLaws.RunThrottles` | protected-daemon/src/throttle_controller.c:445-636 | over every run a process is throttled exactly when some round throttled it on the wish of the detector and it has not been due for release, or rolled back, with a successful move since |
| `BankHistograms.MergeAdds` | protected-daemon/src/bank_profile.c:467-531 | merging adds the counts of every class |
| `BankProfile.MergeOutcome` | protected-daemon/src/bank_profile.c:467-531 | a merge of entries succeeds exactly when the classes of both fit and then ends with the sum of the two histograms |
| `BankProfile.MergesCommute` | protected-daemon/src/bank_profile.c:467-531 | two merges of valid profiles, one in each direction, end with the same counts; and they succeed alike when no entry is empty |
| `BankProfile.MergesAssociate` | protected-daemon/src/bank_profile.c:467-531 | two groupings of the merges of three valid profiles end with the same counts; and they succeed alike when no entry is empty and no count reaches 2^64 |
| `BankHistograms.SuccessAssociates` | protected-daemon/src/bank_profile.c:467-531 | in that case both groupings succeed exactly when the classes of all three fit |
| `BankProfile.MergeComplete` | protected-daemon/src/bank_profile.c:467-531 | a successful merge is the class-by-class sum of the two whole histograms |
| `BankHistograms.OverlapConserves` | protected-daemon/src/bank_profile.c:533-576 | intersection + union = total of one + total of the other |
| `BankHistograms.OverlapSymmetric` | protected-daemon/src/bank_profile.c:533-576 | intersection and union are symmetric |
| `BankHistograms.ScoreLaws` | protected-daemon/src/bank_profile.c:533-576 | the score is symmetric, in [0, 1], and 1 exactly for equal page counts |
| `BankProfile.Profile.CountForClass` | protected-daemon/src/bank_profile.c:452-465 | the pages of the class, or zero |
| `BankProfile.Profile.AddCount` | protected-daemon/src/bank_profile.c:204-232 | adds to the entry of the class or takes a free one; fails exactly for a nonempty count of a new class with all entries used |
| `BankProfile.Profile.FinalizeDominant` | protected-daemon/src/bank_profile.c:238-265 | the dominant class has the most pages and is the first entry with so many, none when all are zero, and its share is of the total |
| `BankProfile.Profile.CountSkip` | protected-daemon/src/bank_profile.c:267-286 | the counter for the reason goes up by one in 64 bits, and no other |
| `BankProfile.Profile.SamplePage` | protected-daemon/src/bank_profile.c:314-344 | each sampled page is booked under its own outcome and counted under its class; it fails exactly when the class is new and all entries are used; balanced counters stay balanced |
| `BankProfile.CountersAre` | protected-daemon/src/bank_profile.c:288-348 | after any number of pages each counter has gained the number of pages with its outcome, in 64 bits |
| `BankProfile.ContentsAre` | protected-daemon/src/bank_profile.c:288-348 | and each class the pages that fall into it, and their bytes |
| `BankProfile.StaysBalanced` | protected-daemon/src/bank_profile.c:288-348 | however many pages are sampled, balanced counters stay balanced |
| `BankProfile.Profile.SampleRegion` | protected-daemon/src/bank_profile.c:288-348 | sampling goes at the stride to the end of the region or of the budget and no further, or stops at a page whose class is new when all entries are used; every counter and every class gains the pages that belong to it, and balanced counters stay balanced |
| `BankProfile.BalancedExact` | protected-daemon/src/bank_profile.c:288-348 | as long as the pages fit in 64 bits, the pages sampled are those counted, those unmapped and those skipped |
| `BankProfile.Profile.Merge` | protected-daemon/src/bank_profile.c:467-531 | refuses incompatible page sizes and changes nothing; otherwise succeeds exactly when the classes of both fit, adds class by class and counter by counter, keeps classes unique and recomputes the dominant class; also for a profile merged into itself |
| `BankProfile.OverlapScore` | protected-daemon/src/bank_profile.c:533-576 | intersection and union in 64-bit sums, and the error exits |
| `BankProfile.ScoreExact` | protected-daemon/src/bank_profile.c:533-576 | as long as the pages of both fit in 64 bits the result is the true score |
| `ActivityPrefilter.TopKBest` | protected-daemon/src/activity_prefilter.c:116-222 | the selection goes from higher scores to lower and at equal scores from lower pids to higher, is taken from the eligible, is as long as the limit allows, and nothing dropped has a higher score, or an equal score and a lower pid, than anything kept |
| `ActivityPrefilter.ScreenedAre` | protected-daemon/src/activity_prefilter.c:93-186 | the eligible candidates are made of exactly the observations that are valid, not zombies, large enough and active, in order, each with the highest of its three scores |
| `ActivityPrefilter.CountedAre` | protected-daemon/src/activity_prefilter.c:154-186 | the counters are the numbers of observations excluded for each reason |
| `ActivityPrefilter.ClassesPartition` | protected-daemon/src/activity_prefilter.c:93-114 | valid observations are zombies, small, idle or eligible, each exactly one |
| `ActivityPrefilter.WhereCounts` | protected-daemon/src/activity_prefilter.c:154-186 | screening keeps every accepted observation as often as it occurs and nothing else |
| `ActivityPrefilter.Screen` | protected-daemon/src/activity_prefilter.c:154-186 | the pass builds the eligible candidates in order and counts every class |
| `ActivityPrefilter.SelectTopK` | protected-daemon/src/activity_prefilter.c:116-222 | all or nothing: the selection is written, or nothing when it does not fit; valid = zombie + small + no signal + eligible |
| `MaskArray.HexRoundTrip` | protected-daemon/scripts/kk_calibrate.py:860-863 | hexadecimal digits denote the number they were printed from |
| `MaskArray.PrintedRoundTrip` | protected-daemon/scripts/kk_calibrate.py:860-863 | every 64-bit mask is read back as printed |
| `MaskArray.SkipWs` | protected-daemon/src/calibration.c:383-389 | skips exactly the leading white space |
| `MaskArray.ScanBalanced` | protected-daemon/src/calibration.c:428-476 | the loop finds what the scan of the specification finds |
| `MaskArray.ScanString` | protected-daemon/src/calibration.c:445-459 | a quoted string is skipped whatever it holds, with the quoting and escapes of section 7 of RFC 8259 |
| `MaskArray.ScanGroup` | protected-daemon/src/calibration.c:428-476 | the range found is exactly the bracketed text, nested brackets and quoted brackets included, whatever follows |
| `MaskArray.FoundIsGroup` | protected-daemon/src/calibration.c:428-476 | the converse on every text: a range that is found is bracketed text with balanced brackets |
| `MaskArray.ReadText` | protected-daemon/src/calibration.c:645-660 | the text up to the closing quote, or failure when it is missing or the buffer is full |
| `MaskArray.ParseBankMasks` | protected-daemon/src/calibration.c:623-685 | the loop reads what the specification reads |
| `MaskArray.DigitsMean` | protected-daemon/scripts/kk_calibrate.py:860-863 | the digits are 0 to 9 and a to f in either case, and their values are their places |
| `MaskArray.NumberMeans` | protected-daemon/src/calibration.c:665-679 | a text of 0x or 0X and hexadecimal digits is their value, if that fits in 64 bits |
| `MaskArray.TokensAccepted` | protected-daemon/src/calibration.c:623-685 | white space, commas and 1 to 32 quoted texts of at most 63 characters that denote nonzero numbers, in any order, are read as those numbers |
| `MaskArray.AcceptedTokens` | protected-daemon/src/calibration.c:623-685 | and nothing else is accepted |
| `MaskArray.PrintParseRoundTrip` | protected-daemon/src/calibration.c:623-685 | any list of nonzero 64-bit masks, printed with any white space in any file, is delimited exactly and read back in order if there are at most 32, and refused as too long otherwise |

## Left out

- Input and output: `/proc`, pagemap, `mmap`, `madvise`, `fork`, pipes, signals, cgroup files, BPF events, printing, command lines and default configurations. Where they matter their outcomes are parameters.
- Floating point: rounding, NaN and infinities; scores and ratios are reals.
- Allocation failures, null pointers, `SIZE_MAX` checks and the overflow of `2 * group_classes`.
- Reason and error strings.
- Timing runs, threshold bootstrapping, consistency filtering and the stratified split of the calibrator, its diagnostics and histories; optimality of the greedy choice, which it does not claim.
- `calibration_load_result` apart from the mask array: the search for keys is textual.
- Near-copies of the modelled selection and chain code in the other harnesses, latency measurement, and the prototypes.
- Concurrency of the harness processes, and the physical page numbers changing under them.
- BankProfile.Profile.Merge: the error message it leaves is not modelled.
- BankProfile.Profile.SampleRegion: walking the memory map and filtering regions is left out.
- MaskArray.PrintParseRoundTrip: only texts in the hexadecimal form are numbers of the model; the others are whatever the library says.
- WorkerRun.Run: the byte written to each scanned page to fault it in is not modelled; the ring overwrites it in the lines selected.
- ProcessTable.Table.UpsertExec: paths and command lines come with the event instead of being read.
- OverlapSweep.RunSweep: page sizes are powers of two of at least 64 bytes; for the other sizes that the harness accepts the class decomposition itself is wrong, as `PageClasses.DecomposesIffPowerOfTwo` shows.
- ThrottleRuns.AntiFlapping: durations are the saturated ones of the source, so the bound is in those.
- ActivityPrefilter.SelectTopK: the exits for null arguments and for failed allocation are missing; candidates with equal score and pid keep their order, where `qsort` may exchange them.
