# Freight reconciliation: verified models of the evaluation engine and the mutation batteries

This project models four parts of the repository and proves what they are relied on for.

* **Scoring and the production gate** (`Scoring`, `Matching`, `Readings`, `Verdicts`, `Evaluation`,
  `Calibration`, `Conservation`, `Reports`, `Gate`, `Mock`). A run of extracted documents is scored
  field by field against the truth. Accessorial charges are paired greedily over a compatibility that is
  neither symmetric nor transitive. The report's counters are updated in place and feed a four-way gate.
  `Evaluation.TallyOf` says, without loops, what a report should hold; the method `Evaluation.Evaluate`
  is proved to hold it, and the laws are proved about the tally. `Readings` and `Verdicts` say which
  texts are which numbers and names, and what that makes of a field's score; `Calibration` takes the
  predictions back to the extracted items.
* **Mutate, measure, restore** (`Harness`, `PerEdit`, `Battery`, `Stranding`, `Recovery`,
  `Regeneration`, `Epoch`). A checkout is a map from path to text; a guard is any function of the
  checkout, and may raise. Every write is recorded in a ghost trace, which `Harness.Tree.RunEdits` gives
  exactly, so "killed at any point" is a statement about the disks of that trace and no others.
* **The event-contract deriver** (`Splitter`, `Nesting`, `Payload`, `Grammar`, `Spellings`, `Groups`,
  `Annotations`, `Emphasis`, `Producers`, `Mentions`). The depth-tracking splitter, the payload-cell
  parser, the abbreviation expander for any cell at all, a printer for the documented grammar that the
  parser is proved to invert, what is read of a term however it is spelled, and exactly what in an
  annotation is read.
* **The synthetic money world** (`Corpus`, `Expectations`, `Numerals`). Loads built one after another in
  whole cents, what each of them holds by its number, and the round trip between printed dollars and the
  evaluator's number parser.

`Prelude` and `PyText` hold what they share: counting, flattening, and Python's `find`, `count`,
`replace`, `strip`, `lower` and white-space collapsing as functions on ASCII text.

## What the proofs found

* "Matched by name regardless of order" (eval/README.md:116, eval/evaluator.py:10) does not hold of the
  code: `Scoring.OrderCanMatter` has two charges and two items that score INCORRECT in one order and
  CORRECT in the other. `Scoring.RegardlessOfOrder` gives the exact condition: the outcome is the same
  in every order if and only if compatibility falls into blocks (two charges that share one compatible
  item share all of them) or no one-to-one pairing uses up both lists anyway.
* "The anchor appears exactly once" is checked with `count`, which skips overlapping occurrences.
  `PyText.CountedOnceIsUniqueExactlyWithoutOverlap`: a count of one means a single occurrence, in every
  text, if and only if the anchor does not overlap itself.
* The battery of scripts/mutate_phase6_work_item.py captures an "original" at every edit. A file edited
  twice is left mutated and can still be reported CAUGHT (`PerEdit.CaughtYetNotRestored`). With at most
  two edits a file, its files come back if and only if it stops before writing or the edited paths are
  pairwise distinct (`PerEdit.RestoresOnlyDistinctPaths`).
* The rule battery refuses a stranded checkout by looking for a sentinel that not every shipped case
  writes (scripts/mutate_phase6_rule.py:147). A kill leaves a beginning of the write order mutated, or
  an end of it. So a case's strandings are all refused if and only if it never writes its mutant, or
  the first and the last file it changes, in write order, hold the sentinel; files between need not
  (`Stranding.StrandingsRefusedExactly`). `Stranding.UnmarkedIsMissed` is a case whose stranding passes
  for pristine.
* "Only the backticked, anchored form counts" (scripts/generate_event_contracts.py:384-399) lets one
  kind of prose through: in an annotation like "(`a` = B `c`)" the backtick that closes one name and the
  one that opens the next enclose `= B`, and B is read as a fixed value
  (`Annotations.FormulaIsReadAsValue`). `Annotations.FixedMarkedExactly` says exactly what is read.
* Two dates that cannot be read compare equal, such as "tbd" and "n/a" (`Scoring.TwoUnreadableDates`).
* The mock run is perfect on readable truth only while the schema and the evaluator read a value alike:
  the schema takes the text "1e3" for 1000, the number parser reads 13 (`Mock.ReadTwoWays`).
* A duplicate invoice copies what was billed but not the rate confirmation's accessorials, so it bills
  175.00 more than its own rate, and the "authorized detention" branch of the corpus generator is
  dead (`Corpus.BilledAgainstRate`, `Corpus.NoAuthorizedDetention`).

## Model

| member | source | states |
|---|---|---|
| Matching.GreedyIsMaximal | eval/evaluator.py:212-230 | hits and leftovers together are the two lists as multisets, pairs are compatible, and no missing charge is compatible with any item left over |
| Matching.GreedyIsHalfOptimal | eval/evaluator.py:212-230 | any one-to-one compatible pairing of positions has at most twice as many pairs as the greedy one |
| Matching.GreedyIsOptimalOnBlocks | eval/evaluator.py:212-230 | where compatibility falls into blocks, no pairing has more pairs than the greedy one |
| Matching.BlocksMakeOrderIrrelevant | eval/evaluator.py:204-230 | where compatibility falls into blocks, any order of either list gives the same number of pairs |
| Matching.OrderIndependentExactlyOnBlocks | eval/evaluator.py:204-230 | nothing is left over in every order of both lists if and only if some one-to-one compatible pairing uses up both lists and blocks hold |
| Matching.SomeOrderExactlyOnPairing | eval/evaluator.py:212-230 | some order of the lists leaves nothing over if and only if a pairing that uses up both exists at all |
| Scoring.PrintedMoney | eval/evaluator.py:58-69 | parsing printed dollars gives the amount back; equal amounts match, and amounts two or more cents apart do not |
| Readings.FloatExactly | eval/evaluator.py:58-69 | a text of digits, points and minus signs is a number if and only if it is digits with at most one point and at most a leading minus, and then it is the digits' value over the power of ten the point calls for |
| Readings.TextsRead | eval/evaluator.py:63 | any other character may be taken out of a text without changing what it reads as |
| Readings.WithoutDigits | eval/evaluator.py:63-69 | a text without a digit is no number |
| Readings.NormIsWords | eval/evaluator.py:89-90 | a normalized name is its words in small letters with one blank between two, whatever white space stood before, between and after them |
| Scoring.NormIdempotent | eval/evaluator.py:89-97 | normalizing a name that is already normalized changes nothing |
| Scoring.ScalarSymmetric | eval/evaluator.py:155-195 | exchanging truth and value keeps CORRECT and swaps MISSING with EXTRA for numbers, dates and identifiers; a category marks exactly the scores that are not CORRECT |
| Scoring.TextFields | eval/evaluator.py:176-182 | an identifier is CORRECT exactly on an exact match; a descriptive text accepted on a near match is flagged, and one that matches exactly keeps its note |
| Verdicts.PresenceDecides | eval/evaluator.py:155-195 | for every type of field: MISSING exactly when the truth alone says something, EXTRA exactly when the value alone does, CORRECT when neither does; and the score records file, field, confidence and both values |
| Verdicts.NumbersDecide | eval/evaluator.py:171-173 | two numbers are CORRECT exactly when at most 0.01 apart |
| Verdicts.AmountsDecide | eval/evaluator.py:171-173 | amounts in whole cents, as numbers or as printed dollars: CORRECT when equal, INCORRECT when two or more cents apart |
| Verdicts.UnreadableAmount | eval/evaluator.py:141-142 | where either side is no number the verdict is INCORRECT, a format error if it is the extracted one |
| Verdicts.DatesDecide | eval/evaluator.py:174-175 | two dates are CORRECT exactly when the library reads the same from both stripped texts, nothing being read from either included |
| Verdicts.IdentifiersDecide | eval/evaluator.py:176-177 | an identifier is CORRECT exactly when the normalized texts are equal |
| Verdicts.DescriptionsDecide | eval/evaluator.py:178-182 | a descriptive text is CORRECT exactly when the normalized texts are equal, one is within the other, or they are similar in the order truth, value; all but the first add "near-match" to the note |
| Verdicts.CategoryExactly | eval/evaluator.py:131-152 | each category of a wrong score, if and only if the value's readability and the words in the note call for it |
| Verdicts.CompatibleExactly | eval/evaluator.py:213-219 | charge and item are compatible exactly when both amounts are numbers at most 0.01 apart and the normalized names are equal or nearly the same |
| Verdicts.ListVerdict | eval/evaluator.py:232-261 | the category of a charge list follows from what the pairing leaves over, and the note counts what was found and what is extra |
| Scoring.TwoUnreadableDates | eval/evaluator.py:75-86 | "n/a" extracted where the truth says "tbd" is CORRECT for a date |
| Scoring.RemoveItem | eval/evaluator.py:218-221 | `remaining.remove(hit)` takes out the first item equal to the hit and nothing else |
| Scoring.PairUp | eval/evaluator.py:212-226 | the loop's found, missing and remaining charges and its predictions are those of the greedy pairing |
| Scoring.ScoreAccessorials | eval/evaluator.py:203-261 | the method's score and predictions are those the greedy pairing gives rise to |
| Scoring.AccessorialVerdict | eval/evaluator.py:227-261 | CORRECT exactly when both lists are used up, MISSING exactly when nothing was extracted for some charge, a category exactly when not CORRECT, one prediction per item and a right one per pair |
| Calibration.ItemsArePredicted | eval/evaluator.py:220-230 | each extracted item is predicted once with its own confidence, right if paired and wrong if left over; the predicted confidences are the items' as a multiset |
| Scoring.AccessorialsHalfOptimal | eval/evaluator.py:203-230 | the scorer finds at least half of any possible pairing, and all of it where blocks hold |
| Scoring.CorrectInEveryOrder | eval/evaluator.py:203-248 | every order scores CORRECT if and only if some one-to-one compatible pairing uses up both lists and blocks hold |
| Scoring.RegardlessOfOrder | eval/evaluator.py:203-248 | the outcome is the same in every order of both lists if and only if blocks hold or no pairing uses up both lists |
| Scoring.OrderIrrelevantOnBlocks | eval/evaluator.py:203-248 | where blocks hold, no reordering changes the outcome, the category or the reported counts |
| Scoring.OrderCanMatter | eval/evaluator.py:204 | a concrete pair of lists for which the order decides between CORRECT and INCORRECT |
| Evaluation.EvalReport.Predict | eval/evaluator.py:387-391 | a prediction is added to the one bucket that holds it and to the high-confidence count, keeping every counter in agreement with the predictions seen |
| Evaluation.EvalReport.Fold | eval/evaluator.py:443-463 | one more field score keeps every aggregate in agreement with the scores seen |
| Evaluation.EvalReport.ScoreDocument | eval/evaluator.py:399-441 | one document contributes its own scores, predictions, overconfidence entries and failure line, and nothing else |
| Evaluation.Evaluate | eval/evaluator.py:394-473 | the finished report is the tally of all documents' scores and predictions |
| Calibration.ClaimsAddUp | eval/evaluator.py:411-438 | in any range of confidences, the right predictions of a run are its right asserted scalars and its paired items, the wrong ones its wrong asserted scalars and the items left over |
| Calibration.BucketsHoldClaims | eval/evaluator.py:378-391 | which of them each bucket counts: from 0.90 to 1.01, from 0.70, from 0.50, and all the others |
| Calibration.ConfidentClaims | eval/evaluator.py:419-432 | the high-confidence count is of those stated with 0.85 or more |
| Reports.DocumentScored | eval/evaluator.py:399-441 | a document is scored field by field in order; a failed one is MISSING in each, as a model error |
| Reports.OneDocument | eval/evaluator.py:399-471 | the failure line and the document result of a single document, from which reports of more are put together |
| Reports.OverconfidenceExactly | eval/evaluator.py:433-438 | the overconfidence entries are exactly the wrong values asserted with 0.85 or more, each with what was extracted and what is true |
| Reports.AverageBetween | eval/evaluator.py:458-460 | a field's average confidence lies between the least and the greatest stated for it |
| Conservation.Conserved | eval/evaluator.py:394-473 | per field correct + wrong + missing = total; fields, documents, failure modes and buckets all add up to the overall counters; confident errors are the overconfidence entries plus the items that the pairing leaves over and that were extracted with 0.85 or more |
| Conservation.Compositional | eval/evaluator.py:394-473 | the report of two batches together is the counter-by-counter merge of their reports |
| Conservation.OrderFree | eval/evaluator.py:394-473 | reordering the documents changes no counter and only reorders the lists |
| Gate.RunGate | eval/run_corpus_eval.py:123-132 | the exit code is 0 if and only if no required field was wrong at a confidence of 0.85 or more, some required field is configured and each that is was scored and right nine times in ten, 17 in 20 of all fields are right, and 17 in 20 of what was claimed with 0.85 or more |
| Gate.GateIsOrderFree | eval/evaluator.py:329-352 | the verdict does not depend on the order of the documents |
| Gate.GateIsMonotone | eval/evaluator.py:329-352 | making wrong scalar fields right, with any confidence, never turns a passing run into a failing one |
| Gate.GateBoundsFailures | eval/evaluator.py:329-352 | a passing run is not empty and at most one document in ten failed extraction |
| Mock.MockStates | eval/run_corpus_eval.py:60-74 | the mock states what the schema makes of the truth, with confidence 0.99: seven scalar fields, and every true charge in order |
| Mock.MockChargesCorrect | eval/run_corpus_eval.py:67-70 | an accepted charge list whose own amounts read the same after coercion, scored against itself, is CORRECT exactly when every amount can be read, near-matching names or not |
| Mock.MockIsPerfect | eval/run_corpus_eval.py:60-95 | where coercion keeps how the listed documents' own values read: the mock run scores every field CORRECT if and only if, for every listed document, the schema accepts the true values and they can be read; a rejected document fails |
| Mock.MockPassesGate | eval/run_corpus_eval.py:89-95 | a mock run of accepted, readable truth whose own values read the same after coercion passes the gate with no overconfidence |
| Mock.ReadTwoWays | eval/run_corpus_eval.py:60-95 | a document with the total "1e3", accepted by the schema as 1000 and readable, is scored INCORRECT on it |
| PyText.CountedOnceIsUniqueExactlyWithoutOverlap | scripts/mutate_phase6_observation.py:155-159 | a count of one means one occurrence, in every text, if and only if the anchor does not overlap itself |
| PyText.CountedOnceExactly | scripts/mutate_phase6_observation.py:155-159 | a non-empty anchor counts once if and only if it occurs and every occurrence starts within the first one; an empty one only in an empty text |
| PyText.ReplaceFirstAtAnchor | scripts/mutate_phase6_observation.py:165-172 | a text whose anchor counts once is rewritten at that anchor only, and then shows the new text |
| Harness.Tree.RunEdits | scripts/mutate_phase6_observation.py:146-192 | the files are as found on every exit, raising guards included; CAUGHT, MISS and raising each if and only if anchors, no-ops and the guard's answers on the original and the mutant call for it, so never CAUGHT for edits that cancel out; never RESTORE-RED; the disks on the way are, in order, the growing beginnings of the write order mutated and then the shrinking ends, and none at all unless the mutant is written |
| Harness.MutateTexts | scripts/mutate_p9_freight_domain.py:329-336 | editing the snapshots in memory, replacing or appending, gives the mutant, or stops at the first edit that changes nothing |
| PerEdit.RunEditsPerEdit | scripts/mutate_phase6_work_item.py:450-482 | what this variant leaves in the files, for any edit list; and CAUGHT, MISS, RESTORE-RED and raising each if and only if the guard's answers on the files as found, as edited and as left call for it |
| PerEdit.RestoresOnlyDistinctPaths | scripts/mutate_phase6_work_item.py:464-478 | with at most two edits a file, the files come back if and only if nothing was written or the edited paths are pairwise distinct |
| PerEdit.RestoresExactly | scripts/mutate_phase6_work_item.py:464-478 | for any edit list: the files come back if and only if nothing was written or each file has at most one edit, or at least three of which all but the last cancel out; never with exactly two |
| PerEdit.TwiceEditedIsNotRestored | scripts/mutate_phase6_work_item.py:464-478 | a file edited exactly twice is left mutated |
| PerEdit.CaughtYetNotRestored | scripts/mutate_phase6_work_item.py:464-482 | a concrete edit list that is reported CAUGHT and leaves its file mutated |
| PerEdit.ThriceEditedCanComeBack | scripts/mutate_phase6_work_item.py:464-478 | three edits of one file, the second undoing the first, leave it as found |
| PerEdit.MutantIsApplied | scripts/mutate_phase6_work_item.py:464-470 | rewriting the disk edit by edit builds the same mutant as editing in memory |
| PerEdit.AgreesOnDistinctPaths | scripts/mutate_phase6_work_item.py:450-482 | with pairwise distinct paths, whatever the guard does, it restores, and it reports what the snapshot-once battery does if and only if no guard raises on a no-op list or hits a run-time fault on the mutant |
| PerEdit.CaughtAlike | scripts/mutate_phase6_work_item.py:450-482 | with pairwise distinct paths it restores and says CAUGHT for the same edits as the snapshot-once battery |
| PerEdit.WorkItemMain | scripts/mutate_phase6_work_item.py:490-500 | for any cases: each starts from what the one before it left, the first that raises ends the run, and otherwise the exit code is 0 exactly when every case is CAUGHT |
| PerEdit.DistinctBatteryAgrees | scripts/mutate_phase6_work_item.py:490-500 | where no case edits a file twice, the battery restores the files and its exit code is 0 for the same cases as the snapshot-once battery's |
| Battery.RunCases | scripts/mutate_phase6_observation.py:195-196 | the files are as found before and after every case, and the verdicts are the ones each case calls for |
| Battery.AllCaughtExactly | scripts/mutate_phase6_observation.py:195-204 | all cases are CAUGHT if and only if each case's mutant is written and turns its guard from passing to failing |
| Battery.ObservationMain | scripts/mutate_phase6_observation.py:195-204 | exit code 0 if and only if every case is CAUGHT |
| Battery.FreightMain | scripts/mutate_p9_freight_domain.py:369-379 | exit code 0 if and only if every case is CAUGHT and there is one |
| Battery.RuleMain | scripts/mutate_phase6_rule.py:370-391 | refuses on residue, and otherwise exit code 0 if and only if every case is CAUGHT and the control is green |
| Stranding.StrandingsRefusedExactly | scripts/mutate_phase6_rule.py:52-66 | every state a case can be killed in, other than the pristine one, is refused by the next run if and only if the case never writes its mutant, or the first and the last file it changes, in write order, hold the sentinel |
| Stranding.PhasesShowExactly | scripts/mutate_phase6_rule.py:327-355 | for any mutant and write order: every state on the way that differs from the one as found shows the sentinel if and only if the first and the last changed file in that order hold it |
| Stranding.UnmarkedIsMissed | scripts/mutate_phase6_rule.py:52-66 | a concrete case without the sentinel, under any guard that passes first, that, killed after its write, leaves a changed tree the next run takes for pristine |
| Recovery.HealingIsSafe | scripts/mutate_phase6_compensation.py:68-100 | from any disk: healing returns exactly when every target that differs from its committed text carries a mark, then no target differs, and nothing else is ever changed |
| Recovery.StrayRecovers | scripts/mutate_phase6_compensation.py:47-100 | purging the shadow and healing turns any marked stray checkout back into the clean one |
| Recovery.CrashStatesAreStray | scripts/mutate_phase6_compensation.py:386-431 | any state a case is killed in is such a stray checkout, if every file that the mutant it writes changes is a committed target holding a mark |
| Recovery.CrashStatesRecoverExactly | scripts/mutate_phase6_compensation.py:47-100 | every state a case can be killed in recovers the clean start if and only if each file changed by the mutant it writes, if it comes to write one, is a committed target holding a mark |
| Recovery.MarkedLeavesMarks | scripts/mutate_phase6_compensation.py:57 | a case all of whose replacements carry a mark and edit committed targets is of that kind |
| Recovery.RunShim | scripts/mutate_phase6_compensation.py:434-463 | the machine and the missing shadow are restored on every exit; CAUGHT if and only if the guard passes without the shim and fails with it, MISS if and only if it passes both times; and every disk on the way can be recovered |
| Recovery.CompensationMain | scripts/mutate_phase6_compensation.py:466-483 | from any checkout: refuse if and only if one of the three mutable files holds unmarked work of its own, otherwise end with those three at their committed text; exit code 0 if and only if healing succeeds and every case and the shim turn their guards from passing to failing; from any stray one: end clean, and killed at any write, stay recoverable |
| Regeneration.RunTextCase | scripts/mutate_phase5_contracts.py:330-371 | the mutated script and the regenerated data file are both as found on every exit; CAUGHT, MISS and raising each if and only if the guard's answers on the original and on the mutant with its derived data call for it |
| Regeneration.ContractsMain | scripts/mutate_phase5_contracts.py:374-387 | files as found, the data file included; exit code 0 if and only if every case is CAUGHT, broken off if and only if one raises |
| Regeneration.OnlyRegeneratedDataShows | scripts/mutate_phase5_contracts.py:312-325 | under a guard that reads only the data file, CAUGHT needs a mutated generator that derives different data |
| Epoch.Apply | scripts/mutate_p8_policy_epoch.py:147-157 | the edits are applied in turn, each anchor counted in the text as it then stands |
| Epoch.EpochMain | scripts/mutate_p8_policy_epoch.py:130-180 | files as found whatever happens; 0 if and only if every guard passes on them and every case's mutant is made and fails its guard; broken off if and only if a guard raises on them before any fails, or all pass and one raises on a mutant; 1 otherwise |
| Epoch.ZeroExactly | scripts/mutate_p8_policy_epoch.py:130-180 | exit code 0 if and only if every guard passes before any mutation and every case then applies and fails its guard, so never with a case whose edits cancel out |
| Epoch.AgreesWithSnapshotOnce | scripts/mutate_p8_policy_epoch.py:147-163 | with pairwise distinct paths a case counts here and has no no-op exactly when the snapshot-once battery says CAUGHT |
| Splitter.SplitTopLevel | scripts/generate_event_contracts.py:68-97 | the loop's parts are the stripped, non-blank stretches between the separators outside everything |
| Splitter.JoinOfRawParts | scripts/generate_event_contracts.py:68-97 | the unstripped parts joined by the separator are the text |
| Splitter.PartsCountCuts | scripts/generate_event_contracts.py:68-97 | there is exactly one part more than there are separators met with the scanner neutral |
| Splitter.OnePartIffUncut | scripts/generate_event_contracts.py:68-97 | a text is one part if and only if none of its separators is met with the scanner neutral |
| Nesting.CutsExactly | scripts/generate_event_contracts.py:79-93 | a comma cuts if and only if the backticks before it are even in number and, among the characters outside backticks, no ending of what stands before it opens more parentheses, or more braces, than it closes |
| Splitter.SplitAppend | scripts/generate_event_contracts.py:68-97 | splitting a + separator + b is splitting a and b, whenever scanning a ends neutral |
| Splitter.PartsAreStable | scripts/generate_event_contracts.py:68-97 | every part splits again into itself alone |
| Splitter.SplitOfJoin | scripts/generate_event_contracts.py:68-97 | splitting joined balanced terms gives the terms back |
| Payload.ParsePayload | scripts/generate_event_contracts.py:311-414 | the loop's fields and groups are those of the cell's terms in order, and a name declared twice is refused |
| Spellings.TokenRead | scripts/generate_event_contracts.py:342-346 | the token is what stands between the first backticks that hold anything, prose before them does not matter, and what follows is the annotation |
| Spellings.EmptyTicks | scripts/generate_event_contracts.py:342-344 | two backticks with nothing between them delimit nothing, and the second may start a token |
| Spellings.NoToken | scripts/generate_event_contracts.py:342-344 | a term with fewer than two backticks has no token |
| Spellings.FieldSpelled | scripts/generate_event_contracts.py:355-408 | a declaration without bars, with any blanks, question marks, brackets and bound, is the field it spells if a name stands in its place, and nothing otherwise |
| Spellings.EveryDeclaration | scripts/generate_event_contracts.py:356-372 | every declaration without bars that is more than blanks and question marks is spelled so |
| Spellings.ValuesSpelled | scripts/generate_event_contracts.py:362-365 | any number of braces on either side of a list of values come off |
| Spellings.ValuesExactly | scripts/generate_event_contracts.py:362-365 | commas separate values, blanks around a value come off, and what is blank is no value |
| Groups.GroupSpelled | scripts/generate_event_contracts.py:348-354 | names between bars, escaped or not, decorated and spaced as one likes, make a group if there are two, required if and only if it holds no question mark; what spells no name is left out |
| Payload.RefusedExactly | scripts/generate_event_contracts.py:409-413 | a cell is refused if and only if two of its terms declare fields of one name |
| Grammar.PayloadRoundTrip | scripts/generate_event_contracts.py:311-414 | parsing a printed list of declarations and annotations gives back its fields and groups in order, or refuses a name declared twice |
| Annotations.AnnotationsDeclareNothing | scripts/generate_event_contracts.py:326-329 | balanced annotations after any terms, prose terms included, whatever names they mention, leave the result unchanged unless they mark a value or bring a backtick to a prose term |
| Emphasis.EmphasisDeclaresNothing | scripts/generate_event_contracts.py:63-65 | writing the two emphasis marks anywhere in a cell, any number of times, does not change what it means |
| Emphasis.OnlyMarksAreDropped | scripts/generate_event_contracts.py:63-65 | without either mark a text is only stripped: single asterisks and pairs of hashes stay |
| Annotations.FixedMarkedExactly | scripts/generate_event_contracts.py:384-399 | a fixed value is read if and only if the text holds a backtick, blanks, `=`, blanks, a word starting with a letter, blanks and a backtick; it is the word of the leftmost such mark |
| Annotations.EnumMarkedExactly | scripts/generate_event_contracts.py:378-383 | an enum is read if and only if the text holds the enum sign, blanks and braces; it holds the values of the leftmost such mark |
| Annotations.FormulaIsReadAsValue | scripts/generate_event_contracts.py:384-399 | a word between `=` and the next quoted name, after another quoted name, is read as a fixed value |
| Annotations.ProseIsUnmarked | scripts/generate_event_contracts.py:384-399 | without an enum sign, a text that does not both quote with backticks and write `=` marks nothing |
| Annotations.EnumMarkerRead | scripts/generate_event_contracts.py:378-383 | an annotation's enum marker is read with all its values |
| Annotations.FixedMarkerRead | scripts/generate_event_contracts.py:396-399 | an annotation's backticked fixed value is read |
| Producers.ExpandProducers | scripts/generate_event_contracts.py:134-170 | the loop's ids are the expanded tokens, filtered, each where first seen |
| Producers.ExpansionIsClean | scripts/generate_event_contracts.py:134-170 | the result has no duplicate and no GR id, and holds exactly the transition ids among the expanded ones |
| Producers.ExpansionKeepsOrder | scripts/generate_event_contracts.py:154-170 | the result is in first-seen order |
| Producers.AbbreviationExpands | scripts/generate_event_contracts.py:134-153 | leaving out repeated prefixes, anywhere, expands to what the fully prefixed list does |
| Producers.AbbreviationInAnyList | scripts/generate_event_contracts.py:134-153 | the same for lists with runs of slashes, commas and white space before, between and after the ids, which come back in full |
| Mentions.CellExpands | scripts/generate_event_contracts.py:134-153 | any list of ids that may go on in prose, bare numbers and prose tokens, however separated: an id counts and sets the prefix, a number takes the last prefix, anything else adds nothing and keeps the prefix |
| Mentions.EveryCellExpands | scripts/generate_event_contracts.py:134-170 | every cell is such a list: it expands to the ids it mentions, each once, but for those under GR |
| Mentions.ConflictProducers | docs/specifications/events/registry.md:100 | the registry's own cell in which an id goes on in prose keeps all three ids |
| Producers.ExpandIsIdempotent | scripts/generate_event_contracts.py:134-170 | expanding the joined result returns the result |
| Numerals.DollarsRoundTrip | scripts/generate_realistic_corpus.py:91-100 | dropping all but digits, points and minus signs from a printed amount, of any length, and reading it gives the amount |
| Numerals.GroupedInThrees | scripts/generate_realistic_corpus.py:99-100 | counted from the end, every fourth character of the whole dollars is a comma and all the others are digits |
| Numerals.PrintedThroughFloat | scripts/generate_realistic_corpus.py:99-100 | printing through any float less than half a cent off the amount prints the same text, and reading it gives the amount |
| Corpus.BuildLoads | scripts/generate_realistic_corpus.py:158-241 | the loop's loads are the ones defined by number and by the load before |
| Corpus.BilledAgainstRate | scripts/generate_realistic_corpus.py:194-238 | MATCHED and NEEDS_REVIEW bill exactly the rate, a VARIANCE 300.00, 125.00 or 200.00 over it by scenario, a DUPLICATE 175.00 over it |
| Expectations.LoadByNumber | scripts/generate_realistic_corpus.py:158-241 | outcome, charges, reasons and written numbers of any load follow from its number mod 9; its carrier, line haul, and fuel to the nearest cent, from its draw, or for a duplicate from the one before |
| Corpus.NoAuthorizedDetention | scripts/generate_realistic_corpus.py:220-224 | the authorized detention charge is never billed |
| Corpus.LoadIdsDistinct | scripts/generate_realistic_corpus.py:168 | load ids are pairwise distinct |
| Corpus.InvoiceNumbersShared | scripts/generate_realistic_corpus.py:226-237 | two loads share an invoice number if and only if they are numbers 9k + 6 and 9k + 7 |

## Left out

- Floating point: confidences, accuracies, tolerances and amounts are exact reals, so rounding at 0.85 or 0.90 is not modelled; nor is the rounding of a confidence to two digits in an overconfidence entry, nor a negative zero in printed dollars.
- Scoring.PrintedMoney: leaves amounts exactly one cent apart open; the source compares floats, and `abs(0.04 - 0.03) <= 0.01` is false.
- Numerals.DollarsRoundTrip: amounts are exact; Numerals.PrintedThroughFloat says how far off the source's float may be.
- Unicode: text is ASCII; white space, case and digits outside it are not modelled, nor encodings and newline translation.
- The similarity measure and the date formats are arbitrary functions (`Scoring.Oracle`); nothing is assumed of them.
- Mock.MockIsPerfect: schema validation is an arbitrary function that accepts or rejects each value, assumed only not to change how the accepted values of the listed documents themselves read; `Mock.ReadTwoWays` shows the assumption is needed. The message of a rejected document is not modelled.
- Extractions other than mock ones are given as an input: scalar fields and charge lists in two maps. A missing producer cell is the empty string.
- Evaluation.Evaluate: requires "accessorials" among the field names when some field is a list, because the source looks that name up whatever the field is called and otherwise raises.
- Buckets, field statistics, charges and loads are records kept as values in the report's fields; aliasing between them is not captured. Some long functions of the source are several methods here.
- Guards are functions of the files, so flaky guards, bytecode caches, torn writes and a restore that itself fails are not modelled; the "byte-for-byte restore FAILED" exits are therefore never taken.
- Labels, notes, printed reports and JSON output; the shipped case lists, over which everything is quantified instead.
- Epoch.EpochMain: the order in which the source sorts its guards is an input.
- Grammar.PayloadRoundTrip: the printed enum members and fixed values are trimmed and hold no backtick, bar or emphasis mark; members hold no comma and the outermost are not braces at their ends, and a fixed value holds no enum sign and does not end in `?`. Other texts are not printed; asterisks and hashes that are not emphasis marks are not covered.
- Annotations.AnnotationsDeclareNothing: terms and annotations hold no asterisk or hash; `Emphasis.EmphasisDeclaresNothing` adds the emphasis marks, other asterisks and hashes are not covered.
- Splitter.SplitAppend: the separator is none of the characters that open something; the source only ever uses a comma.
- Reading markdown tables, merging the canonical lists and rendering the contract file.
- PDF drawing, image degradation, the language-model extraction, argument parsing; customer, route, date and equipment fields of a load, which the random generator chooses freely.
- The state machines, inbox, outbox and replay of the runtime: their source is not part of this model.
