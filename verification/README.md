# A model of undo, attribution and replay in git-stage-batch

This project models the line-level algebra behind "undo this batch" and "who owns this line" in
git-stage-batch, and proves what that algebra promises. Texts are sequences of lines, a line is an
opaque string, and a byte string is a sequence of numbers below 256.

`dafny verify dfyconfig.toml` checks everything.

## Structure

- Undo. `Discard` composes the realized worktree (`RealizedEntries`), the restore records
  (`ReplacementClaims` says what they are; `ReplacementRecords` computes them, with
  `ReplacementGroups`, `SupersededDeletions` and `LegacyReplacements`),
  presence reversal (`DiscardReversal`) and restoration (`DiscardRestoration`). The modules
  `DiscardReversalMeaning` and `DiscardRestorationMeaning` say what each half leaves,
  `DiscardInWorktree` what undo leaves of any worktree, `DiscardLines` what each of its lines
  becomes, `UnitMeaning` which units bring index text back, `DiscardIndexText` what undo takes from
  the index, and `DiscardMeaning` and `DiscardBaseline` what a worktree equal to the batch source becomes.
- Attribution. `FileComparisonUnits` and `AttributionUnits` cut a comparison into units
  (`ComparisonMeaning` says which); `Attribution` decides their owners (`AttributionMeaning` says who).
- Replay. `TextReplay` models the stack of applications; `WordTokens`, `WordInsertions`,
  `WordComposition` and `PrefixComposition` carry added words across a rewrite; `ReplayMeaning` says
  what a rejected application becomes.
- Stored alternatives. `RealizedFileContent` places saved and live versions (`PlacementMeaning` says
  where); `CompletePair` replays a whole saved file.
- Pathnames. `GitPaths` holds the quoting printer, the parser, the token scanner and NUL records;
  `GitPathMeaning` says what quoted text looks like and stands for.
- Shared: `LineRanges`, `Tags`, `LineMatching`, `Ownership`, `MappedRecords`, `Sequences`, `Bytes`, `Wrappers`.

Each algorithm is a method with the loops of the program, proved against a function or predicate
that says what it computes; the lemmas then prove what is promised about that function. Raised
exceptions are `Err` values that keep the kind of error.

## Where the code and its description part

- The run path of reversal tests "preserved" before "structural", the entry path the other way
  round. They agree exactly when the request is refused or no line is both (`PathsAgree`), where
  refusal can be told beforehand (`SucceedsUnlessBlocked`); they do differ (`PathsCanDiffer`).
- Undoing a batch that holds the whole difference gives the baseline exactly when no non-empty old
  text already follows its anchor (`DiscardRestoresBaseline`,
  `DiscardGivesBaselineSide`). Deleting one of two equal lines is the
  case that fails (`EqualLineIsMistaken`).
- Composed words come out as declared unless two insertions land at the end of text that is empty or
  ends in white space; then their words fuse (`ComposedWords`), which does happen (`WordsCanFuse`).
- A batch without source text but with presence claims is not tested against units that only batches
  propose (`EarlyLeaverIsLeftOut`). No hypothesis about identifier collisions is needed otherwise.
- The second sweep over alternatives shares its iterator, so behind nested alternatives it reports
  the target behind the outermost end so far (`NestedSweepMisreports`), exactly when a line between
  the two ends is mapped (`AfterIsOwn`); such a chain is not placed (`ChainsPlacedExactly`).
- Each error the group split can raise after the bounds were found is unreachable (`SplitGroup`).

## Model

| member | source | states |
|---|---|---|
| `DiscardInWorktree.UndoInWorktree` | src/git_stage_batch/batch/discard.py:519-722 | Any batch, any worktree matched one to one with the batch source: undo stops for a line that cannot be taken out, for a live replacement whose standing neighbours are not next to each other, and for a text pushed past the end; otherwise every worktree line leaves its own emission, in worktree order, with each missing old text at its place |
| `DiscardInWorktree.InsertionsAreTakenOut` | src/git_stage_batch/batch/discard.py:519-722 | A batch of pure insertions: undo leaves exactly the worktree lines, in order, where no owned source line stands |
| `DiscardInWorktree.LineIsFound` | src/git_stage_batch/batch/discard.py:1910-1960 | After reversal a source line is found, right behind its own worktree line, if and only if it stands in the worktree and undo does not take it out |
| `DiscardInWorktree.SurvivorsStand` | src/git_stage_batch/batch/discard.py:1531-1577 | The lines that count as surviving neighbours are exactly those that still stand once undo has taken its lines out |
| `DiscardInWorktree.LiveLinesGo` | src/git_stage_batch/batch/discard.py:1404-1414 | An owned line counts as live if and only if it stands in the worktree and undo takes it out |
| `DiscardLines.OtherLineStays` | src/git_stage_batch/batch/discard_reversal.py:189-224 | A worktree line stays as it is where no source line stands, or one that is preserved, or one that is neither owned nor inherited |
| `DiscardLines.InheritedLineGoes` | src/git_stage_batch/batch/discard_reversal.py:209-219 | An inherited line that is not preserved leaves nothing |
| `DiscardLines.LineWithoutRegion` | src/git_stage_batch/batch/discard_reversal.py:88-96 | An owned line in no region cannot be taken out |
| `DiscardLines.LineInRegion` | src/git_stage_batch/batch/discard_reversal.py:98-116 | An owned line of an insertion leaves nothing; one of a line-by-line region leaves the baseline line at its offset, and cannot be taken out past the region |
| `DiscardLines.LineInHunk` | src/git_stage_batch/batch/discard_reversal.py:118-184 | An owned line of a by-hunk region just goes where it is independent or restored apart; otherwise undo stops unless the whole region is owned and meets no trusted line, and the first worktree line that calls for it leaves the whole old text, the others nothing |
| `DiscardLines.UntrustedIsRefused` | src/git_stage_batch/batch/discard_reversal.py:68-69 | Undo refuses an independent line that is not trusted |
| `DiscardIndexText.GroupIsReplaced` | src/git_stage_batch/batch/discard.py:1121-1385 | Undo of a group in any worktree: its lines go, and between its two source neighbours, now next to each other, stand exactly the index lines between the index images of those neighbours, in place of shares that stand there already |
| `DiscardIndexText.SliceComesBack` | src/git_stage_batch/batch/discard.py:1992-2150 | Old texts that share one slice of the index behind one line: undo puts exactly that slice there |
| `DiscardMeaning.DiscardMeetsItsMeaning` | src/git_stage_batch/batch/discard.py:666-714 | Worktree equal to the source; each owned line inserted, or in a by-hunk region and restored apart; each unit couples one old text with the owned lines behind its anchor; one free anchor per old text: undo gives exactly the source without the owned lines and with each missing old text right after its anchor |
| `DiscardBaseline.DiscardRestoresBaseline` | src/git_stage_batch/batch/discard.py:519-722 | A batch that holds the whole difference: undo gives the baseline if and only if no non-empty old text already follows its anchor among the lines that stay |
| `DiscardBaseline.DiscardGivesBaselineSide` | src/git_stage_batch/batch/discard.py:519-722 | A batch that takes every unequal region, replacements with one coupled old text each: undo gives the baseline side of all regions if and only if no non-empty old text already follows its anchor |
| `DiscardBaseline.OtherSideIsBaseline` | src/git_stage_batch/batch/merge/baseline_correspondence.py:24-48 | Taking the owned lines out and putting every old text back turns the source into the baseline side of its regions |
| `DiscardBaseline.EqualLineIsMistaken` | src/git_stage_batch/batch/discard.py:1963-1975 | The concrete case that fails: one of two equal neighbouring lines was deleted, and the line that stays is taken for the deleted one |
| `DiscardBaseline.ReplacementIsUndone` | src/git_stage_batch/batch/discard.py:519-722 | A line replaced by another and coupled by a unit meets those hypotheses, and undo puts the old line back |
| `DiscardBaseline.CoupledLinesAreApart` | src/git_stage_batch/batch/discard.py:1498-1512 | Where every unit couples one old text with owned lines, the lines of each live unit are restored apart |
| `DiscardMeaning.PlainReversal` | src/git_stage_batch/batch/discard_reversal.py:38-254 | Under the same hypotheses, reversal leaves exactly the lines that are not owned |
| `DiscardMeaning.PlainUndoRecord` | src/git_stage_batch/batch/discard.py:1254-1528 | Under the same hypotheses, each restore record is empty, or live without neighbours, or live between the neighbours of a coupling unit |
| `DiscardMeaning.CoupledPlace` | src/git_stage_batch/batch/discard.py:2004-2046 | Between the neighbours of its unit, a coupled old text belongs right behind its anchor, and its neighbours are never torn apart |
| `DiscardMeaning.PlainUndoIsRestorable` | src/git_stage_batch/batch/discard.py:1310-1385 | Without replacement units, and under the hypotheses above, undo never stops for an unlocated replacement |
| `Discard.DiscardBatch` | src/git_stage_batch/batch/discard.py:519-722 | One undo is the restore records and ranges that the claims call for, then presence reversal of the realized worktree, then restoration; it fails at once when a replacement cannot be located |
| `Discard.RestorePlanIsUnique` | src/git_stage_batch/batch/discard.py:1254-1528 | The claims of a batch determine the restore records and the ranges restored apart completely |
| `Discard.AppendWorkingRangeWithMapping` | src/git_stage_batch/batch/realization/mapping.py:21-80 | Cutting the worktree into provenance runs loses nothing: decoded, they give every line its own source line, target line and claim |
| `Discard.WorkingLineComesFrom` | src/git_stage_batch/batch/realization/mapping.py:21-80 | With inverse mappings, a worktree line comes from a source line if and only if that line is mapped to it, and is claimed if and only if a claimed line is |
| `DiscardReversal.ReverseByRuns` | src/git_stage_batch/batch/discard_reversal.py:189-224 | The run path, with range intersection and batched copies, computes the left-to-right reading of the entries with the preserved exemption first, or its error |
| `DiscardReversal.ReverseByEntries` | src/git_stage_batch/batch/discard_reversal.py:225-250 | The entry path computes the same reading with the structural exemption first, or its error |
| `DiscardReversal.ReverseRun` | src/git_stage_batch/batch/discard_reversal.py:190-219 | Reversing one run moves the output from its first entry to behind its last, or stops with the error of the reading |
| `DiscardReversal.ReverseEntry` | src/git_stage_batch/batch/discard_reversal.py:226-243 | Reversing one entry does the same for that entry |
| `DiscardReversal.RestoreSourceLine` | src/git_stage_batch/batch/discard_reversal.py:87-184 | The baseline text that replaces one removed line, by kind of region, with all its error cases |
| `DiscardReversalMeaning.PathsAgree` | src/git_stage_batch/batch/discard_reversal.py:189-250 | Both paths give the same result if and only if the request is refused beforehand (an untrusted independent line, or an entry that cannot be removed) or no entry is structural and preserved at once |
| `DiscardReversalMeaning.SucceedsUnlessBlocked` | src/git_stage_batch/batch/discard_reversal.py:87-250 | For any worktree, reversal succeeds if and only if no entry comes from a blocked line: no region, past its region, or a by-hunk region partly owned or meeting a trusted line |
| `DiscardReversalMeaning.PathsCanDiffer` | src/git_stage_batch/batch/discard_reversal.py:209-235 | A one-line worktree, its line owned, structural and preserved, on which the two paths differ |
| `DiscardReversalMeaning.FullOwnershipRestoresBaseline` | src/git_stage_batch/batch/discard_reversal.py:87-184 | Every source line owned and worktree equal to the source: the output is all regions' baseline lines in source order |
| `DiscardReversalMeaning.WorktreeReversal` | src/git_stage_batch/batch/discard_reversal.py:87-250 | Whatever the worktree holds, reversal succeeds if and only if no entry comes from a blocked line, and then writes a closed-form text per entry, each hunk where its region is first called for |
| `DiscardReversalMeaning.HunksAreWhole` | src/git_stage_batch/batch/discard_reversal.py:118-184 | Each by-hunk region's old text appears at most once, only for wholly owned regions without trusted lines, and never as a part |
| `DiscardReversalMeaning.CalledHunksArrive` | src/git_stage_batch/batch/discard_reversal.py:146-184 | A removed line that calls for its hunk leaves exactly one copy of that hunk in the output |
| `DiscardReversalMeaning.OutputIsRendered` | src/git_stage_batch/batch/discard_reversal.py:72-85 | The output is what the pieces render to, one piece for each entry read |
| `BaselineCorrespondence.GetRegionForSourceLine` | src/git_stage_batch/batch/merge/baseline_correspondence.py:48-59 | Binary search finds the region that holds a line, and no region exactly when none does |
| `BaselineCorrespondence.RegionIsUnique` | src/git_stage_batch/batch/merge/baseline_correspondence.py:42-59 | In ordered regions a line has one region |
| `Realized.RealizedEntries.AppendLineRange` | src/git_stage_batch/batch/realization/entry_storage.py:101-141 | Appends lines with linear provenance; merging runs does not change what the entries are |
| `Realized.RealizedEntries.CopyProvenanceSlice` | src/git_stage_batch/batch/realization/entry_storage.py:216-242 | Copies a slice of another collection's provenance over given content, run by run |
| `Realized.AppendRunExtends` | src/git_stage_batch/batch/realization/provenance.py:81-168 | The run table decodes to the old provenance followed by the new run, merged or not |
| `Realized.DecodeAt` | src/git_stage_batch/batch/realization/provenance.py:170-179 | A run decides the provenance of every position it covers |
| `DiscardRestoration.RestoreAbsenceConstraints` | src/git_stage_batch/batch/discard.py:1978-2162 | Restoration through the sorted boundary index returns the planned splice, its error, or the very input exactly when nothing is to be inserted |
| `DiscardRestoration.PlanInsertions` | src/git_stage_batch/batch/discard.py:2054-2104 | Planning claim by claim, with the offset behind the last anchor, gives the specified insertions or the first error |
| `DiscardRestoration.ReplacementRestoreBoundary` | src/git_stage_batch/batch/discard.py:2004-2046 | The boundary between two recorded source lines, by all combinations of present, missing and ambiguous lines |
| `DiscardRestoration.Splice` | src/git_stage_batch/batch/discard.py:2105-2157 | Copying between sorted insertions from one joined buffer gives the specified splice, or fails for a boundary past the end |
| `DiscardRestoration.BuildSourceBoundaryIndex` | src/git_stage_batch/batch/discard.py:1872-1891 | Indexing run by run gives the sorted records of all realized source lines |
| `DiscardRestoration.FirstSourceBoundaryRecord` | src/git_stage_batch/batch/discard.py:1894-1907 | Binary search finds the first record on or after a line |
| `DiscardRestoration.IndexedBoundaryAfterSourceLine` | src/git_stage_batch/batch/discard.py:1910-1960 | One pass over a line's records decides found, missing, or ambiguous among claimed or unclaimed occurrences |
| `DiscardRestoration.IndexFindsLine` | src/git_stage_batch/batch/discard.py:1872-1960 | Looking a line up in the sorted index gives its occurrences in entry order |
| `DiscardRestorationMeaning.SharedAnchorRestores` | src/git_stage_batch/batch/discard.py:2059-2150 | Claims on one anchor, present or missing in any mix: the text behind the anchor becomes their old contents in recorded order, in place of those found there one behind the other |
| `DiscardRestorationMeaning.SecondPassInsertsNothing` | src/git_stage_batch/batch/discard.py:2059-2150 | Restoring the restored entries again changes nothing |
| `DiscardRestorationMeaning.RestorationKeepsEntries` | src/git_stage_batch/batch/discard.py:2105-2157 | Without the inserted lines the result is the input, provenance included |
| `DiscardRestorationMeaning.RestoreWeaves` | src/git_stage_batch/batch/discard.py:2054-2157 | Any claims: every missing text is inserted at its own boundary, pushed behind texts of its anchor that are there, those of one boundary in recorded order, and nothing else changes; it fails if and only if a text belongs past the end |
| `DiscardRestorationMeaning.RecordedTextStands` | src/git_stage_batch/batch/discard.py:1992-2005 | A claim alone at a boundary where its text is missing: exactly the recorded index lines stand there afterwards where its record says so, and its own old lines otherwise |
| `DiscardRestorationMeaning.AnchoredClaimLands` | src/git_stage_batch/batch/discard.py:2048-2064 | A claim without a moving record lands behind its one realized anchor |
| `DiscardRestorationMeaning.UniqueAnchorResolves` | src/git_stage_batch/batch/discard.py:1910-1960 | A line realized once is found, claimed or not |
| `SupersededDeletions.SupersededReplacementDeletions` | src/git_stage_batch/batch/discard.py:1635-1741 | For any hash functions, the sorted fingerprint index flags a deletion if and only if it is no live version and some unit with it holds a live version of equal reference and content |
| `SupersededDeletions.FindRepeat` | src/git_stage_batch/batch/discard.py:1691-1733 | The scan over equal identities finds a repeat if and only if there is one, whatever collides |
| `SupersededDeletions.FirstIdentityRecord` | src/git_stage_batch/batch/discard.py:1615-1632 | Binary search finds the first record whose identity is not smaller |
| `SupersededDeletions.CachedFingerprint` | src/git_stage_batch/batch/discard.py:1590-1603 | A cached digest is the content's digest |
| `ReplacementGroups.GroupRestoreBounds` | src/git_stage_batch/batch/discard.py:1121-1251 | A group is authorized if and only if its units chain in source and baseline inside the index preimage; its bounds are the index slice between its neighbours |
| `ReplacementGroups.SplitGroup` | src/git_stage_batch/batch/discard.py:1336-1384 | The slice is split consecutively among the group's deletions; the two later ambiguity errors cannot occur |
| `ReplacementGroups.GroupDeletionsDistinct` | src/git_stage_batch/batch/discard.py:1146-1210 | The deletion indices of an authorized group are pairwise different |
| `ReplacementGroups.SliceHasRoom` | src/git_stage_batch/batch/discard.py:1212-1251 | The slice holds exactly the group's old line count and lies inside the index text |
| `UnitMeaning.GroupIsAuthorized` | src/git_stage_batch/batch/discard.py:1121-1210 | A group is authorized if and only if each unit names one old text, which stood behind a known baseline line, and just the lines of one stretch in the index preimage; each stretch and each old text goes on where the one before ends; and source lines lie on both sides |
| `UnitMeaning.ExactIs` | src/git_stage_batch/batch/discard.py:1414-1437 | A unit is exact if and only if it names one old text and just the lines of one stretch in the index preimage, with as many old and new lines as the region it was cut from |
| `UnitMeaning.OverrunIs` | src/git_stage_batch/batch/discard.py:1400-1413 | A live unit overruns the source if and only if its lines are one stretch that goes past the source and one of them stands in the worktree |
| `DiscardIndexText.GroupSliceLies` | src/git_stage_batch/batch/discard.py:1212-1251 | A group is located at a slice if and only if its lines stand alone and verbatim between their neighbours in the worktree, none of them in the index, and the slice is what lies between the index images of those neighbours, as long as the old texts |
| `DiscardIndexText.ExactSliceLies` | src/git_stage_batch/batch/discard.py:1015-1118 | A complete replacement stands for a slice if and only if its reference is its origin's, its lines are anchored and stand verbatim between their neighbours, and the slice lies between the index images of those neighbours |
| `ReplacementRecords.SurvivingSourceNeighborLines` | src/git_stage_batch/batch/discard.py:1531-1577 | The two sweeps record the nearest surviving source line on each side of every line |
| `ReplacementRecords.RestoreGroups` | src/git_stage_batch/batch/discard.py:1309-1385 | The group loop gives every deletion the share of the last group that names it, collects exactly the lines of the groups, and fails if and only if an authorized group has no bounds |
| `ReplacementRecords.JudgeUnit` | src/git_stage_batch/batch/discard.py:1396-1462 | One unit's flag, index slice and neighbours, and its failure exactly when its index text is lost or it overruns the source |
| `ReplacementRecords.RestoreUnit` | src/git_stage_batch/batch/discard.py:1387-1512 | Recording one unit gives every deletion what the units so far make of it, and adds the unit's lines exactly when it is live and some text it names comes back |
| `ReplacementRecords.ReplacementDeletionRestoreRecords` | src/git_stage_batch/batch/discard.py:1254-1528 | Every deletion ends with the slice of its last exact unit, else its share of its last group, else the neighbours of its last live unit, else no text; exactly the declared lines are restored apart; undo fails if and only if a group or unit cannot be restored |
| `ReplacementRecords.VerdictApplies` | src/git_stage_batch/batch/discard.py:1465-1490 | Applying a verdict to a record gives what one more unit makes of the deletion |
| `ReplacementRecords.LegacyDecides` | src/git_stage_batch/batch/discard.py:1515-1522 | The legacy scan completes the records of exactly the deletions that no unit names |
| `ReplacementRecords.SpansAreApart` | src/git_stage_batch/batch/discard.py:1498-1523 | The collected ranges, normalized, hold exactly the lines of groups, of live units with text to put back, and behind uncoupled live deletions |
| `ReplacementClaims.RecordsFit` | src/git_stage_batch/batch/discard.py:1336-1384 | Every recorded index slice lies inside the index text |
| `ReplacementClaims.FinalRecordsAreUnique` | src/git_stage_batch/batch/discard.py:1254-1528 | Flag, slice and neighbours of every deletion are determined by the claims on it |
| `ReplacementClaims.UndecidedAreUnnamed` | src/git_stage_batch/batch/discard.py:1764-1768 | Exactly the deletions that no unit names are left to the legacy scan |
| `LegacyReplacements.AppendLiveLegacyReplacementRestoreRecords` | src/git_stage_batch/batch/discard.py:1744-1831 | A candidate is live if and only if some line from its start to the end of its presence range is mapped and not preserved; no line is looked up twice for a range |
| `LegacyReplacements.CollectCandidates` | src/git_stage_batch/batch/discard.py:1765-1792 | Candidates are exactly the undecided deletions with old text that immediately precede an owned line |
| `LegacyReplacements.ScanRange` | src/git_stage_batch/batch/discard.py:1801-1829 | The shared right-to-left scan decides all candidates of one presence range |
| `LineRanges.MappedRanges.CompactInPlace` | src/git_stage_batch/batch/discard.py:1853-1869 | Compaction in place gives the merged ranges; every slot still to be read holds what the sort left there |
| `LineRanges.MappedRanges.NormalizeInPlace` | src/git_stage_batch/batch/discard.py:1853-1869 | Sorting and compacting in place gives the normal form |
| `LineRanges.NormalFormMeaning` | src/git_stage_batch/batch/discard.py:1853-1869 | The normal form is sorted, disjoint and non-adjacent and holds exactly the same lines |
| `LineRanges.NormalizedIsCanonical` | src/git_stage_batch/core/line_selection.py:36-73 | One selection of lines has one normalized form |
| `LineRanges.NormalizedRangesOverlap` | src/git_stage_batch/batch/discard_reversal.py:28-35 | Looking at one range decides whether any range meets an interval |
| `LineRanges.SortedContains` | src/git_stage_batch/core/line_selection.py:80-94 | Binary search over the starts decides membership |
| `LineRanges.ContainingRangeIndex` | src/git_stage_batch/batch/discard.py:1834-1850 | Binary search finds the range that holds a line, and none exactly when no range does |
| `LineRanges.Count` | src/git_stage_batch/core/line_selection.py:236-251 | The range-wise count is the number of selected lines of the interval |
| `LineRanges.FullCountMeansAll` | src/git_stage_batch/batch/discard_reversal.py:152-170 | A count reaches the interval's length if and only if every line is selected |
| `LineRanges.SubsetMeaning` | src/git_stage_batch/core/line_selection.py:319-353 | One selection lies inside another if and only if every line of the one is a line of the other |
| `LineRanges.Intersection` | src/git_stage_batch/core/line_selection.py:295-317 | The two-pointer walk gives the normalized selection of exactly the shared lines |
| `LineRanges.UnionMeaning` | src/git_stage_batch/core/line_selection.py:379-383 | The union is normalized and holds exactly the lines of either |
| `LineRanges.Difference` | src/git_stage_batch/core/line_selection.py:319-353 | The normalized selection of exactly the lines of one selection that are not in the other |
| `MappedRecords.SortedIsUnique` | src/git_stage_batch/core/mapped_storage.py:504-546 | Under a total order there is one sorted arrangement, whichever sort finds it |
| `Attribution.Table.AttributeBatches` | src/git_stage_batch/batch/attribution.py:389-430 | After all batches, every stored unit has exactly the owners that testing every batch against it gives, no unit stored before has changed, and every other one is proposed by some batch; batches without source text but with presence claims count for comparison units only |
| `Attribution.Table.AttributeBatch` | src/git_stage_batch/batch/attribution.py:408-430 | Attributing one batch against its pruned candidates keeps that account and every stored unit, and stores only units it proposes |
| `Attribution.OwnersEnumerate` | src/git_stage_batch/batch/attribution.py:503-713 | With inverse alignments a batch enumerates every proposed unit it owns, whoever proposed it and whatever identifiers collide |
| `Attribution.OwnersAre` | src/git_stage_batch/batch/attribution.py:389-430 | Whether a batch is an owner depends neither on the other batches nor on their order |
| `AttributionMeaning.OwnersOfDifference` | src/git_stage_batch/batch/attribution.py:389-430 | After attribution, the owners of a unit of the comparison are exactly the batches that hold its text where it stands |
| `AttributionMeaning.ReplacementIsOwned` | src/git_stage_batch/batch/attribution.py:573-713 | A batch owns a replacement if and only if it claims source lines with the text of the added lines, the first mapped to where they begin, and one of its deletion entries has the deleted lines' fingerprint and maps to their anchor |
| `AttributionMeaning.DeletionIsOwned` | src/git_stage_batch/batch/attribution.py:677-713 | A batch owns a deletion if and only if one of its deletion entries has the deleted lines' fingerprint and maps to their anchor |
| `AttributionMeaning.AdditionIsOwned` | src/git_stage_batch/batch/attribution.py:587-623 | A batch owns an added line if and only if it claims the same line, mapped to where it stands |
| `AttributionMeaning.MissingLineIsOwned` | src/git_stage_batch/batch/attribution.py:637-674 | A batch owns a line that left the worktree if and only if it claims such a line that is not mapped |
| `AttributionMeaning.MissingRunIsOwned` | src/git_stage_batch/batch/attribution.py:637-674 | A batch owns several lines that left the worktree if and only if it claims such lines, none of them mapped |
| `AttributionMeaning.ProposalsAre` | src/git_stage_batch/batch/attribution.py:503-570 | A batch proposes a unit for each claimed source line, at the worktree line where it stands if any, and for each deletion entry with a known blob, at its anchor; none if it claims lines of an empty source |
| `Attribution.EarlyLeaverIsLeftOut` | src/git_stage_batch/batch/attribution.py:512-513 | A batch that leaves enumeration early can own a unit that another batch proposes, without being recorded |
| `Attribution.Table.Attribute` | src/git_stage_batch/batch/attribution.py:503-570 | A proposed unit is stored under a new identifier only, and the account of all owners is kept |
| `Attribution.NewUnitHasNoOwners` | src/git_stage_batch/batch/attribution.py:419-430 | An identifier that nobody enumerated before belongs to a unit without earlier owners |
| `FileComparisonUnits.CoveredOnce` | src/git_stage_batch/batch/attribution_units.py:170-330 | For an injective alignment the units cover every unmatched baseline line and every unmatched worktree line exactly once, and no matched line |
| `FileComparisonUnits.PairRuns` | src/git_stage_batch/batch/attribution_units.py:213-250 | A deletion run is paired if and only if an addition run has the same anchor; the greedy order does not matter |
| `FileComparisonUnits.UnitIdsDiffer` | src/git_stage_batch/batch/attribution_units.py:75-124 | No two units of a comparison share an identifier, even if all hashes collide |
| `FileComparisonUnits.EveryUnitIsStored` | src/git_stage_batch/batch/attribution_units.py:170-330 | Into an empty map every unit goes under its own identifier, and nothing else |
| `FileComparisonUnits.EnumerateUnitsFromFileComparison` | src/git_stage_batch/batch/attribution_units.py:170-330 | Enumeration inserts replacements, other deletions and other additions, in that order, never replacing a stored unit; into an empty map it claims every added line exactly once |
| `ComparisonMeaning.StoredUnitsTellDifferences` | src/git_stage_batch/batch/attribution_units.py:170-330 | The stored units are exactly those that tell one difference of the two files: a longest stretch of deleted lines with the stretch of added lines at its place or alone, or one line of a stretch of added lines without any, each with place, text or fingerprint, and identifier |
| `FileComparisonUnits.StoredUnitsClaimOnce` | src/git_stage_batch/batch/attribution_units.py:170-330 | In an empty map, every worktree line without a baseline line is claimed by exactly one stored unit, and no other line is |
| `FileComparisonUnits.DeletionAnchorsDiffer` | src/git_stage_batch/batch/attribution_units.py:218-226 | No two deletion runs have the same anchor |
| `FileComparisonUnits.AdditionAnchorsDiffer` | src/git_stage_batch/batch/attribution_units.py:228-240 | No two addition runs have the same anchor |
| `FileComparisonUnits.BuildMatches` | src/git_stage_batch/batch/attribution_units.py:180-193 | The two dictionaries are inverse to each other and hold exactly the aligned lines |
| `AttributionUnits.GroupConsecutive` | src/git_stage_batch/batch/attribution_units.py:351-362 | Grouping gives the normalized ranges of exactly the given lines |
| `AttributionUnits.FindStructuralPredecessor` | src/git_stage_batch/batch/attribution_units.py:333-344 | The downward search finds the nearest matched line before a run |
| `AttributionUnits.PredecessorIs` | src/git_stage_batch/batch/attribution_units.py:333-344 | That line is matched, lies before, and no matched line lies between |
| `AttributionUnits.RunsFollowDifferentLines` | src/git_stage_batch/batch/attribution_units.py:333-362 | Two runs of unmatched lines never follow the same matched line |
| `AttributionUnits.IdTellsPlace` | src/git_stage_batch/batch/attribution_units.py:75-124 | Equal identifiers in one file mean equal kind and equal line or anchor, for any hashes |
| `AttributionUnits.IdTellsUnit` | src/git_stage_batch/batch/attribution_units.py:75-124 | Where short hashes hold no colon, identifiers of one file agree if and only if kind, place and the short hashes of both sides do |
| `WordInsertions.InsertionOnlyWordChanges` | src/git_stage_batch/batch/applied_text_replay.py:111-155 | The scan returns the greedy insertions, or nothing when a base word is lost or more than eight insertions are needed |
| `WordInsertions.DiffIsExact` | src/git_stage_batch/batch/applied_text_replay.py:111-155 | The greedy diff exists if and only if the base words are a subsequence; its boundaries grow strictly, no insertion is empty, and applying it gives the changed words |
| `WordInsertions.MatchingWordContext` | src/git_stage_batch/batch/applied_text_replay.py:231-259 | The two loops count the agreeing words in front of and behind two boundaries, at most sixteen each |
| `WordInsertions.AgreeBeforeIs` | src/git_stage_batch/batch/applied_text_replay.py:239-249 | The agreement in front is the longest within the limit |
| `WordInsertions.AgreeAfterIs` | src/git_stage_batch/batch/applied_text_replay.py:250-259 | The agreement behind is the longest within the limit |
| `WordInsertions.ScoreIs` | src/git_stage_batch/batch/applied_text_replay.py:231-259 | The score is how many words agree right in front plus how many right behind, each the longest run within sixteen |
| `WordInsertions.UniqueTargetBoundary` | src/git_stage_batch/batch/applied_text_replay.py:262-282 | The result is the one boundary whose context beats every other and is large enough; nothing exactly when there is none |
| `WordInsertions.OwnBoundaryStays` | src/git_stage_batch/batch/applied_text_replay.py:262-282 | In the text it came from, a boundary stays where it is or is refused |
| `WordTokens.TokensAre` | src/git_stage_batch/batch/applied_text_replay.py:103-108 | Tokens are exactly the maximal stretches without white space, in order |
| `WordTokens.WordsJoin` | src/git_stage_batch/batch/applied_text_replay.py:103-108 | Texts that meet at white space have their words side by side |
| `WordTokens.WordsFuse` | src/git_stage_batch/batch/applied_text_replay.py:103-108 | Texts that meet inside a word lose one word |
| `WordComposition.ComposeWordInsertions` | src/git_stage_batch/batch/applied_text_replay.py:285-359 | A text is composed if and only if the contents are small, something is to be carried and every insertion has its place in order; it is the replacement with those insertions |
| `WordComposition.CompositionKeepsBytes` | src/git_stage_batch/batch/applied_text_replay.py:347-359 | Composing only adds bytes: the replacement is still there, in order |
| `WordComposition.CarriedWords` | src/git_stage_batch/batch/applied_text_replay.py:305-328 | Carried over are the at most eight additions that lead from the earlier words to the changed ones, each to the boundary that stands out; the other diff is asked if and only if there are none, words were lost or there are more |
| `WordComposition.AddedText` | src/git_stage_batch/batch/applied_text_replay.py:331-350 | Words go right in front of the word at their boundary with one space behind them, or to the very end with one space in front unless the text is empty or ends in white space |
| `WordTokens.JoinSplits` | src/git_stage_batch/batch/applied_text_replay.py:350 | Joined words have one space between any two neighbours and nothing else |
| `WordComposition.ComposedWords` | src/git_stage_batch/batch/applied_text_replay.py:317-359 | The composed words are the replacement's words with each insertion at its boundary if and only if no two insertions land at the end of text that is empty or ends in white space |
| `WordComposition.WordsCanFuse` | src/git_stage_batch/batch/applied_text_replay.py:317-359 | Two words added behind repeated words both go to the end of a rewrite that ends in a space, and fuse |
| `WordComposition.PlaceInsertions` | src/git_stage_batch/batch/applied_text_replay.py:315-346 | Placing finds the only way to carry the insertions over in order, and fails exactly when there is none |
| `WordComposition.SpliceEdits` | src/git_stage_batch/batch/applied_text_replay.py:348-358 | Copying between the edits gives the composed text |
| `WordComposition.BoundedContent` | src/git_stage_batch/batch/applied_text_replay.py:90-100 | The joined content, or nothing exactly when it exceeds 256 KiB |
| `TextReplay.AcquireReplayContext` | src/git_stage_batch/batch/applied_text_replay.py:687-771 | A context is handed out if and only if undoing all applications works and replaying them from there reproduces the worktree |
| `TextReplay.RoundTripIs` | src/git_stage_batch/batch/applied_text_replay.py:687-771 | Undoing leads to a base from which replay leads back if and only if there are texts in between, each the next one with its application undone, and each the one before with its application merged |
| `TextReplay.ReplayContext.Merge` | src/git_stage_batch/batch/applied_text_replay.py:468-536 | Merging gives a text if and only if texts lead to it from the changed earlier text: each application goes onto the text before it or, where it is rejected, is composed with what replay made of it |
| `TextReplay.ReplayContext.Recompose` | src/git_stage_batch/batch/applied_text_replay.py:489-527 | The carried text is the composition of words when there is one, else that of the saved prefix; inside a handed-out context it fails exactly when there is neither |
| `TextReplay.ReplayApplications` | src/git_stage_batch/batch/applied_text_replay.py:603-631 | Replaying is merging the applications in order, or the first error; replaying nothing is refused |
| `TextReplay.NoChangeIsNoChange` | src/git_stage_batch/batch/applied_text_replay.py:468-536 | A change that leaves the recovered base as it is returns exactly the worktree, for any number of applications |
| `TextReplay.UnchangedBaseReplays` | src/git_stage_batch/batch/applied_text_replay.py:468-536 | Over the unchanged base no fallback is used |
| `TextReplay.FallbackOnlyLacksComposition` | src/git_stage_batch/batch/applied_text_replay.py:489-527 | Inside a handed-out context a fallback fails only because neither composition succeeds |
| `TextReplay.RejoinsReplay` | src/git_stage_batch/batch/applied_text_replay.py:468-536 | Once the carried text meets the replayed text, the rest follows replay |
| `TextReplay.MergeFollowsReplay` | src/git_stage_batch/batch/applied_text_replay.py:468-536 | The same for the chain of merges as a whole, told by the texts that replay passes through |
| `ReplayMeaning.RejectedKeepsReplay` | src/git_stage_batch/batch/applied_text_replay.py:489-527 | Whichever way a rejected application is composed, every byte that replay had there is in the text, in order |
| `ReplayMeaning.WorktreeIsKept` | src/git_stage_batch/batch/applied_text_replay.py:468-536 | When the last application is the one that rejects the changed text, the merge loses no byte of the worktree |
| `ReplayMeaning.OneRejection` | src/git_stage_batch/batch/applied_text_replay.py:489-519 | One application, rejected, with words that can be carried over: the merge is the worktree with the words that the change added, and its words come out as declared unless two additions fuse at the end |
| `PrefixComposition.ComposeOverlappingPresencePrefix` | src/git_stage_batch/batch/applied_text_replay.py:362-449 | The tail of an applied run is kept if and only if the texts differ in one window behind a common line of that run, its lines stand in the run, one line of it ends the saved prefix and the added words can be carried over; the replacement around the window stays |
| `PrefixComposition.FindDifference` | src/git_stage_batch/batch/applied_text_replay.py:377-391 | The two loops find the window in which two texts differ |
| `PrefixComposition.OneDifference` | src/git_stage_batch/batch/applied_text_replay.py:377-391 | There is one such window |
| `PrefixComposition.KeptLinesEndAlike` | src/git_stage_batch/batch/applied_text_replay.py:416-435 | The kept lines end in the last word of the changed text, and no other line short of the whole window does |
| `PrefixComposition.RunIsClaimed` | src/git_stage_batch/batch/applied_text_replay.py:399-414 | Every line of the kept run is a claimed source line with the text of the replacement line |
| `RealizedFileContent.ReplacementAlternativePlacements` | src/git_stage_batch/batch/realized_file_content.py:40-98 | The two shared sweeps find the last target before each chain and the first target behind it and all chains before it; placements are the members of the chains whose gaps agree |
| `RealizedFileContent.DisjointChainsPlacedExactly` | src/git_stage_batch/batch/realized_file_content.py:64-98 | For disjoint alternatives the sweep reports the target behind the chain itself, and the chain is placed if and only if none of its lines is mapped and the targets around it are adjacent |
| `PlacementMeaning.PlacementsAre` | src/git_stage_batch/batch/realized_file_content.py:40-98 | Placed are just the saved lines of the alternatives in chains around which no line is mapped up to the furthest end so far, each at the one target boundary with the lines mapped before on one side, those mapped behind on the other and no target line in between |
| `RealizedFileContent.ChainsPlacedExactly` | src/git_stage_batch/batch/realized_file_content.py:64-98 | Nested or not, a chain is placed if and only if no line from its start to the furthest end so far is mapped and the targets around them are adjacent |
| `RealizedFileContent.PlacedMeansUnmapped` | src/git_stage_batch/batch/realized_file_content.py:80-98 | Even for nested alternatives a placed chain has no mapped line up to the furthest end so far, and its gap separates the lines mapped before and behind it |
| `RealizedFileContent.AfterIsOwn` | src/git_stage_batch/batch/realized_file_content.py:71-79 | The target found behind the furthest end is the one behind a chain's own end if and only if no line between the two ends is mapped |
| `RealizedFileContent.NestedSweepMisreports` | src/git_stage_batch/batch/realized_file_content.py:71-79 | Two nested alternatives and a mapping for which the shared sweep reports a target too far |
| `RealizedFileContent.OrderedIsStable` | src/git_stage_batch/batch/realized_file_content.py:48 | Alternatives are sorted by their saved start, and equal starts keep their order |
| `RealizedFileContent.ChainsAreMaximal` | src/git_stage_batch/batch/realized_file_content.py:48-58 | Chains hold exactly the sorted alternatives, and none goes on into the next |
| `RealizedFileContent.SweepBefore` | src/git_stage_batch/batch/realized_file_content.py:60-69 | One shared iterator finds the last target before every chain |
| `RealizedFileContent.SweepAfter` | src/git_stage_batch/batch/realized_file_content.py:71-79 | One shared iterator finds the first target behind every chain so far |
| `RealizedFileContent.OwnershipForRealization` | src/git_stage_batch/batch/realized_file_content.py:101-134 | Rewriting through the index map drops live versions and units left without deletions |
| `RealizedFileContent.RealizationStartsFrom` | src/git_stage_batch/batch/realized_file_content.py:101-134 | Without live versions the ownership stays as it is; otherwise it keeps the claims that are none and, in order, exactly the units that still name one, with presence and origin unchanged |
| `RealizedFileContent.RemappedNamesSameClaims` | src/git_stage_batch/batch/realized_file_content.py:115-121 | New indices name the claims that the surviving old ones named, in the same order |
| `RealizedFileContent.KeptClaimsSurvive` | src/git_stage_batch/batch/realized_file_content.py:107-112 | No stored live version is left |
| `RealizedFileContent.RemappingIsInjective` | src/git_stage_batch/batch/realized_file_content.py:106-112 | Different surviving claims keep different indices |
| `CompletePair.SavedFileAfterClaimedLiveLines` | src/git_stage_batch/batch/complete_source_replacement.py:157-208 | The saved file is returned if and only if both versions are non-empty and equally long, a live line was claimed, each claimed live line equals its saved counterpart and the worktree is the live version without them |
| `CompletePair.ReplayableRebuildsLive` | src/git_stage_batch/batch/complete_source_replacement.py:157-208 | Those worktrees are exactly the ones that become the live version once the saved lines are filled in |
| `CompletePair.CountsAgree` | src/git_stage_batch/batch/complete_source_replacement.py:188-189 | The length check leaves a worktree line for every live line that was not claimed |
| `CompletePair.WorktreeIsRest` | src/git_stage_batch/batch/complete_source_replacement.py:199-207 | The walk never reads past the worktree and accepts it if and only if it is the unclaimed live lines |
| `CompletePair.ClaimedLinesAgree` | src/git_stage_batch/batch/complete_source_replacement.py:191-197 | Every claimed live line is compared with the saved line at its offset |
| `CompletePair.BufferWithoutRanges` | src/git_stage_batch/batch/complete_source_replacement.py:964-979 | The text without the selected lines; refused exactly when a range lies outside it |
| `CompletePair.BufferWithoutSpan` | src/git_stage_batch/batch/complete_source_replacement.py:982-996 | The text without one stretch; refused exactly when the stretch ends past it |
| `GitPaths.UnquoteInvertsQuote` | src/git_stage_batch/git_paths.py:112-182 | Unquoting the quoted form gives every byte string back |
| `GitPaths.ScanFindsTheEnd` | src/git_stage_batch/git_paths.py:185-197 | The token scan over a quoted form, with any bytes before and after, stops exactly at its end |
| `GitPaths.QuotedRunsSplitUniquely` | src/git_stage_batch/git_paths.py:112-197 | Quoted tokens written side by side split in one way only |
| `GitPaths.QuotePathToken` | src/git_stage_batch/git_paths.py:112-137 | Byte by byte, the token is the quoted form, or the path itself when it needs no quotes |
| `GitPaths.UnquotePathToken` | src/git_stage_batch/git_paths.py:140-182 | The parser returns the decoded bytes or the exact kind of error |
| `GitPaths.QuotedTokenEnd` | src/git_stage_batch/git_paths.py:185-197 | The scan returns the end of the token or the exact kind of error |
| `GitPathMeaning.EscapeIs` | src/git_stage_batch/git_paths.py:112-137 | Between quotes, quote and backslash are doubled up with a backslash, tab, line feed and carriage return get their letters, other printing characters stand for themselves, and every other byte is three octal digits |
| `GitPathMeaning.QuoteIs` | src/git_stage_batch/git_paths.py:112-137 | A path goes without quotes if and only if it is not empty and made of printing characters other than space, quote and backslash |
| `GitPathMeaning.UnquoteIs` | src/git_stage_batch/git_paths.py:140-182 | A quoted token stands for some bytes if and only if its text reads as them piece by piece: a character for itself, a letter escape, or the longest run of up to three octal digits; other tokens stand for themselves |
| `GitPaths.RecordsRebuildOutput` | src/git_stage_batch/git_paths.py:104-109 | Records hold no NUL and rebuild the output, with its final NUL made explicit |
| `GitPaths.TerminatedRecordsComeBack` | src/git_stage_batch/git_paths.py:104-109 | Records without NUL bytes come back from the output that terminates each of them |

## Left out

- Line matching algorithms: alignments are inputs, inverse or injective where the callers rely on it.
- Building the baseline correspondence: regions are inputs, ordered and with distinct identifiers.
- The heap sort of mapped records: modelled by its result, which `MappedRecords.SortedIsUnique` justifies.
- Trusted anchors, independent insertions, separators and inherited presence in discard.py: their
  results are inputs of `Discard.DiscardBatch`.
- Parsing of ownership metadata: line specifications arrive as ranges, malformed ones as none.
- Recognition of complete pairs and of nested alternatives: their spans are inputs; the claimed extra
  lines lie inside the live span, as recognition checks.
- The merge engine and the undo used inside replay: deterministic partial functions.
- `_insertions_preserving_baseline_words`: it depends on difflib; its insertions are an input of
  `WordComposition.ComposeWordInsertions` with boundaries inside the replacement.
- Line-ending choice and restoration: lines are already normalized.
- SHA-1, BLAKE2 and Python hashing: arbitrary functions.
- Buffers, spool files, mapped storage and its capacity limits: sequences and arrays.
- Git objects, refs, the index, locks, journals, the command line and all messages.
- SupersededDeletions.SupersededReplacementDeletions: deletion contents are compared after line-ending normalization in the program; here contents are normalized lines already.
- GitPaths.UnquotePathToken: messages of the errors are not modelled, only their kinds.
