# Verified model of the reproduction pipeline's hard core

The repository reproduces research papers with agents that write, patch, run and grade code.
This project models the parts of it where a slip would be silent — the patch engine, the
advantage loop of the generated trainer, the artifact collector, the GPU lease scheduler, the
curated-helper channel, the regrade backfill, the statistics of repeated grading, the event log
and its readers, the run-status markers, cell resume, the checkpoint summaries, the Dockerfile
normaliser, the trace metrics, the A/B report and the environment shim — and proves what they
promise, for all inputs, all runs or all interleavings.

Code that changes state or loops is a class or a method proved against a specification
function; the main results are lemmas about those functions. What such a function means is
also stated over its inputs alone, with names, fields and constants written out (the modules
named `...Laws`, and lemmas such as `AdvantageStep`, `NewLease` or `CollectedIff`).
`dafny verify dfyconfig.toml` checks everything.

| module | models |
|---|---|
| `TextLines`, `Decimal`, `HunkHeader` | Python's line splitting and stripping, decimal numbers, the hunk-header pattern |
| `UnifiedDiff`, `DiffMerge`, `DiffRoundTrip`, `DiffLaws` | applying a unified diff; the merge it refines; the printer it undoes; any header, any body, and refusal |
| `Gae` | generalized advantage estimation over one environment's column |
| `Sums`, `Totals`, `StableSort`, `Wrappers` | finite sums, totals by group, Python's stable sort, options and results |
| `ArtifactGc` | the collector of heavy artifacts |
| `GpuAllocator`, `GpuScheduler`, `BatchPlan` | the lease table; scheduler processes as interleaved steps; pool size and backoff |
| `KnowledgeChannel`, `ImportLines`, `KnowledgeVerifier` | rendering and extracting curated helpers; the import pattern; verifying a program against them |
| `Calibration` | statistics over repeated grader draws |
| `RegradeBackfill`, `RegradeLaws`, `JsonText`, `BackfillSweep` | regrading one run directory; what it writes, field by field; that its assumption on JSON can be met; discovering and sweeping all directories |
| `EventLog`, `StageMonitor` | the locked event log with its line-counting reader; the byte-offset reader |
| `RunStatus`, `ResumeCells` | the status markers; which cells a resume runs again |
| `RepairGroups`, `RepairLaws` | checkpoint files grouped by cluster and by repair pass; what an entry holds |
| `DockerFrom`, `DockerFromLaws`, `DockerImages` | normalising a Dockerfile's base image; which images and lines are taken for what |
| `TraceMetrics`, `TraceLaws`, `AbCompare`, `AbCompareLaws` | metrics of a trace, event by event, and their means; the A/B report, row by row |
| `EnvAliases` | the start-up shim for renamed variables |

## What the proofs found

Where the code does not do what it is for, the model keeps the code, gives the condition under
which it does, and shows an input at which it does not.

- A hunk that only inserts (old count 0) is misplaced by one line, because 1 is subtracted from
  its start as well. A printed diff whose first hunk does not insert at the top applies correctly
  exactly when every insert-only hunk repeats the old line before it (`PatchIsExactIff`,
  `InsertionMisplaced`). An insertion at the top starts at the index -1, which Python counts from
  the end. When the other hunks are right, it is right exactly when nothing follows, as for a new
  file (`NewFile`), or when the inserted lines and the rest without its last line repeat one block
  (`TopInsertionIff`, `TopInsertionMisplaced`). When they are not, two mistakes can cancel
  (`TwoMistakesCancel`), and the condition (`TopFits`) compares what the rest becomes with what it
  should be.
- The docstring of `_apply_unified_diff` speaks of a patch library that verifies context. The
  code never looks at the old lines (`OldRangesAreIgnored`, `WrongContextIsPatched`).
- A body line without a marker stays in the file, whole, and a note such as "\ No newline at end of
  file" changes nothing; a diff is refused for its ranges exactly when some hunk ends beyond the list
  that the later ones leave, for ordered hunks when the last one ends beyond the file (`OneBlock`,
  `RefusedIff`, `OrderedRefusedIff`).
- The collector's documentation has every record of a run survive. One inside a `datasets` copy or
  another bulk directory goes with it (`RecordSurvivesIff`, `RecordIsCollected`).
- The collector's dry run reports at least what applying frees, and more whenever a nonempty
  file lies under two victims (`DryRunAgainstApply`, `NestedVictimCountsTwice`).
- The allocator documents that stale leases are reaped on every `acquire` and `release`. A release
  leaves none exactly when no other lease was stale, an acquire exactly when none was stale or a
  new lease is stored (`ReleaseReapsIff`, `AcquireReapsIff`, `StaleLeaseStays`).
- A signal between a worker's acquire and its launch, or one lease id used by two workers,
  gives two live children the same card (`SignalDuringSetupCollides`, `SharedLeaseIdCollides`,
  both from any start).
- A freshly written helper module raises no mismatch when no body has a carriage return, whatever
  the hash (`FreshArtifactsVerify`); a body with one is not what is read back
  (`ReturnIsNotReadBack`, `TamperReportIff`, `ReturnIsReported`).
- The import check finds a name exactly when it is, trimmed, a piece between the commas of some
  import line (`PresentIff`). So the first and the last name in parentheses are hidden, and all of
  them when the parentheses span lines (`ParenthesesHideEnds`, `SeveralLinesHideAll`), as is a name
  with an alias or a comment behind it (`ExtraHidesName`, `HiddenNames`), though Python accepts
  them all.
- A reader that polls while a line is being appended loses that line's tail, and its delivery
  is exact exactly when no poll did so (`DeliveryIsExactIff`, `TornPoll`). The stage monitor uses
  a byte offset as a character offset, which is exact exactly when all that was seen is one byte
  a character and no line ends in a carriage return and a newline (`TailIsExactIff`,
  `TailSkipsAfterNonAscii`, `TailSkipsAfterReturn`).
- A status file that cannot be read loses its status to the next marker (`CorruptLosesRank`).
- An unreadable newest cell manifest hides an older one that was ok (`NewestDecides`,
  `UnreadableHidesOk`).
- A `FROM` line that ends in a line break other than a newline runs into the next line when its
  image is replaced (`UnknownImage`, `ReturnSwallowsLine`, `RunIsSwallowed`); a flag such as
  `--platform` is taken for the image (`FlagTakenForImage`); dropping broken `FROM` lines can
  merge two others (`MissingImage`, `DroppingJoinsLines`).
- The list of known-good images has entries such as `"python "`, to let `FROM python AS build` pass.
  An image name has no blank, so such a line is rewritten (`UntaggedIsUnknown`, `UntaggedIsReplaced`).
- Two of the reasons for which the A/B report can refuse, an unstamped control and an unstamped BES
  run, never arise: the runs it picks have their arm's stamp (`RefusalReason`).
- In the A/B report a score of 0 counts as -1, so scores from -1 up to 0 can beat it
  (`BestHasLargestScore`, `ZeroIsNotPicked`).
- The docstring of the failed marker lists three states it leaves alone; the code leaves `killed`
  alone as well, and differs nowhere else (`FailedMarkerAsDocumentedIff`, `KilledIsLeftAlone`).
- A comment in the trace parser promises the number of iteration events as last resort for the
  iteration count. The promise is kept exactly when there is a completion or a positive iteration
  number; otherwise the count is left empty (`IterationsAsPromisedIff`, `IterationNotCounted`).

## Model

| member | source | states |
|---|---|---|
| UnifiedDiff.ApplyUnifiedDiff | backend/agents/baseline_implementation.py:2879-2957 | the loops over headers, bodies and hunks compute the specification: parse all hunks, splice them last to first into the changing list, error when there is no hunk or a range is beyond the list |
| UnifiedDiff.FindHunkStarts | backend/agents/baseline_implementation.py:2901-2905 | the forward scan finds exactly the header lines, in order, and the hunks starting there are the parsed hunks |
| UnifiedDiff.ReadHunk | backend/agents/baseline_implementation.py:2914-2948 | start, count and replacement lines of one hunk, by marker |
| HunkHeader.MatchOfPrint | backend/agents/baseline_implementation.py:2897-2918 | a printed header, with or without counts of one, matches the pattern and its old range is read back |
| Decimal.ValueOfPrint | backend/agents/baseline_implementation.py:2916-2917 | reading a printed number gives the number |
| DiffMerge.SpliceBackIsMerge | backend/agents/baseline_implementation.py:2910-2957 | splicing ordered, disjoint, in-range hunks last to first is the left-to-right merge over the untouched original, and the range check never fires |
| DiffMerge.MergeLength | backend/agents/baseline_implementation.py:2950-2955 | the length changes by the sum of the hunks' growths |
| DiffMerge.OutsideLineLands | backend/agents/baseline_implementation.py:2910-2957 | a line outside all hunks lands at its old index plus the growth of the hunks before it |
| DiffMerge.HunkLineLands | backend/agents/baseline_implementation.py:2910-2957 | line j of hunk k lands at the hunk's start plus the growth of the earlier hunks plus j |
| DiffMerge.OldRangesAreIgnored | backend/agents/baseline_implementation.py:2928-2955 | originals that agree outside the hunks are patched alike: context is never compared |
| DiffRoundTrip.ParseOfPrint | backend/agents/baseline_implementation.py:2893-2948 | parsing a printed diff gives the hunks of the script, at their positions in the old file |
| DiffRoundTrip.ApplyPrinted | backend/agents/baseline_implementation.py:2893-2957 | what applying a printed diff yields, for every script: insert-only hunks, also right behind another hunk or at the top, included |
| DiffRoundTrip.PatchIsExactIff | backend/agents/baseline_implementation.py:2916-2955 | for every script: a printed diff yields the new file if and only if every insert-only hunk repeats the old line before it, or, when it inserts at the top, what the rest is patched to fits behind the inserted lines |
| DiffRoundTrip.RoundTrip | backend/agents/baseline_implementation.py:2893-2957 | for any lines and any script whose hunks have an old line each, printing and applying to the old file yields the new file |
| DiffRoundTrip.MergeOfPrinted | backend/agents/baseline_implementation.py:2893-2957 | the hunks of such a diff are ordered, disjoint and in range, and their merge over the old file is the new file |
| DiffRoundTrip.WrongContextIsPatched | backend/agents/baseline_implementation.py:2928-2955 | a diff that replaces a replaces b as well |
| DiffRoundTrip.ReverseRoundTrip | backend/agents/baseline_implementation.py:2893-2957 | with a new line in each hunk, the diff with signs and ranges swapped takes the new file back to the old one |
| DiffRoundTrip.EveryPairIsReachable | backend/agents/baseline_implementation.py:2893-2957 | any nonempty file can be patched into any other |
| DiffRoundTrip.TopInsertionIff | backend/agents/baseline_implementation.py:2916-2955 | a printed diff that inserts at the top, its other hunks being right, yields the new file if and only if the rest is empty or, without its last line, repeats a block that the inserted lines repeat too |
| DiffRoundTrip.NewFile | backend/agents/baseline_implementation.py:2893-2957 | a printed diff that creates a file creates it |
| DiffRoundTrip.TopInsertionMisplaced | backend/agents/baseline_implementation.py:2916-2955 | inserting x before a, b gives a, x, b |
| DiffRoundTrip.TwoMistakesCancel | backend/agents/baseline_implementation.py:2916-2955 | two misplaced insertions that together give the right file |
| DiffRoundTrip.CommuteIffRepeated | backend/agents/baseline_implementation.py:2916-2955 | two lists of lines can be exchanged if and only if both repeat one block |
| DiffRoundTrip.InsertionMisplaced | backend/agents/baseline_implementation.py:2916-2955 | inserting x after a into a, b gives x, a, b |
| DiffLaws.HeaderIff | backend/agents/baseline_implementation.py:2896-2903 | a line is a header if and only if it is `@@`, spaces, `-` and a range, spaces, `+` and a range, spaces, `@@` and anything |
| DiffLaws.HeaderMatches | backend/agents/baseline_implementation.py:2896-2917 | such a line is read as its old range, whatever stands behind the second `@@`; a missing count is 1 |
| DiffLaws.ValueOfDigits | backend/agents/baseline_implementation.py:2916-2917 | numbers are read digit by digit in base ten |
| DiffLaws.EveryDiff | backend/agents/baseline_implementation.py:2897-2926 | every text is some lines without a header, then blocks of a header and body lines, each of one of five kinds |
| DiffLaws.DiffIsParsed | backend/agents/baseline_implementation.py:2900-2948 | the lines before the first header are passed over, and each block is one hunk with the old range of its header and the lines its body means |
| DiffLaws.BodyLineIsRead | backend/agents/baseline_implementation.py:2928-2948 | context and added lines give their text, removed lines and notes nothing, a line without a marker itself |
| DiffLaws.NoHunksIff | backend/agents/baseline_implementation.py:2900-2906 | a diff is refused as no diff if and only if none of its lines is a header |
| DiffLaws.RefusedIff | backend/agents/baseline_implementation.py:2905-2954 | a diff is refused for its ranges if and only if some hunk ends beyond the list that the later hunks leave |
| DiffLaws.LengthGrows | backend/agents/baseline_implementation.py:2950-2955 | that list has the length of the file plus the growths of the later hunks, unless a range that takes lines starts at line 0 |
| DiffLaws.OrderedRefusedIff | backend/agents/baseline_implementation.py:2950-2957 | of ordered, disjoint hunks it is refused if and only if the last one ends beyond the file; otherwise the result is the merge |
| DiffLaws.OneBlock | backend/agents/baseline_implementation.py:2893-2957 | the result of a diff of one hunk with any header and any body, or its refusal |
| TextLines.FirstLineEnds | backend/agents/baseline_implementation.py:2893-2897 | a line ends behind its first break, the two characters of "\r\n" being one |
| Gae.ComputeAdvantages | backend/agents/baseline_implementation.py:302-316 | the in-place reverse loop computes at every step the forward discounted sum of deltas cut at the end of the episode |
| Gae.AdvantageStep | backend/agents/baseline_implementation.py:308-315 | over the buffers: the closed form satisfies the backward recurrence, with the flag and value of the next step, and `done` and the bootstrapped value behind the last |
| Gae.ReturnTelescopes | backend/agents/baseline_implementation.py:306-316 | with lambda 1, advantage plus value is the discounted reward up to the step before the first flag, plus the bootstrapped value when the rollout stops without one |
| Gae.EpisodesDoNotLeak | backend/agents/baseline_implementation.py:308-315 | rollouts whose rewards, values and flags agree up to a step that ends its episode in both have the same advantages up to there, whatever follows |
| Gae.AdvantageBound | backend/agents/baseline_implementation.py:314-315 | if no delta exceeds D in size, no advantage times 1 - gamma * lambda exceeds D, nor D scaled by 1 - (gamma * lambda)^n |
| Gae.BoundIsSharp | backend/agents/baseline_implementation.py:314-315 | the scaled bound is an equality when every delta is D |
| Gae.DiscountedHead | backend/agents/baseline_implementation.py:314-315 | the discounted sum is its first term plus the discount times the sum of the rest |
| ArtifactGc.RunsRoot.DiskUsage | scripts/gc_runs.py:56-69 | disk usage is the bytes of all files at or under the path |
| ArtifactGc.SortDeepestFirst | scripts/gc_runs.py:110-111 | the victims in some order by decreasing depth, each once |
| ArtifactGc.RunsRoot.CollectProject | scripts/gc_runs.py:109-131 | applied: exactly the files at or under no victim survive, the total is bytes before minus bytes after, every victim is counted; dry: nothing changes and the total counts each file once per victim covering it |
| ArtifactGc.RunsRoot.Collect | scripts/gc_runs.py:101-131 | the same over all projects; applied, an entry is gone if and only if it lies at or under an old enough piece of bulk in a project that is neither skipped nor preserved, and nothing else changes |
| ArtifactGc.ReclaimConserves | scripts/gc_runs.py:110-122 | in any order of victims the total is what was freed and the survivors are the same |
| ArtifactGc.DeepestFirstDeletesAll | scripts/gc_runs.py:110-122 | deepest first, no victim is gone before its turn |
| ArtifactGc.ReclaimAll | scripts/gc_runs.py:110-131 | bytes, survivors and number of deletions of the collector's order |
| ArtifactGc.SurvivorBytes | scripts/gc_runs.py:114-122 | what is freed is the size of each covered file, once |
| ArtifactGc.CoveredBytesAdd | scripts/gc_runs.py:114-115 | one more victim adds its whole disk usage to the dry-run total |
| ArtifactGc.DryRunOverstates | scripts/gc_runs.py:114-131 | the dry-run total is never smaller than what is freed, and equal if and only if no nonempty file lies under two victims |
| ArtifactGc.DryRunAgainstApply | scripts/gc_runs.py:101-131 | the same for the whole command with its own victims |
| ArtifactGc.OtherProjectsUntouched | scripts/gc_runs.py:103-113 | collecting some projects changes neither the victims nor the eligibility of another |
| ArtifactGc.NestedVictimCountsTwice | scripts/gc_runs.py:72-83 | a checkpoint inside a dataset copy is covered twice |
| ArtifactGc.CollectedIff | scripts/gc_runs.py:39-113 | what applying leaves, with directory names, suffixes and markers written out |
| ArtifactGc.SuffixListed | scripts/gc_runs.py:41-83 | a file is bulk if and only if its name is one of six extensions behind something and a dot |
| ArtifactGc.MarkedSurvives | scripts/gc_runs.py:103-108 | everything in a marked project, unless included, and in the three skipped directories survives |
| ArtifactGc.RecordSurvivesIff | scripts/gc_runs.py:16-19 | a file that is no checkpoint survives if and only if nothing above it is collected |
| ArtifactGc.RecordIsCollected | scripts/gc_runs.py:16-19 | a report inside a dataset copy is collected |
| ArtifactGc.BytesAreSizes | scripts/gc_runs.py:56-69 | bytes are the sizes of files, a directory counting for nothing, and add up over the parts of a tree |
| GpuAllocator.LocalGpuAllocator.Acquire | backend/services/runtime/local_gpu_allocator.py:474-525 | reap, return an existing lease, refuse without enough free unleased cards, else lease the first ones; a table without a new lease is not stored |
| GpuAllocator.LocalGpuAllocator.Release | backend/services/runtime/local_gpu_allocator.py:527-540 | drops exactly the lease of that id, if any |
| GpuAllocator.LocalGpuAllocator.ReclaimStale | backend/services/runtime/local_gpu_allocator.py:542-556 | drops exactly the leases of dead processes and returns their ids |
| GpuAllocator.AcquireKeepsExclusive | backend/services/runtime/local_gpu_allocator.py:474-525 | no card is ever in two leases |
| GpuAllocator.AcquireOutcome | backend/services/runtime/local_gpu_allocator.py:474-505 | a live lease of that id is returned as it is; without one there is none if and only if fewer free cards than asked for are in no live lease; neither changes the table |
| GpuAllocator.NewLease | backend/services/runtime/local_gpu_allocator.py:484-525 | a new lease is the caller's and has just the number of cards asked for, the first of the free list that no live lease names, none passed over; the table is the live leases and it |
| GpuAllocator.ReleaseReapsIff | backend/services/runtime/local_gpu_allocator.py:533-549 | a release leaves no stale lease if and only if no other lease was stale |
| GpuAllocator.AcquireReapsIff | backend/services/runtime/local_gpu_allocator.py:474-525 | the table an acquire stores has no stale lease if and only if there was none or a new lease is stored |
| GpuAllocator.StaleLeaseStays | backend/services/runtime/local_gpu_allocator.py:533-549 | a stale lease that outlives a release and an acquire |
| GpuScheduler.NextKeepsInv | scripts/batch_reproduce.py:218-583 | every step of every worker, handler and process, exceptions before and during setup included, keeps the invariant of phases, leases and live children |
| GpuScheduler.ReachableSafety | scripts/batch_reproduce.py:218-583 | in every interleaving of workers of several processes with distinct lease ids and no signal during a setup: cards of live children are disjoint, each live child is covered by its own lease, finished workers have none, a drained process has none |
| GpuScheduler.LiveChildrenDisjoint | scripts/batch_reproduce.py:341-350 | two live children never share a card |
| GpuScheduler.DrainedHoldsNone | scripts/batch_reproduce.py:575-578 | a process whose workers are all done holds no lease |
| GpuScheduler.HandlerFreesOnlyOwn | scripts/batch_reproduce.py:228-262 | the handler gives back only leases of its own process, after its children ended, and leaves all others |
| GpuScheduler.RunGrants | scripts/batch_reproduce.py:326-361 | in every run whatever cards a worker holds come from an acquire of its own that asked for just so many and found them free |
| GpuScheduler.ChildrenRunOnGrantedCards | scripts/batch_reproduce.py:326-583 | from any start, a live child runs on as many cards as its worker asked for |
| GpuScheduler.ShutdownDrains | scripts/batch_reproduce.py:218-262 | a signal while the child runs, handled to its end: child ended, lease given back, process gone |
| GpuScheduler.SignalDuringSetupCollides | scripts/batch_reproduce.py:226-262 | from any start with two workers of different processes, a run in which a signal between acquire and launch leaves both on one card |
| GpuScheduler.SharedLeaseIdCollides | backend/services/runtime/local_gpu_allocator.py:479-482 | from any start with two workers of one lease id, a run without signals that leaves both on one card |
| GpuScheduler.OrphanLosesLease | backend/services/runtime/local_gpu_allocator.py:419-432 | the lease of a live child whose scheduler was killed is reaped by the next acquire |
| BatchPlan.PoolFits | scripts/batch_reproduce.py:912-949 | the pool is nonempty, wants no more cards than are free unless not even one run fits, and respects the number of papers and a positive cap; with a number of cards for each run, one more worker would break a limit |
| BatchPlan.WaitForLease | scripts/batch_reproduce.py:326-361 | the first attempt that succeeds is taken unless the shutdown flag is seen before it; giving up only after the deadline, within 33 attempts; the time spent is that of the attempts and the pauses, and each attempt begins before the deadline |
| BatchPlan.PauseCap | scripts/batch_reproduce.py:329-356 | pauses double up to the cap and stay there |
| BatchPlan.PausedTotal | scripts/batch_reproduce.py:329-356 | the closed form of the time spent pausing |
| KnowledgeChannel.ExtractHelperBody | backend/agents/baseline_knowledge.py:349-373 | the scan with its early stops computes the specified extract |
| KnowledgeChannel.RenderExtract | backend/agents/baseline_knowledge.py:84-114 | extracting any helper from the rendered module gives back its body, for facts with distinct names whose stripped bodies start with their own definition and have no other at top level |
| KnowledgeChannel.DefinesOne | backend/agents/baseline_knowledge.py:357-360 | a line defines at most one name |
| KnowledgeChannel.ExtractIs | backend/agents/baseline_knowledge.py:349-373 | what is extracted from any module: from the first line that defines the name to the next definition or the end, or nothing |
| KnowledgeChannel.TopLevelIff | backend/agents/baseline_knowledge.py:366-371 | a definition is `def` or `class` and a space at the beginning of a line |
| KnowledgeChannel.DefinesIff | backend/agents/baseline_knowledge.py:355-361 | a line defines a name when `def`, spaces, the name, perhaps spaces and a bracket come first |
| KnowledgeVerifier.VerifyEmittedCode | backend/agents/baseline_knowledge.py:139-298 | the report over all manifest entries, the missing trainer and the empty manifest included |
| KnowledgeVerifier.CheckEntry | backend/agents/baseline_knowledge.py:199-296 | the violations of one entry, in order, with the first banned literal only |
| KnowledgeVerifier.FindBanned | backend/agents/baseline_knowledge.py:230-253 | trying the literals in turn finds one if and only if some literal occurs in the text or in a string constant |
| KnowledgeVerifier.CheckHash | backend/agents/baseline_knowledge.py:255-296 | when an expected hash is reported as not met: no module, no definition, or another hash |
| ImportLines.CheckImportPresent | backend/agents/baseline_knowledge.py:332-346 | whether the name is a trimmed token of some match of the import pattern in the text, matches taken left to right without overlap |
| KnowledgeVerifier.OnePerKind | backend/agents/baseline_knowledge.py:195-298 | with distinct ids no two violations share id and kind, and every violation names an entry |
| KnowledgeVerifier.ReportedIff | backend/agents/baseline_knowledge.py:139-298 | a violation is reported if and only if an entry of that id and severity is broken in that way: name not imported, function of that name, literal inside the text or a string constant, helper missing or of another hash; without a program all and only imports are missing |
| KnowledgeVerifier.ChecksInOrder | backend/agents/baseline_knowledge.py:199-296 | the violations of one entry come in the order import, shadowing, literal, hash |
| KnowledgeVerifier.RecipeFact | backend/agents/baseline_knowledge.py:45-71 | no fact from a blank body; else trimmed body and name, the trimmed id or one made from the name, the nonempty literals, the hash of the body |
| TextLines.StripTrims | backend/agents/baseline_knowledge.py:47-51 | stripping takes away just the spaces at both ends |
| KnowledgeVerifier.FreshArtifactsVerify | backend/agents/baseline_knowledge.py:117-136 | whatever the hash: written and read back, facts without a carriage return raise no hash mismatch in the report |
| KnowledgeVerifier.ReturnIsNotReadBack | backend/agents/baseline_knowledge.py:117-136 | a body with a carriage return is not what is extracted after reading |
| KnowledgeVerifier.TamperReportIff | backend/agents/baseline_knowledge.py:255-296 | unless a body and what is read back for it collide under the hash, no helper is reported if and only if no body has a carriage return |
| KnowledgeVerifier.ReturnIsReported | backend/agents/baseline_knowledge.py:255-296 | a well-formed helper with a carriage return that is reported |
| KnowledgeVerifier.RecipesAreHashed | backend/agents/baseline_knowledge.py:45-81 | facts made from recipes carry the hash of their stripped, nonempty body |
| ImportLines.PresentIff | backend/agents/baseline_knowledge.py:332-346 | for any lines, any number of import lines with any spacing and any lists: a name passes the check if and only if it is a trimmed piece between the commas of some import line |
| ImportLines.ImportListsOf | backend/agents/baseline_knowledge.py:336-341 | the matches in a program are the lists of its import lines, in order |
| ImportLines.RequiredImportsAccepted | backend/agents/baseline_knowledge.py:58 | a program with the required line of each of its facts, in any places, passes the check for every one |
| ImportLines.RequiredLine | backend/agents/baseline_knowledge.py:58 | the required line of a fact is an import line of its one name |
| ImportLines.TokensFrom | backend/agents/baseline_knowledge.py:343 | splitting a joined list at its commas and trimming gives its trimmed pieces |
| ImportLines.ImportMatches | backend/agents/baseline_knowledge.py:336-341 | an import line matches, and its list is the group |
| ImportLines.OtherLines | backend/agents/baseline_knowledge.py:336-339 | a line that is no import from the curated module and does not run into the next line as one does not match, whatever follows |
| ImportLines.EveryLine | backend/agents/baseline_knowledge.py:336-341 | every line is an import line, for some spacing and pieces, or another, unless it ends behind one of the pattern's words |
| ImportLines.ParenthesesHideEnds | backend/agents/baseline_knowledge.py:340-346 | of the names in parentheses on one line exactly those neither first nor last are found |
| ImportLines.SeveralLinesHideAll | backend/agents/baseline_knowledge.py:340-346 | of the names in parentheses over several lines none is found |
| ImportLines.ExtraHidesName | backend/agents/baseline_knowledge.py:343 | a piece that starts with a name shows it if and only if only spaces follow |
| ImportLines.HiddenNames | backend/agents/baseline_knowledge.py:340-346 | a name in parentheses and one before a comment that are not found |
| KnowledgeVerifier.ExtractedChars | backend/agents/baseline_knowledge.py:349-373 | extraction invents no character |
| Calibration.MeanInRange | scripts/calibrate_grader.py:173-203 | least draw <= mean <= largest draw |
| Calibration.VarianceBound | scripts/calibrate_grader.py:140-144 | n - 1 times the sample variance is at most n times the squared range over 4 |
| Calibration.VarianceBoundIsMet | scripts/calibrate_grader.py:140-144 | two draws meet the bound |
| Calibration.ZeroVariance | scripts/calibrate_grader.py:140-144 | the variance is 0 if and only if all draws agree |
| Calibration.OrderIsIrrelevant | scripts/calibrate_grader.py:173-203 | a summary depends on the draws, not on their order |
| Calibration.ExtractLeafScores | scripts/calibrate_grader.py:147-170 | each leaf has the score of its last usable record, and only such leaves are listed |
| Calibration.AtMostOnePerDraw | scripts/calibrate_grader.py:147-203 | a leaf has at most one score per draw |
| Calibration.Calibrate | scripts/calibrate_grader.py:240-309 | refuses k < 1; the overall summary is of all k draws, each listed leaf's of its own scores, between 1 and k of them |
| Calibration.SummaryFields | scripts/calibrate_grader.py:173-203 | each figure of a summary by what it has to do with the draws |
| Calibration.LastScoreIff | scripts/calibrate_grader.py:147-170 | a leaf's score is its last number, entries without an id or a number being passed over |
| Calibration.OverallExact | scripts/calibrate_grader.py:290-302 | overall each draw counts, as 0 without a number |
| Calibration.ScoresExact | scripts/calibrate_grader.py:173-203 | for a leaf the draws count in which it has a score, in order |
| RegradeBackfill.RunDirectory.ArchiveOnce | scripts/regrade_backfill.py:263-275 | copies the artifact to its sidecar unless there is one |
| RegradeBackfill.RunDirectory.RewriteArtifact | scripts/regrade_backfill.py:263-282 | archive, temporary file, rename, cut off after any of them |
| RegradeBackfill.RunDirectory.BackfillRun | scripts/regrade_backfill.py:317-413 | files and outcome of a dry or applied visit, stopped after any number of writes; a dry one changes no file |
| RegradeBackfill.WritesFit | scripts/regrade_backfill.py:376-413 | whatever earlier visits left, the writes keep each artifact the original or stamped from it, and amount to the regraded directory |
| RegradeBackfill.WritesAmount | scripts/regrade_backfill.py:376-413 | with nothing assumed, the writes of a visit are possible in turn and together make the regraded directory |
| JsonText.SomeEnvironment | scripts/regrade_backfill.py:278-282 | what is assumed of the JSON library and the leaderboard can be met |
| RegradeBackfill.StopKeepsOk | scripts/regrade_backfill.py:263-284 | stopping between any two writes keeps the archive invariant |
| RegradeBackfill.OriginalIsKept | scripts/regrade_backfill.py:263-284 | over any history, whatever the grades and the JSON library: no sidecar means the artifact is the original, a sidecar is the original byte for byte, no other file changes |
| RegradeBackfill.StampAbsorbs | scripts/regrade_backfill.py:175-205 | stamping twice is stamping with the later grade |
| RegradeBackfill.OtherFieldsKept | scripts/regrade_backfill.py:175-205 | fields a stamp does not write are kept |
| RegradeBackfill.FieldsKept | scripts/regrade_backfill.py:175-205 | non-scoring fields keep their first values over any history of grades that JSON can carry |
| RegradeBackfill.DryVisitsDoNothing | scripts/regrade_backfill.py:376-413 | leaving all dry visits out of any history changes nothing |
| RegradeBackfill.CompleteVisit | scripts/regrade_backfill.py:376-413 | a visit that is not stopped does the whole backfill |
| RegradeBackfill.LastGradeWins | scripts/regrade_backfill.py:175-205 | a complete applied visit after any history leaves what it alone would have left |
| RegradeLaws.VisitWrites | scripts/regrade_backfill.py:317-413 | what a complete applied visit does to each artifact: when the directory has a readable rubric and the artifact a score, the document read back carries the grade field by field, all other fields as before, and the sidecar the old text; otherwise nothing changes |
| RegradeLaws.FreshCarries | scripts/regrade_backfill.py:139-205 | `meets_target` is true if and only if both scores are numbers and overall >= target, null if and only if the target is null or one is no number; the adjusted score is the overall one; the other fields are the result's own, an empty list for missing leaf scores; the stamp is the stamp's; other keys are untouched |
| RegradeLaws.ScoredIff | scripts/regrade_backfill.py:212-258 | which artifacts count as scored and which directories as gradeable |
| RegradeLaws.SkippedIff | scripts/regrade_backfill.py:343-413 | when a directory is skipped and why, and what is reported of each artifact otherwise |
| BackfillSweep.DiscoverRunDirs | scripts/regrade_backfill.py:421-448 | exactly the run and attempt directories, each once |
| BackfillSweep.ListAttempts | scripts/regrade_backfill.py:442-447 | the attempt directories of one run, in order |
| BackfillSweep.AttemptDirsExact | scripts/regrade_backfill.py:442-447 | those are exactly the children that are directories, each once |
| BackfillSweep.RunDirIff | scripts/regrade_backfill.py:421-448 | a directory is visited if and only if it is a run, the wanted one if one is named, or an attempt of such a run |
| BackfillSweep.RunsRoot.BackfillRoot | scripts/regrade_backfill.py:451-476 | each listed directory is visited once, with its own grade, and the others keep their files |
| EventLog.StepKeepsLog | backend/agents/dashboard_emitter.py:68-74 | each step of writers and reader keeps the log whole lines plus a prefix of the lock holder's line |
| EventLog.DashboardEmitter.Emit | backend/agents/dashboard_emitter.py:68-74 | the file is what the steps of one append leave, in whatever pieces the line arrives; a log of whole lines gets one more |
| EventLog.AppendInPieces | backend/agents/dashboard_emitter.py:68-74 | begin, any pieces that make up the line, end: the whole line is in the log and the event is emitted |
| EventLog.TornPoll | scripts/watch_run.py:37-42 | a run in which a poll during an append is given half a line and never the rest |
| EventLog.LinesFound | scripts/watch_run.py:37-42 | a poll sees the complete lines and, if one is being written, its part |
| EventLog.DeliveryIsExactIff | scripts/watch_run.py:37-42 | in every history what the watcher was given is the first lines, each once and in order, if and only if no poll read a torn line |
| EventLog.QuietPollsDeliverAll | scripts/watch_run.py:103-129 | polls made while no append is in flight deliver every emitted line |
| EventLog.Watcher.PollExperiments | scripts/watch_run.py:103-115 | counts the crashes among the new lines, stopping at the first if asked to, and has then seen all lines |
| EventLog.CrashesExact | scripts/watch_run.py:103-115 | the crashes counted are the lines that decode to one |
| StageMonitor.TailIsExactIff | scripts/_monitor_stages.py:43-53 | over raw content and what reading makes of it: the tail is just what is new if and only if nothing is new or all that was seen is one byte a character, line breaks included |
| StageMonitor.TailSkipsAfterNonAscii | scripts/_monitor_stages.py:43-53 | one accented letter loses a character |
| StageMonitor.TailSkipsAfterReturn | scripts/_monitor_stages.py:43-53 | one line ended by a carriage return and a newline, all of it ASCII, loses a character |
| StageMonitor.OffsetIsLargestSize | scripts/_monitor_stages.py:43-53 | the offset is the largest size seen, and a look at a file that has not grown delivers nothing |
| StageMonitor.LogIsRead | scripts/_monitor_stages.py:43-53 | an ASCII log with newlines alone is read as written, one byte a character |
| StageMonitor.MarkAllMarks | scripts/_monitor_stages.py:75-91 | a batch of lines marks exactly the waited-for agents it reports, and prints each newly marked one once |
| StageMonitor.StageWatcher.Turn | scripts/_monitor_stages.py:73-121 | one turn of the loop, done exactly when all agents are |
| StageMonitor.EveryStageOnce | scripts/_monitor_stages.py:43-123 | on a log with newlines alone, over any looks taken between appends every reported agent is marked and printed exactly once, even when growth between stat and read delivers lines twice |
| RunStatus.RunFiles.AtomicWrite | backend/cli.py:362-372 | temporary file, then rename: cut off anywhere, the status is the old or the new document |
| RunStatus.RunFiles.MarkStopped | backend/cli.py:375-409 | the files after the stopped marker, cut off after any write |
| RunStatus.RunFiles.MarkFailed | backend/cli.py:412-487 | the same for the failed marker with its stand-in report |
| RunStatus.RunFiles.MarkKilled | backend/cli.py:508-539 | the same for the killed marker |
| RunStatus.StatusPrecedence | backend/cli.py:375-539 | over any sequence of calls: rank never falls, completed, failed and killed are final to the last field, stopped becomes only killed, other fields are kept, an existing report is never overwritten |
| RunStatus.OldOrNew | backend/cli.py:362-372 | at every stopping point the status is the old or the whole new document, and a left-over temporary file does not matter |
| RunStatus.CorruptLosesRank | backend/cli.py:393-408 | an unreadable status file takes any marker |
| RunStatus.FailedMarkerAsDocumentedIff | backend/cli.py:412-462 | the failed marker leaves alone exactly the documented states if and only if the status is not killed |
| RunStatus.KilledIsLeftAlone | backend/cli.py:412-462 | it leaves a killed run alone |
| RunStatus.CompleteCall | backend/cli.py:375-539 | when each marker writes nothing, for any file; else the document has its status, times and reason, every other field as before, and a failure without a report gets one |
| ResumeCells.LoadAnyCellManifest | backend/cli.py:1415-1443 | the scan over all earlier runs and the sort compute the specified manifest |
| ResumeCells.NewestDecides | backend/cli.py:1436-1443 | the first newest manifest decides alone, readable or not |
| ResumeCells.UnreadableHidesOk | backend/cli.py:1436-1443 | an ok and current cell runs again because a newer manifest cannot be read |
| ResumeCells.SelectCellsNeedingRerun | backend/cli.py:1377-1412 | the loop computes the specified selection; entries without a string id are passed over |
| ResumeCells.SelectedExactly | backend/cli.py:1392-1412 | whatever ids repeat, an id is selected if and only if a cell of that name is due, with the reason of the last such cell |
| ResumeCells.SkippedIff | backend/cli.py:1377-1443 | with distinct ids a cell is skipped if and only if it is not forced and its newest manifest is ok with the current fingerprint |
| ResumeCells.ReasonIff | backend/cli.py:1377-1412 | each reason if and only if: forced; no newest manifest that is ok; ok but of another fingerprint |
| ResumeCells.ForcingOnlyAdds | backend/cli.py:1399-1401 | a larger force set adds exactly the newly forced cells of the list and changes no other reason |
| ResumeCells.BuildForceCells | backend/cli.py:1349-1374 | all cells of the requested environments and all requested ids, trimmed, known or not |
| ResumeCells.FlagsSelect | backend/cli.py:1349-1412 | end to end, a cell asked for by environment or id is rerun as forced, any other is treated as without flags |
| ResumeCells.NextResume | backend/cli.py:1377-1443 | after a resume that leaves a newer manifest for each selected cell, the next one selects exactly those whose new manifest is not ok or stale |
| RepairGroups.ReadClusters | backend/app.py:94-142 | the two loops over files and histories compute the specified clusters, or fail on a file that is no object |
| RepairGroups.ReadPasses | backend/app.py:154-172 | the grouping loop computes the specified passes in whatever order the files are listed |
| RepairGroups.ClustersAccountForRepairs | backend/app.py:94-142 | however repairs are weighed, the histories of all clusters together weigh what the readable repair files do: none lost, none twice |
| RepairGroups.SummariesAgree | backend/app.py:94-172 | passes come in order, each counts the entries and failed entries of its number over all histories, exactly the passes with an entry are listed, and history lengths add up to the counts |
| RepairGroups.SummaryCounts | backend/app.py:165-171 | count and failed count of one pass against the histories |
| RepairGroups.PassesShape | backend/app.py:163-171 | exactly the passes with a readable file, increasing |
| RepairGroups.ClustersShape | backend/app.py:125-141 | clusters sorted by index, histories by pass, each id once |
| RepairGroups.EntriesExact | backend/app.py:94-140 | exactly the ids of readable checkpoints and repairs have an entry |
| RepairGroups.StubsExact | backend/app.py:129-139 | an entry is a stub if and only if no checkpoint names it |
| RepairLaws.EntryFields | backend/app.py:94-142 | the fields of an entry: those of the last readable checkpoint that names it, or of a stub, and the readable repairs of its id by pass |
| RepairLaws.HistoriesWeighFiles | backend/app.py:94-142 | however repairs are weighed, all histories together weigh what the repair files record, one by one |
| RepairLaws.EntryIff | backend/app.py:94-142 | an id has an entry if and only if a readable checkpoint or repair file names it |
| RepairLaws.ClustersInOrder | backend/app.py:141-142 | entries by index, no id twice |
| RepairLaws.PassCounts | backend/app.py:154-172 | a listed pass counts the readable repair files of its number and the failed ones among them |
| DockerFrom.ExtractFromImage | backend/agents/environment_detective.py:300-320 | the early-return scan computes the image of the first instruction |
| DockerFrom.NormalizeDockerfileFrom | backend/agents/environment_detective.py:486-558 | the three branches and their loops compute the specified text |
| DockerFrom.FromHasImage | backend/agents/environment_detective.py:312-316 | a `FROM ` line always names an image: the malformed case cannot arise |
| DockerFromLaws.ResultStartsKnownGood | backend/agents/environment_detective.py:486-558 | the first instruction of the result always has a known-good image |
| DockerFromLaws.UnchangedIff | backend/agents/environment_detective.py:486-558 | the text is unchanged if and only if it already starts with a known-good image |
| DockerFromLaws.NormalizingTwice | backend/agents/environment_detective.py:486-558 | normalising is idempotent |
| DockerFromLaws.UnknownImage | backend/agents/environment_detective.py:518-545 | an unknown image changes one word of its own line and no other text; lines stay lines if and only if that line ends in a newline or is the last |
| DockerFromLaws.ReturnSwallowsLine | backend/agents/environment_detective.py:539-541 | after an unknown image and a lone carriage return the next line becomes part of the instruction |
| DockerFromLaws.RunIsSwallowed | backend/agents/environment_detective.py:539-541 | a build command that becomes part of the image name |
| DockerFromLaws.MissingImage | backend/agents/environment_detective.py:502-516 | without an image the result is the fallback instruction and all lines not beginning with FROM, in order; they stay lines if and only if no carriage return comes to meet a newline |
| DockerFromLaws.DroppingJoinsLines | backend/agents/environment_detective.py:502-516 | a text in which dropping a bare FROM makes one line of two |
| DockerFromLaws.FlagTakenForImage | backend/agents/environment_detective.py:313-315 | a flag before the image is what the fallback replaces |
| DockerImages.KnownGoodIff | backend/agents/environment_detective.py:260-332 | an image is known to be good if and only if it is a variable or begins with one of 21 names, in capitals or small letters |
| DockerImages.LineKinds | backend/agents/environment_detective.py:300-317 | which lines are passed over, which is a `FROM` and which is dropped, by what is left without spaces |
| DockerImages.UntaggedIsUnknown | backend/agents/environment_detective.py:264-270 | `python`, `ubuntu` and `debian` without a tag are not known to be good |
| DockerImages.UntaggedIsReplaced | backend/agents/environment_detective.py:264-270 | so that `FROM python AS build` does not come back as it was |
| DockerFromLaws.SwapAtFrom | backend/agents/environment_detective.py:300-317 | the image is the second word of the first `FROM` that only skipped lines precede |
| DockerFrom.WordsOfJoin | backend/agents/environment_detective.py:532-541 | words joined by blanks split back into the same words |
| TraceMetrics.ParseRunMetrics | scripts/rlm_root_ab.py:97-185 | the single pass equals independent queries over the events, and fails on a line that is no object |
| TraceMetrics.TallyExact | scripts/rlm_root_ab.py:121-139 | each code has as many entries as warnings resolve to it, and the tally adds up to the resolvable warnings |
| TraceMetrics.MaxExact | scripts/rlm_root_ab.py:113-118 | the maximum is an upper bound that is met, or 0 |
| TraceMetrics.LastDecides | scripts/rlm_root_ab.py:170-185 | the last completion with a number gives the iterations, wherever it stands |
| TraceMetrics.IterationsAsPromisedIff | scripts/rlm_root_ab.py:178-185 | the iterations are what the comment promises if and only if there is a completion or a positive number |
| TraceMetrics.IterationNotCounted | scripts/rlm_root_ab.py:178-185 | one iteration event without a number |
| TraceMetrics.FirstDecides | scripts/rlm_root_ab.py:142-157 | the first baseline call decides, by the events before it alone |
| TraceMetrics.CutAnywhere | scripts/rlm_root_ab.py:97-185 | how the queries of two parts give those of the whole, the first baseline included whichever part it is in |
| TraceMetrics.CutBaseline | scripts/rlm_root_ab.py:142-157 | the first baseline of a cut trace |
| TraceLaws.CountsOfEvents | scripts/rlm_root_ab.py:117-168 | blocked arguments, fabrications and each warning code are counted event by event, with the texts written out |
| TraceLaws.BaselineOfEvents | scripts/rlm_root_ab.py:142-157 | the first start of a baseline is recorded at the largest positive number before it, else at the number of iteration events before it |
| TraceLaws.IterationsWithoutCompletion | scripts/rlm_root_ab.py:178-185 | without a completion the iterations are the largest positive number, or not known |
| TraceMetrics.MeansAccount | scripts/rlm_root_ab.py:227-274 | n times each mean is the summed count, exactly the tallied codes have one, and all together are the resolvable warnings of all traces |
| TraceMetrics.MeanOfPresent | scripts/rlm_root_ab.py:247-249 | missing values are left out and the mean lies between the least and the largest present |
| AbCompare.BuildComparison | scripts/ab_compare.py:315-412 | the grouping, picking, gating and listing loops compute the specified report |
| AbCompare.ValidatorGate | scripts/ab_compare.py:121-178 | in validator mode deltas are given if and only if both arms are picked, stamped, complete, with present and equal rubric hashes and equal scopes; an unstamped run is never the control |
| AbCompare.SwappingArmsNegates | scripts/ab_compare.py:377-393 | exchanging the arms negates every delta and reverses every move, in the same order |
| AbCompare.LeafMovesAreLargest | scripts/ab_compare.py:383-393 | at most 8 moves, non-increasing, of leaves scored in both arms, and none left out is larger |
| AbCompare.PickIsFirstMax | scripts/ab_compare.py:282-287 | the picked run loses to none and beats all before it, for both selections |
| AbCompare.BestHasLargestScore | scripts/ab_compare.py:285-286 | the picked score is the largest unless and only unless some run is scored 0, none above, and one between -1 and 0, or -1 before any 0; a run without a score is picked only when none has one |
| AbCompare.ZeroIsNotPicked | scripts/ab_compare.py:285-286 | a run scored -0.5 is picked before one scored 0 |
| AbCompareLaws.ShownRuns | scripts/ab_compare.py:315-354 | which runs compete for each arm, by selector and stamp, and that the one shown loses to none |
| AbCompareLaws.LosesIff | scripts/ab_compare.py:282-287 | `best` prefers a score to none and a higher one, 0 counting as -1; `latest` the later text |
| AbCompareLaws.LexIff | scripts/ab_compare.py:287 | texts are compared at the first character that differs |
| AbCompareLaws.DeltasFromControlToBes | scripts/ab_compare.py:377-382 | each delta is the BES value minus the control value, when both are there; outside validator mode they are given if and only if both arms have a run |
| AbCompareLaws.MovesFromControlToBes | scripts/ab_compare.py:383-393 | each of at most 8 moves is the difference of a leaf scored in both arms, of at least 1e-9 |
| AbCompareLaws.RefusalReason | scripts/ab_compare.py:121-178 | the reason for which validator mode refuses; the two about stamps never arise |
| EnvAliases.Environment.ApplyLegacyAliases | backend/config.py:26-30 | the loop over the snapshot computes the specified environment in any order of iteration |
| EnvAliases.AliasesAgree | backend/config.py:26-30 | for every suffix both names end up set or neither; set values stay; a one-sided value is copied exactly |
| EnvAliases.OthersUntouched | backend/config.py:26-30 | set names and names outside the rename keep their state |
| EnvAliases.AliasingTwice | backend/config.py:26-30 | a second run adds nothing |
| StableSort.SortSorts | backend/app.py:128-141 | the sort orders by key and keeps every element |
| StableSort.SortStable | backend/app.py:128-141 | elements with equal keys keep their order |

## Left out

- Several files in one diff, files whose last line has no newline, lines with a form feed or another break inside (Python splits there too), and Unicode digits in hunk headers (`\d` is taken as 0 to 9).
- Gae.ComputeAdvantages: one environment's column over real numbers; the tensor code does all columns elementwise and rounds.
- Floating-point rounding everywhere; the standard deviation enters as its square.
- Deletions that fail, symbolic links and files that change during a collection.
- GpuScheduler.ReachableSafety: leaves out a shutdown signal during a worker's setup, shared lease ids and a scheduler killed outright, where the code does not keep the property; the three collision lemmas show each.
- A killed child counts as dead at once, and what `nvidia-smi` reports enters only as the list of free cards.
- Leases that `serve_local_llm` keeps on purpose, virtual environments, environment provisioning and the reports synthesised for killed children.
- ImportLines.PresentIff: a line that ends, but for spaces, behind `from`, the module's name or `import`; the pattern then reads on in the next line, and no such line is Python.
- The fixed comment header of the helper module is a parameter, as are the hash function, Python's own parser, JSON, `float()`, ages, clocks and cell fingerprints; detail texts of violations are not modelled.
- LLM, SDK and grader calls: arbitrary results.
- Old and new scores in backfill outcomes, leaf counts in calibration records, and the calibration ledger.
- StageMonitor.EveryStageOnce: does not hold for logs whose lines end in a carriage return and a newline, as text mode writes them on Windows; `TailSkipsAfterReturn` shows why.
- StageMonitor.TailIsExactIff: a look that falls inside the bytes of one character.
- RunStatus: the normal end of a run, which writes `completed`, and the reports it writes; a temporary file that is itself half written.
- ResumeCells: the order of the selection, which only affects printing; the lower-casing of environment names is a parameter.
- RepairGroups: numbers that are not integers in `repair_pass`, the parsing of the index out of a file name (a parameter), and the redaction of corpus keys.
- DockerFrom: the advisory hint about development images, which never changes the text; lower-casing is modelled for ASCII and the Kelvin sign, which is all that can meet a family name.
- TraceMetrics: verdict distributions and scores copied from the final report.
- AbCompare: reading candidate reports, archive completeness, hashing and canonical scopes enter as fields of a run; the rendered report.
- BackfillSweep.DiscoverRunDirs: the order of the directories, which only affects printing.
- EnvAliases: case-insensitive environments.
- HTTP routes, the terminal interface, argument parsing, RunPod and the frontend.
