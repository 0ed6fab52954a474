# rsempipeline admission control, modelled in Dafny

rsempipeline runs RNA-seq samples from GEO through a fixed chain. Each sample (a
GSM) belongs to a series (a GSE). The chain downloads the sample's sra files,
converts them to fastq.gz, writes a qsub submit script and runs RSEM. Two
periodic jobs decide which samples may move on, and both are limited by disk space:

- **Local processing** (`rsempipeline/utils/pre_pipeline_run.py`). This job
  computes a local budget and skips samples whose flag files show they are
  complete. It estimates each remaining sample's processing usage from its
  `sras_info.yaml`. It then admits samples first-fit, in order, taking each
  admitted estimate off the budget. A sample whose estimate *equals* what is left
  still fits here.
- **Transfer to the remote cluster** (`rsem_transfer.py`). This job estimates
  the usage already pending on the remote tree and derives a remote budget. It
  walks the local tree for sample directories (`GSE…/species/GSM…`) that are
  not yet in the transfer record and that have converted reads and a submit
  script. These are admitted first-fit with a *strict* comparison. After a
  successful transfer, the batch is appended to the record, and the record
  keeps it from being offered again.

The model also covers the parts that feed these jobs:

- generating the samples: the soft files intersected with the interested-sample
  input, plus a sanity check, in both versions the repository carries
  (`utils_pre_pipeline_run.py` and `rsempipeline/utils/pre_pipeline_run.py`);
- the grouped report of the ids that fail the sanity check (`format_gsms_diff`);
- the standalone duplicate-GSM detector over a GSE/GSM csv
  (`rsem_pipeline/preprocess/find_duplicated_GSMs.py`).

Modules:

| file | module | what it holds |
|---|---|---|
| common.dfy | Common | Option/Result, exceptions, paths as component sequences, flag-file names, Map and Filter |
| patterns.dfy | Patterns | the regular expressions the core uses, as a small matcher proved equal to the regex meaning |
| text.dfy | Text | lines and strip, string order and `sorted()`, splitting at ':' |
| greedy.dfy | Greedy | the first-fit scan both admission jobs share, strict or not |
| local_admission.dfy | LocalAdmission | the local budget, completion stages, usage estimate and the processing scan |
| transfer_record.dfy | TransferRecord | the transfer record file: reading it, appending a batch (a class over the file) |
| transfer_admission.dfy | TransferAdmission | the remote budget, the pending-usage estimate, `find_fq_gzs` and the transfer scan |
| sample_intersection.dfy | SampleIntersection | the soft/isamp intersection, both sanity checks and the output directories |
| gsms_diff.dfy | GsmsDiff | `format_gsms_diff`: grouping the sorted ids by GSE |
| duplicated_gsms.dfy | DuplicatedGsms | the duplicate-GSM pass |

The parts of the core that work step by step are methods with loop invariants,
each proved against a function that specifies it:
- the two admission scans (`FindGsmsToProcess`, `FindGsmsToTransfer`, with
  `WeighDirectory` for one step of the walk);
- the remote usage estimate (`EstimateCurrentRemoteUsage`);
- the flag and fastq.gz collection (`CollectMissingFlags`, `CollectFqGzs`);
- the soft-file intersection (`IntersectSamples`);
- the grouping loop of `format_gsms_diff` (`FormatGsmsDiff`);
- the duplicate-GSM pass (`FindDuplicates`);
- the record append, on a `TransferLog` class whose `file` field the methods update.

Each such function is then characterised by lemmas: soundness, "greedy to the
end", iff-characterisations and round trips.

Behaviour worth noting:

- The local budget is `min(max_usage - current_usage - min_free, free_space - min_free)`
  (`rsempipeline/utils/pre_pipeline_run.py:184-186`).
- A sample without `sras_info.yaml` makes `is_processed` and
  `estimate_proc_usage` raise IOError, which aborts the whole scan.
- A budget of zero or less does not skip the scan. Every sample is still checked
  (which can raise). A sample estimated at exactly 0 still fits a local budget of 0.
- The repository's test of the usage estimate
  (`tests/test_utils/test_pre_pipeline_run.py:243-248`) expects `size * ratio`
  from a function that no longer exists. The code computes `(1 + ratio) * size`
  (`rsempipeline/utils/pre_pipeline_run.py:256-259`), and so does the model.

## Model

| member | source | states |
|---|---|---|
| Common.RsemOutdir | rsempipeline/utils/pre_pipeline_run.py:96-100 | the rsem output directory is the entry `rsem_output` directly under the top output directory |
| Common.Split | rsem_transfer.py:245-246 | os.path.split: a non-empty path is its head followed by its last component |
| Patterns.MatchAtIsRegexMatch | rsem_transfer.py:107 | the greedy matcher succeeds at a position exactly when the regex matches there (lead classes, one or more digits, trail classes, optional `$`) |
| Patterns.SearchFromIsLeftmost | rsem_transfer.py:165 | re.search: the match found is the leftmost one, and none exists when nothing is found |
| Patterns.AccessionAtEndIff | rsem_transfer.py:327 | `GSM\d+$` / `GSE\d+$` matches a name iff the name ends in the tag followed by one or more digits |
| Patterns.Group0 | rsem_transfer.py:165-167 | the matched text exists iff the pattern matches |
| Patterns.Group0MatchesInFull | rsem_transfer.py:165-167 | the matched text, searched on its own, matches the pattern from its first character to its last |
| Patterns.SoftFileGroup | utils_pre_pipeline_run.py:55 | group 1 of the soft-file pattern is "GSE" followed by one or more digits |
| Text.Sort | utils_pre_pipeline_run.py:113 | sorted(): the result is ordered and a permutation of the input |
| Text.LexLeTotal | utils_pre_pipeline_run.py:113 | string comparison orders any two strings |
| Text.LexLeTransitive | utils_pre_pipeline_run.py:113 | string comparison is transitive |
| Text.LexLeAntisymmetric | utils_pre_pipeline_run.py:113 | two strings each at most the other are equal |
| Text.LexLeBetweenSharesPrefix | utils_pre_pipeline_run.py:113-115 | a string sorted between two strings with a common prefix has that prefix too |
| Text.SplitColon | utils_pre_pipeline_run.py:114 | a successful split gives two colon-free halves that rejoin to the id |
| Text.SplitColonIffOneColon | utils_pre_pipeline_run.py:114 | the two-name unpacking of split(':') succeeds iff the id has exactly one colon |
| Text.SplitColonOfJoin | utils_pre_pipeline_run.py:79-81 | an id built as gse:gsm from colon-free names splits back into them |
| Text.StripDropsNewline | rsem_transfer.py:210 | stripping a written record line gives back the id |
| Text.LinesOfConcat | rsem_transfer.py:209-210 | the lines of text appended after a complete line are the old lines followed by the new ones |
| TransferRecord.CommentReadsAsNothing | rsem_transfer.py:210 | a line starting with '#' contributes no id |
| TransferRecord.ReadIdLines | rsem_transfer.py:202-222 | reading back the id lines written for a batch gives the batch |
| TransferRecord.ReadBlock | rsem_transfer.py:218-222 | reading back a timestamp comment plus id lines gives exactly the ids |
| TransferRecord.ReadAfterAppend | rsem_transfer.py:202-222 | after an append, reading the record gives the old ids followed by the batch |
| TransferRecord.TransferLog.Append | rsem_transfer.py:213-222 | the file becomes its old contents (none if missing) plus the comment line and one line per id |
| TransferRecord.TransferLog.RecordTransferOutcome | rsem_transfer.py:373-403 | the record grows by the batch iff the batch is non-empty and the transfer exit code is 0; otherwise it is unchanged |
| TransferRecord.SuccessfulTransferExtendsRecord | rsem_transfer.py:402-403 | after a successful transfer the old record is a prefix of the new one and every transferred id is in it |
| TransferAdmission.EstimateRsemUsage | rsem_transfer.py:174-199 | the estimate is 0 for no reads and not negative for a non-negative ratio |
| TransferAdmission.EstimateMonotone | rsem_transfer.py:192-199 | more fastq.gz bytes never give a smaller estimate |
| TransferAdmission.RemoteFreeToUse | rsem_transfer.py:303-308 | the remote budget is at most free minus reserve, free minus pending and ceiling minus pending, and equals one of them |
| TransferAdmission.Rebase | rsem_transfer.py:113 | a remote directory under the remote top maps to the same relative place under the local top; any other path is left unchanged |
| TransferAdmission.PendingUsage | rsem_transfer.py:105-116 | the pending estimate is not negative, and is 0 when no listed directory is a pending sample directory |
| TransferAdmission.PendingUsageIgnoresOrder | rsem_transfer.py:106 | sorting the listing does not change the estimate (any permutation gives the same sum) |
| TransferAdmission.NothingPendingIsFree | rsem_transfer.py:108-115 | when every listed directory is complete or empty, nothing is pending |
| TransferAdmission.EstimateCurrentRemoteUsage | rsem_transfer.py:82-116 | raises when the remote listing fails, and otherwise returns the pending estimate of the listing |
| TransferAdmission.NoMissingFlagIff | rsem_transfer.py:149-155 | no flag is missing iff every sra has its sra2fastq.COMPLETE flag |
| TransferAdmission.FqGzNamesSpec | rsem_transfer.py:162-167 | no read file is found iff no name matches the fastq.gz pattern, and each one found is the match text of a listed name and has the shape `[SER]RR\d+_[12].fastq.gz` in full |
| TransferAdmission.CollectMissingFlags | rsem_transfer.py:149-153 | the loop collects exactly the missing flags, in sra order |
| TransferAdmission.CollectFqGzs | rsem_transfer.py:162-171 | the loop collects the matched read files under the sample directory, in listing order |
| TransferAdmission.FindFqGzs | rsem_transfer.py:139-171 | read files are returned iff there are sra files and every one has its conversion flag; then they are the collected read files |
| TransferAdmission.HasReadsIff | rsem_transfer.py:139-171 | find_fq_gzs yields a non-empty list iff sras exist, all are converted and some file matches the read pattern |
| TransferAdmission.GseSpeciesGsm | rsem_transfer.py:240-248 | the three names are the last three components of the path |
| TransferAdmission.UnitDirIff | rsem_transfer.py:326-328 | the two name patterns accept exactly the directories ending GSE…/species/GSM… |
| TransferAdmission.TransferId | rsem_transfer.py:332 | the transfer id is the path relative to the local top, "." for the top itself |
| TransferAdmission.ConsideredIff | rsem_transfer.py:325-346 | a directory reaches the estimate iff it passes, in order, the name patterns, the record, the reads and the submit-script checks |
| TransferAdmission.Cost | rsem_transfer.py:347-348 | a directory's estimate is not negative for a non-negative ratio |
| TransferAdmission.WeighDirectory | rsem_transfer.py:326-348 | one walk step gives an estimate iff the directory is considered, and the estimate is its cost |
| TransferAdmission.FindGsmsToTransfer | rsem_transfer.py:316-357 | the loop returns the ids of the first-fit strict admission over the walk |
| TransferAdmission.SelectSamplesToTransfer | rsem_transfer.py:275-313 | raises iff the remote listing fails; otherwise the scan runs with the remote budget |
| TransferAdmission.RunTransfer | rsem_transfer.py:361-403 | the batch is selected as above, and the record is appended to iff the batch is non-empty and the transfer succeeds |
| TransferAdmission.TransferScanSound | rsem_transfer.py:322-357 | the batch is considered directories in walk order, none already recorded, summing to strictly less than the budget |
| TransferAdmission.TransferScanLeavesNoFit | rsem_transfer.py:349-354 | every considered directory left out costs at least what the batch leaves of the budget |
| TransferAdmission.NothingFitsNoRemoteBudget | rsem_transfer.py:349 | a budget of zero or less admits nothing |
| TransferAdmission.StrictBudgetExample | rsem_transfer.py:349 | a directory estimated at exactly the budget is not admitted, and a later smaller one is |
| TransferAdmission.ScanContinuesExample | rsem_transfer.py:342-357 | the scan goes on past a directory that does not fit |
| TransferAdmission.RecordedAreNotOfferedAgain | rsem_transfer.py:322-336 | a directory whose id was recorded by a successful transfer is not considered again |
| Greedy.AdmitSound | rsempipeline/utils/pre_pipeline_run.py:223-241 | the scan admits eligible candidates only, in input order, with a total that fits the budget |
| Greedy.AdmitLeavesNoFit | rsempipeline/utils/pre_pipeline_run.py:232-241 | an eligible candidate left out does not fit what the admitted ones leave |
| Greedy.NothingFitsNoBudget | rsempipeline/utils/pre_pipeline_run.py:233-236 | with non-negative costs, a negative budget (or zero for the strict scan) admits nothing |
| Greedy.NoneEligibleAdmitsNothing | rsempipeline/utils/pre_pipeline_run.py:224-226 | with no eligible candidate nothing is admitted |
| Greedy.StrictRejectsExactFit | rsem_transfer.py:349 | the strict scan rejects a cost equal to what is left |
| Greedy.ScanPastRejection | rsem_transfer.py:349-354 | the scan admits later candidates that fit after a rejection |
| Greedy.FirstFitOnlyOnce | tests/test_utils/test_pre_pipeline_run.py:221-227 | two candidates of 513 against 1024: only the first is admitted |
| Greedy.FirstFitSkipsTooLarge | rsempipeline/utils/pre_pipeline_run.py:232-241 | a candidate too large for what is left is skipped and a later smaller one admitted |
| LocalAdmission.CalcFreeSpaceToUse | rsempipeline/utils/pre_pipeline_run.py:184-186 | the budget is at most both terms and equals one of them |
| LocalAdmission.EstimateProcUsage | rsempipeline/utils/pre_pipeline_run.py:245-260 | raises IOError iff the sample has no sras_info.yaml |
| LocalAdmission.ProcUsageNonNegative | rsempipeline/utils/pre_pipeline_run.py:256-259 | `(1 + ratio) * size` is not negative for ratio >= -1, and is 0 when the sras are empty |
| LocalAdmission.IsProcessed | rsempipeline/utils/pre_pipeline_run.py:263-284 | raises IOError iff sras_info.yaml is missing |
| LocalAdmission.StagesAreAllOf | rsempipeline/utils/pre_pipeline_run.py:263-300 | processed iff every sra has both flags and the submit script exists; download-incomplete iff some download flag is missing; sra2fastq-incomplete iff all are downloaded and some conversion flag is missing |
| LocalAdmission.NoSraFilesNeedOnlyTheScript | rsempipeline/utils/pre_pipeline_run.py:268-277 | with no sra listed, processed iff the submit script exists |
| LocalAdmission.ProcessedStaysProcessed | rsempipeline/utils/pre_pipeline_run.py:287-300 | adding files never un-processes a sample |
| LocalAdmission.FindGsmsToProcess | rsempipeline/utils/pre_pipeline_run.py:216-242 | the loop raises like the scan and otherwise returns the scan's selection |
| LocalAdmission.SelectSamplesToProcess | rsempipeline/utils/pre_pipeline_run.py:190-213 | runs the scan with the local budget |
| LocalAdmission.ScanRaisesIffInfoMissing | rsempipeline/utils/pre_pipeline_run.py:223-232 | the scan raises iff some sample lacks sras_info.yaml, and the error is IOError |
| LocalAdmission.ProcessedNeverSelected | rsempipeline/utils/pre_pipeline_run.py:223-226 | the selection is a subsequence of unprocessed samples |
| LocalAdmission.AllProcessedSelectsNothing | tests/test_utils/test_pre_pipeline_run.py:209-213 | when all samples are processed the selection is empty |
| LocalAdmission.IgnoringUsageSelectsAllUnprocessed | tests/test_utils/test_pre_pipeline_run.py:215-219 | ignoring the usage rule selects exactly the unprocessed samples, in order, whatever the budget |
| LocalAdmission.SelectionFitsBudget | rsempipeline/utils/pre_pipeline_run.py:232-241 | the selection's usage sums to at most the budget |
| LocalAdmission.ScanLeavesNoFit | rsempipeline/utils/pre_pipeline_run.py:232-241 | an unprocessed sample left out needs more than the budget the selection leaves |
| LocalAdmission.SecondOf513DoesNotFit | tests/test_utils/test_pre_pipeline_run.py:221-227 | two unprocessed samples of 513 against 1024: only the first is selected |
| LocalAdmission.ExactFitIsSelected | rsempipeline/utils/pre_pipeline_run.py:233 | a sample whose usage equals the budget is selected |
| LocalAdmission.ThreeSampleScenario | rsempipeline/utils/pre_pipeline_run.py:232-241 | 1.5 GB, 3 GB and 0.75 GB estimates against 3 GB: the first and third are selected |
| SampleIntersection.IntersectSamples | utils_pre_pipeline_run.py:52-70 | the loop builds the intersection of all soft files |
| SampleIntersection.UnrecognisedSoftFileAddsNothing | utils_pre_pipeline_run.py:55-61 | a soft file without a GSE in its name, or with an uninteresting GSE, adds no sample |
| SampleIntersection.ContributionKeepsInterested | utils_pre_pipeline_run.py:61-70 | a series keeps exactly its passed samples listed for it, in order, and none if its name is not listed |
| SampleIntersection.SanityCheck | utils_pre_pipeline_run.py:77-98 | succeeds iff the interested ids equal the processed ids; otherwise raises ValueError |
| SampleIntersection.SanityCheckCounts | rsempipeline/utils/pre_pipeline_run.py:81-93 | succeeds iff the two counts are equal; otherwise raises ValueError |
| SampleIntersection.GenSamplesFromSoftAndIsamp | utils_pre_pipeline_run.py:36-74 | returns the intersection iff its ids match the interested ids; otherwise raises ValueError |
| SampleIntersection.GenSamplesCounted | rsempipeline/utils/pre_pipeline_run.py:30-78 | returns the intersection iff its size equals the number of interested samples; otherwise raises ValueError |
| SampleIntersection.IntersectedAreInterested | utils_pre_pipeline_run.py:66-81 | with a consistent parser every processed id is an interested id |
| SampleIntersection.SanityFailsOnlyForMissing | utils_pre_pipeline_run.py:77-98 | with a consistent parser the check fails iff some interested sample is missing |
| SampleIntersection.GetTopOutdir | utils_pre_pipeline_run.py:10-27 | the configured directory if any, else the isamp file's directory if the file exists, else ValueError |
| SampleIntersection.GetRsemOutdir | utils_pre_pipeline_run.py:30-33 | `rsem_output` under the top output directory; raises iff the top cannot be decided |
| GsmsDiff.FormatGsmsDiff | utils_pre_pipeline_run.py:101-122 | the loop builds the labelled groups, or raises ValueError |
| GsmsDiff.GsmsDiffRaisesIff | utils_pre_pipeline_run.py:113-114 | raises iff some id does not split into exactly two names |
| GsmsDiff.Contiguous | utils_pre_pipeline_run.py:113-115 | in sorted ids, an id between two ids of one GSE has that GSE |
| GsmsDiff.NewGseIsFresh | utils_pre_pipeline_run.py:115-117 | when the GSE changes, the new GSE has not been seen, so `dd[gse] = [gsm]` overwrites nothing |
| GsmsDiff.GroupsSnoc | utils_pre_pipeline_run.py:115-119 | one more id starts its GSE's group or extends it, leaving other groups unchanged |
| GsmsDiff.GsmsOfCount | utils_pre_pipeline_run.py:113-119 | the group built for a GSE holds one GSM per id of that GSE |
| GsmsDiff.ReportEntries | utils_pre_pipeline_run.py:111-122 | an entry (g, n) is in the report iff n, the number of ids in the input that have GSE g, is at least 1; it holds that group |
| GsmsDiff.ReportGses | utils_pre_pipeline_run.py:111-122 | the GSEs reported are exactly those of the ids |
| GsmsDiff.ReportGroupMembers | utils_pre_pipeline_run.py:111-122 | the GSMs under a GSE are exactly those paired with it in the ids |
| GsmsDiff.ReportGroupsAreSorted | utils_pre_pipeline_run.py:113-119 | each group lists its GSMs in sorted order |
| DuplicatedGsms.FindDuplicates | rsem_pipeline/preprocess/find_duplicated_GSMs.py:13-31 | the loop reports exactly the duplicate rows in order; the flag holds iff none is reported; the exit status is 1 otherwise |
| DuplicatedGsms.RunGsmsIff | rsem_pipeline/preprocess/find_duplicated_GSMs.py:18-23 | the seen list holds exactly the GSMs of the current contiguous run of the GSE |
| DuplicatedGsms.DuplicateIff | rsem_pipeline/preprocess/find_duplicated_GSMs.py:18-26 | a row is reported iff an earlier row of the same contiguous run has its GSM: the first occurrence never is, later ones always are |
| DuplicatedGsms.GseChangeResets | rsem_pipeline/preprocess/find_duplicated_GSMs.py:19-21 | a row that changes the GSE is never reported and restarts the seen list |
| DuplicatedGsms.ReportsAtIndices | rsem_pipeline/preprocess/find_duplicated_GSMs.py:22-26 | the report lists the rows at the duplicate indices, one each |
| DuplicatedGsms.DuplicateIndicesIncrease | rsem_pipeline/preprocess/find_duplicated_GSMs.py:18-26 | reports come out in row order |
| DuplicatedGsms.DuplicateIndicesMembers | rsem_pipeline/preprocess/find_duplicated_GSMs.py:22-26 | the reported indices are exactly the duplicate rows |
| DuplicatedGsms.NoReportsIff | rsem_pipeline/preprocess/find_duplicated_GSMs.py:26-31 | nothing is reported (normal exit) iff no row is a duplicate |
| DuplicatedGsms.SplitRunIsMissed | rsem_pipeline/preprocess/find_duplicated_GSMs.py:19-21 | a GSM repeated in two separate runs of one GSE is not reported |
| DuplicatedGsms.RepeatsInRunAreReported | rsem_pipeline/preprocess/find_duplicated_GSMs.py:22-26 | a GSM three times in one run is reported for its second and third rows |

## Left out

- Remote commands (`sshexec`, `df`, `du`, `find` over ssh), the local `df`/`du`,
  and the FTP download are not modelled. Their results are parameters: free space,
  current usage, the remote listing as `Option<seq<Path>>`.
  `get_real_current_usage` is only logged, so it is left out.
- The filesystem is a parameter. This covers directory listings
  (`files: seq<string>`), existence of `sras_info.yaml` (`Option`), the submit
  script probe (a bool) and the walk of the local tree (a sequence of entries in
  walk order).
- File contents are parameters. `get_fq_gz_sizes` and `create` become a size
  function `Path -> nat`. `find_sras` is the sras list of a walk entry. A
  malformed or empty YAML file is not modelled.
- YAML parsing, the Jinja template, writing and running the transfer script,
  `chmod`, `lockit`, logging and `print` are not modelled. The script's exit
  code is a parameter (`rcode`).
- `pretty_usage` / `ugly_usage` are not modelled. Sizes from configuration
  strings are taken as numbers. Byte counts and ratios are `real`, with no
  floating-point rounding.
- The configuration keys that `select_samples_to_process` reads
  (`LOCATOP_OUTDIR`, `LOCACMD_DF`, `LOCAMIN_FREE`, misspelt in the source) are
  not modelled; their values are parameters.
- TransferAdmission.Rebase: models `str.replace` for a path that begins with
  the remote top. It does not model replacing occurrences in the middle of a path.
- Patterns.AccessionAtEndIff: `$` also matches before one trailing newline in
  Python. Directory names hold no newline, so this case is not modelled.
- GsmsDiff.FormatGsmsDiff: the report is modelled up to the labelled dict
  (`dd2`). The label is the pair (gse, count) rather than the text
  `'GSE (n)'`. The dict's iteration order and the joined text are not modelled.
- `init_sample_outdirs` (creating directories) is not modelled.
- TransferAdmission.EstimateCurrentRemoteUsage: does not model the order
  `sorted()` gives. Order does not matter to the sum (PendingUsageIgnoresOrder),
  so the listing is walked as given.
- TransferAdmission.IsEmptyDir: `is_empty_dir` comes from a utils module that is
  not part of this model. It is read as "no path in the `find` listing lies below
  the directory".
- SampleIntersection.Lookup: the interested samples (a dict in the source) are
  given as the sequence of its items. A dict has no repeated keys, and the model
  does not require this of the sequence; with a repeated key it consults the
  first item.
- The soft parser (`soft_parser.parse`) is not part of this model; it is a
  function parameter. `get_isamp` is an input (the dict's items, in order).
- `find_duplicated_GSMs.py` reads its csv through `read`, which is not part of
  this model; the rows are a parameter.
