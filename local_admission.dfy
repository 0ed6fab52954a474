/** The local processing admission of rsempipeline/utils/pre_pipeline_run.py: the
    local budget, the staged completion check over a sample's flag files, the usage
    estimate from its sras_info.yaml, and the first-fit scan that picks the samples
    to process next. A sample whose usage equals what is left of the budget still
    fits here, unlike in the transfer scan. */
module LocalAdmission {
  import opened Common
  import opened Greedy

  /** The submit script gen_qsub_script writes into a sample directory. */
  const SUBMIT_SCRIPT: string := "0_submit.sh"

  /** One entry of a sras_info.yaml dict: an sra file, relative to the sample
      directory, and its size in bytes. */
  datatype SraRecord = SraRecord(file: Path, size: nat)

  /** A parsed sras_info.yaml: a list of dicts, each given by its entries. */
  type SrasInfo = seq<seq<SraRecord>>

  /** A sample as the local scan sees it: its output directory, its sras_info.yaml
      (None when the file does not exist) and the names in its output directory. */
  datatype Sample = Sample(outdir: Path, sras: Option<SrasInfo>, files: seq<string>)

  /** The entries of every dict, in order (`for d in sras_info for k in d`). */
  function Records(info: SrasInfo): seq<SraRecord>
  {
    if info == [] then [] else info[0] + Records(info[1..])
  }

  /** The sra files of a sample, joined under its directory. */
  function SraFiles(gsmDir: Path, info: SrasInfo): seq<Path>
  {
    Map(Records(info), (r: SraRecord) => gsmDir + r.file)
  }

  function SizeSum(rs: seq<SraRecord>): nat
  {
    if rs == [] then 0 else rs[0].size + SizeSum(rs[1..])
  }

  // ---------------------------------------------------------------------------
  // Budget and usage estimate
  // ---------------------------------------------------------------------------

  /** calc_free_space_to_use: what the configured maximum leaves beyond the current
      usage and the reserve, capped by what the file system leaves beyond the reserve. */
  function CalcFreeSpaceToUse(maxUsage: real, currentUsage: real, freeSpace: real, minFree: real): (r: real)
    ensures r <= maxUsage - currentUsage - minFree && r <= freeSpace - minFree
    ensures r == maxUsage - currentUsage - minFree || r == freeSpace - minFree
  {
    var byMax := maxUsage - currentUsage - minFree;
    var byDisk := freeSpace - minFree;
    if byDisk < byMax then byDisk else byMax
  }

  /** estimate_proc_usage on a parsed sras_info.yaml: (1 + ratio) times the summed
      size of every sra file it lists. */
  function ProcUsage(info: SrasInfo, ratio: real): real
  {
    (1.0 + ratio) * SizeSum(Records(info)) as real
  }

  /** estimate_proc_usage: reading sras_info.yaml raises IOError when it does not exist. */
  function EstimateProcUsage(s: Sample, ratio: real): (r: Result<real, Exception>)
    ensures r.Err? <==> s.sras.None?
    ensures r.Err? ==> r.error == IOError
  {
    if s.sras.None? then Err(IOError) else Ok(ProcUsage(s.sras.value, ratio))
  }

  /** The estimate is not negative for a ratio of at least -1, and a sample whose
      sra files hold no bytes needs nothing. */
  lemma ProcUsageNonNegative(info: SrasInfo, ratio: real)
    requires ratio >= -1.0
    ensures ProcUsage(info, ratio) >= 0.0
    ensures SizeSum(Records(info)) == 0 ==> ProcUsage(info, ratio) == 0.0
  {
    var k := 1.0 + ratio;
    var x := SizeSum(Records(info)) as real;
    assert k >= 0.0 && x >= 0.0;
    assert k * x >= 0.0;
  }

  // ---------------------------------------------------------------------------
  // The staged completion check (is_processed)
  // ---------------------------------------------------------------------------

  /** How far a sample has come, as the nested tests of is_processed see it. */
  datatype Stage = DownloadIncomplete | Sra2FastqIncomplete | SubmitScriptMissing | Processed

  /** is_download_complete: every sra file has its download flag. */
  predicate IsDownloadComplete(sraFiles: seq<Path>, files: seq<string>)
  {
    forall sra <- sraFiles :: DownloadFlag(sra) in files
  }

  /** is_sra2fastq_complete: every sra file has its conversion flag. */
  predicate IsSra2FastqComplete(sraFiles: seq<Path>, files: seq<string>)
  {
    forall sra <- sraFiles :: Sra2FastqFlag(sra) in files
  }

  /** is_gen_qsub_script_complete: the submit script exists. */
  predicate IsGenQsubScriptComplete(files: seq<string>)
  {
    SUBMIT_SCRIPT in files
  }

  /** The first stage of is_processed that fails, each checked only once every
      earlier one holds for every sra file. */
  function StageOf(gsmDir: Path, info: SrasInfo, files: seq<string>): Stage
  {
    var sraFiles := SraFiles(gsmDir, info);
    if !IsDownloadComplete(sraFiles, files) then DownloadIncomplete
    else if !IsSra2FastqComplete(sraFiles, files) then Sra2FastqIncomplete
    else if !IsGenQsubScriptComplete(files) then SubmitScriptMissing
    else Processed
  }

  /** is_processed: reading sras_info.yaml raises IOError when it does not exist. */
  function IsProcessed(s: Sample): (r: Result<bool, Exception>)
    ensures r.Err? <==> s.sras.None?
    ensures r.Err? ==> r.error == IOError
  {
    if s.sras.None? then Err(IOError)
    else Ok(StageOf(s.outdir, s.sras.value, s.files) == Processed)
  }

  /** A sample is processed iff all of its sra files carry both flags and the submit
      script exists; a single missing flag holds the sample back at that stage. */
  lemma StagesAreAllOf(gsmDir: Path, info: SrasInfo, files: seq<string>)
    ensures var sraFiles := SraFiles(gsmDir, info);
      && (StageOf(gsmDir, info, files) == Processed <==>
            (forall sra <- sraFiles :: DownloadFlag(sra) in files && Sra2FastqFlag(sra) in files)
            && SUBMIT_SCRIPT in files)
      && (StageOf(gsmDir, info, files) == DownloadIncomplete <==>
            exists sra <- sraFiles :: DownloadFlag(sra) !in files)
      && (StageOf(gsmDir, info, files) == Sra2FastqIncomplete <==>
            IsDownloadComplete(sraFiles, files) && exists sra <- sraFiles :: Sra2FastqFlag(sra) !in files)
  {
  }

  /** A sample whose sras_info.yaml lists no sra file is processed iff its submit
      script exists. */
  lemma NoSraFilesNeedOnlyTheScript(gsmDir: Path, info: SrasInfo, files: seq<string>)
    requires Records(info) == []
    ensures StageOf(gsmDir, info, files) == Processed <==> SUBMIT_SCRIPT in files
  {
    assert SraFiles(gsmDir, info) == [];
  }

  /** Completion is monotone: flags only added keep a processed sample processed. */
  lemma ProcessedStaysProcessed(gsmDir: Path, info: SrasInfo, files: seq<string>, files': seq<string>)
    requires forall f <- files :: f in files'
    requires StageOf(gsmDir, info, files) == Processed
    ensures StageOf(gsmDir, info, files') == Processed
  {
  }

  // ---------------------------------------------------------------------------
  // The scan (find_gsms_to_process)
  // ---------------------------------------------------------------------------

  /** The samples the scan may pick: those is_processed reports as not processed. */
  predicate Unprocessed(s: Sample)
  {
    IsProcessed(s) == Ok(false)
  }

  /** The estimated usage of a sample (none for a sample without sras_info.yaml,
      which the scan never reaches without raising). */
  function Usage(ratio: real, s: Sample): real
  {
    if s.sras.Some? then ProcUsage(s.sras.value, ratio) else 0.0
  }

  function UsageBy(ratio: real): Sample -> real
  {
    s => Usage(ratio, s)
  }

  /** The samples find_gsms_to_process selects when none of them raises. */
  function Selection(samples: seq<Sample>, budget: real, ignoreDiskUsage: bool, ratio: real): seq<Sample>
  {
    if ignoreDiskUsage then Filter(samples, Unprocessed)
    else Admit(samples, Unprocessed, UsageBy(ratio), budget, false)
  }

  /** find_gsms_to_process as a value: IOError as soon as a sample has no
      sras_info.yaml, since is_processed reads it for every sample. */
  function ProcessScan(samples: seq<Sample>, budget: real, ignoreDiskUsage: bool, ratio: real)
    : Result<seq<Sample>, Exception>
  {
    if exists s <- samples :: s.sras.None? then Err(IOError)
    else Ok(Selection(samples, budget, ignoreDiskUsage, ratio))
  }

  /** find_gsms_to_process: walks the samples in order, skips the processed ones, and
      either takes every other one (`ignoreDiskUsage`) or takes one whose estimate
      is at most what is left of `lFreeToUse`, which then drops by that estimate. */
  method FindGsmsToProcess(samples: seq<Sample>, lFreeToUse: real, ignoreDiskUsage: bool, ratio: real)
    returns (r: Result<seq<Sample>, Exception>)
    ensures r == ProcessScan(samples, lFreeToUse, ignoreDiskUsage, ratio)
  {
    var gsmsToProcess := [];
    var left := lFreeToUse;
    ghost var admitted: seq<Sample> := [];
    for i := 0 to |samples|
      invariant forall j :: 0 <= j < i ==> samples[j].sras.Some?
      invariant ignoreDiskUsage ==> gsmsToProcess == Filter(samples[..i], Unprocessed)
      invariant !ignoreDiskUsage ==>
        && admitted == Admit(samples[..i], Unprocessed, UsageBy(ratio), lFreeToUse, false)
        && gsmsToProcess == admitted
        && left == lFreeToUse - Total(admitted, UsageBy(ratio))
    {
      var gsm := samples[i];
      FilterPrefixStep(samples, i, Unprocessed);
      if !ignoreDiskUsage {
        ghost var w := if Unprocessed(gsm) then Some(Usage(ratio, gsm)) else None;
        AdmitPrefixStep(samples, i, Unprocessed, UsageBy(ratio), lFreeToUse, false, admitted, left, w);
      }
      var processed := IsProcessed(gsm);
      if processed.Err? {
        assert gsm in samples;
        return Err(processed.error);
      }
      if processed.value {
        continue;
      }
      if ignoreDiskUsage {
        gsmsToProcess := gsmsToProcess + [gsm];
        continue;
      }
      var usage := EstimateProcUsage(gsm, ratio);
      if usage.value > left {
        continue;
      }
      left := left - usage.value;
      gsmsToProcess := gsmsToProcess + [gsm];
      admitted := admitted + [gsm];
    }
    assert samples[..|samples|] == samples;
    return Ok(gsmsToProcess);
  }

  /** select_samples_to_process: the local budget from the configured maximum and
      reserve, the usage of the top output directory and the free space, then the scan. */
  method SelectSamplesToProcess(
    samples: seq<Sample>, maxUsage: real, currentUsage: real, freeSpace: real, minFree: real,
    ignoreDiskUsage: bool, ratio: real)
    returns (r: Result<seq<Sample>, Exception>)
    ensures r == ProcessScan(samples, CalcFreeSpaceToUse(maxUsage, currentUsage, freeSpace, minFree), ignoreDiskUsage, ratio)
  {
    var freeToUse := CalcFreeSpaceToUse(maxUsage, currentUsage, freeSpace, minFree);
    r := FindGsmsToProcess(samples, freeToUse, ignoreDiskUsage, ratio);
  }

  // ---------------------------------------------------------------------------
  // Properties of the scan
  // ---------------------------------------------------------------------------

  /** The scan raises iff some sample has no sras_info.yaml. */
  lemma ScanRaisesIffInfoMissing(samples: seq<Sample>, budget: real, ignoreDiskUsage: bool, ratio: real)
    ensures ProcessScan(samples, budget, ignoreDiskUsage, ratio).Err? <==> exists s <- samples :: IsProcessed(s).Err?
    ensures ProcessScan(samples, budget, ignoreDiskUsage, ratio).Err? ==> ProcessScan(samples, budget, ignoreDiskUsage, ratio).error == IOError
  {
  }

  /** No processed sample is ever selected, whichever rule applies. */
  lemma ProcessedNeverSelected(samples: seq<Sample>, budget: real, ignoreDiskUsage: bool, ratio: real)
    requires ProcessScan(samples, budget, ignoreDiskUsage, ratio).Ok?
    ensures var sel := ProcessScan(samples, budget, ignoreDiskUsage, ratio).value;
      IsSubsequence(sel, samples) && forall s <- sel :: IsProcessed(s) == Ok(false)
  {
    if ignoreDiskUsage {
      FilterSound(samples, Unprocessed);
    } else {
      AdmitSound(samples, Unprocessed, UsageBy(ratio), budget, false);
    }
  }

  /** Samples that are all processed yield no selection. */
  lemma AllProcessedSelectsNothing(samples: seq<Sample>, budget: real, ignoreDiskUsage: bool, ratio: real)
    requires forall s <- samples :: IsProcessed(s) == Ok(true)
    ensures ProcessScan(samples, budget, ignoreDiskUsage, ratio) == Ok([])
  {
    assert !exists s <- samples :: s.sras.None?;
    assert forall s <- samples :: !Unprocessed(s);
    if ignoreDiskUsage {
      FilterNone(samples, Unprocessed);
    } else {
      NoneEligibleAdmitsNothing(samples, Unprocessed, UsageBy(ratio), budget, false);
    }
  }

  /** With the disk usage rule ignored, the selection is every unprocessed sample, in
      order, whatever the budget. */
  lemma IgnoringUsageSelectsAllUnprocessed(samples: seq<Sample>, budget: real, budget': real, ratio: real)
    requires forall s <- samples :: s.sras.Some?
    ensures ProcessScan(samples, budget, true, ratio) == ProcessScan(samples, budget', true, ratio)
    ensures var sel := ProcessScan(samples, budget, true, ratio).value;
      && IsSubsequence(sel, samples)
      && (forall s <- samples :: s in sel <==> IsProcessed(s) == Ok(false))
  {
    FilterSound(samples, Unprocessed);
    SubsequenceMembers(Filter(samples, Unprocessed), samples);
  }

  /** Under the disk usage rule the selection's estimates sum to at most the budget. */
  lemma SelectionFitsBudget(samples: seq<Sample>, budget: real, ratio: real)
    requires ProcessScan(samples, budget, false, ratio).Ok?
    ensures var sel := ProcessScan(samples, budget, false, ratio).value;
      sel != [] ==> Total(sel, UsageBy(ratio)) <= budget
  {
    AdmitSound(samples, Unprocessed, UsageBy(ratio), budget, false);
  }

  /** The scan is greedy to the end: an unprocessed sample left out has an estimate
      larger than the budget the selection leaves unused. */
  lemma ScanLeavesNoFit(samples: seq<Sample>, budget: real, ratio: real)
    requires ratio >= -1.0
    requires ProcessScan(samples, budget, false, ratio).Ok?
    ensures var sel := ProcessScan(samples, budget, false, ratio).value;
      forall s <- samples | IsProcessed(s) == Ok(false) && s !in sel ::
        Usage(ratio, s) > budget - Total(sel, UsageBy(ratio))
  {
    var sel := ProcessScan(samples, budget, false, ratio).value;
    forall s <- samples ensures UsageBy(ratio)(s) >= 0.0 {
      if s.sras.Some? {
        ProcUsageNonNegative(s.sras.value, ratio);
      }
    }
    forall s <- samples | IsProcessed(s) == Ok(false) && s !in sel
      ensures Usage(ratio, s) > budget - Total(sel, UsageBy(ratio))
    {
      AdmitLeavesNoFit(samples, Unprocessed, UsageBy(ratio), budget, false, s);
    }
  }

  /** Two unprocessed samples of 513 against a budget of 1024: the first fits, the
      second no longer does. */
  lemma SecondOf513DoesNotFit(s1: Sample, s2: Sample, ratio: real)
    requires IsProcessed(s1) == Ok(false) && IsProcessed(s2) == Ok(false)
    requires Usage(ratio, s1) == 513.0 && Usage(ratio, s2) == 513.0
    ensures ProcessScan([s1, s2], 1024.0, false, ratio) == Ok([s1])
  {
    assert forall s <- [s1, s2] :: s == s1 || s == s2;
    FirstFitOnlyOnce(Unprocessed, UsageBy(ratio), s1, s2);
  }

  /** A sample whose estimate equals the whole budget is selected. */
  lemma ExactFitIsSelected(s: Sample, budget: real, ratio: real)
    requires IsProcessed(s) == Ok(false) && Usage(ratio, s) == budget
    ensures ProcessScan([s], budget, false, ratio) == Ok([s])
  {
    assert forall x <- [s] :: x == s;
    assert [s][1..] == [];
    assert UsageBy(ratio)(s) == budget;
    assert Admit([s], Unprocessed, UsageBy(ratio), budget, false)
        == [s] + Admit([], Unprocessed, UsageBy(ratio), 0.0, false);
    assert !exists x <- [s] :: x.sras.None?;
    assert Selection([s], budget, false, ratio) == [s];
  }

  /** Three samples of 1e9, 2e9 and 5e8 bytes with a ratio of 0.5 against a budget of
      3e9: the estimates are 1.5e9, 3e9 and 7.5e8, and the first and the third are
      selected. */
  lemma ThreeSampleScenario(a: Sample, b: Sample, c: Sample)
    requires IsProcessed(a) == Ok(false) && IsProcessed(b) == Ok(false) && IsProcessed(c) == Ok(false)
    requires SizeSum(Records(a.sras.value)) == 1000000000
    requires SizeSum(Records(b.sras.value)) == 2000000000
    requires SizeSum(Records(c.sras.value)) == 500000000
    ensures ProcessScan([a, b, c], 3000000000.0, false, 0.5) == Ok([a, c])
  {
    assert forall s <- [a, b, c] :: s == a || s == b || s == c;
    var cost := UsageBy(0.5);
    assert cost(a) == 1500000000.0 && cost(b) == 3000000000.0 && cost(c) == 750000000.0;
    FirstFitSkipsTooLarge(Unprocessed, cost, a, b, c);
  }
}
