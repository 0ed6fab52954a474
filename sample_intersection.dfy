/** Generating the samples to work on (gen_samples_from_soft_and_isamp in
    utils_pre_pipeline_run.py and in rsempipeline/utils/pre_pipeline_run.py): the
    samples of each downloaded series' soft file that the interested-sample input
    asks for, followed by a sanity check that nothing was lost, and the choice of
    the top output directory. */
module SampleIntersection {
  import opened Common
  import opened Patterns

  /** A sample of a parsed series: its series name (`sample.series.name`) and its
      GSM id (`sample.name`). */
  datatype GeoSample = GeoSample(series: string, name: string)

  /** What the soft parser yields for a soft file: the series name and the samples
      that pass the organism filter, in soft-file order. */
  datatype Series = Series(name: string, passedSamples: seq<GeoSample>)

  /** The interested samples (get_isamp): the dict from a GSE id to its GSM ids, given
      by its items. */
  type Isamp = seq<(string, seq<string>)>

  /** `k in isamp` */
  predicate HasKey(isamp: Isamp, k: string)
  {
    exists item <- isamp :: item.0 == k
  }

  /** `isamp[k]`, for a key that is present. */
  function Lookup(isamp: Isamp, k: string): seq<string>
  {
    if isamp == [] then [] else if isamp[0].0 == k then isamp[0].1 else Lookup(isamp[1..], k)
  }

  /** A GSM listed for `k` is listed in some item with key `k`. */
  lemma {:induction false} LookupListed(isamp: Isamp, k: string, gsm: string)
    requires gsm in Lookup(isamp, k)
    ensures exists i :: 0 <= i < |isamp| && isamp[i].0 == k && gsm in isamp[i].1
  {
    if isamp[0].0 != k {
      LookupListed(isamp[1..], k, gsm);
      var i :| 0 <= i < |isamp[1..]| && isamp[1..][i].0 == k && gsm in isamp[1..][i].1;
      assert isamp[i + 1] == isamp[1..][i];
    } else {
      assert isamp[0].0 == k && gsm in isamp[0].1;
    }
  }

  /** The filter of the comprehension: the sample's GSM is among `gsms`. */
  function InterestedIn(gsms: seq<string>): GeoSample -> bool
  {
    (s: GeoSample) => s.name in gsms
  }

  /** What one soft file adds: nothing when its name carries no
      `(GSE\d+)_family.soft.subset`, when that GSE is not interested or when the parsed
      series is not; otherwise the series' passed samples whose GSM is interested for
      it, in soft-file order. */
  function Contribution(softFile: string, isamp: Isamp, parse: string -> Series): seq<GeoSample>
  {
    var gse := LeadAndDigits(SoftFile, softFile);
    if gse.None? || !HasKey(isamp, gse.value) then []
    else
      var series := parse(softFile);
      if !HasKey(isamp, series.name) then []
      else Filter(series.passedSamples, InterestedIn(Lookup(isamp, series.name)))
  }

  /** The intersection: the contributions of the soft files, in order. */
  function Intersection(softFiles: seq<string>, isamp: Isamp, parse: string -> Series): seq<GeoSample>
  {
    if softFiles == [] then []
    else
      Intersection(softFiles[..|softFiles| - 1], isamp, parse)
      + Contribution(softFiles[|softFiles| - 1], isamp, parse)
  }

  /** The loop of gen_samples_from_soft_and_isamp: series by series, extend the
      result with the interested passed samples. */
  method IntersectSamples(softFiles: seq<string>, isamp: Isamp, parse: string -> Series)
    returns (resSamp: seq<GeoSample>)
    ensures resSamp == Intersection(softFiles, isamp, parse)
  {
    resSamp := [];
    for i := 0 to |softFiles|
      invariant resSamp == Intersection(softFiles[..i], isamp, parse)
    {
      var softFile := softFiles[i];
      var gse := LeadAndDigits(SoftFile, softFile);
      if gse.Some? && HasKey(isamp, gse.value) {
        var series := parse(softFile);
        if HasKey(isamp, series.name) {
          var isampGse := Lookup(isamp, series.name);
          resSamp := resSamp + Filter(series.passedSamples, InterestedIn(isampGse));
        }
      }
      assert softFiles[..i + 1][..i] == softFiles[..i];
    }
    assert softFiles[..|softFiles|] == softFiles;
  }

  /** A soft file whose name carries no GSE, or a GSE that is not interested, adds no sample. */
  lemma UnrecognisedSoftFileAddsNothing(softFiles: seq<string>, softFile: string, isamp: Isamp, parse: string -> Series)
    requires LeadAndDigits(SoftFile, softFile).None? || !HasKey(isamp, LeadAndDigits(SoftFile, softFile).value)
    ensures Intersection(softFiles + [softFile], isamp, parse) == Intersection(softFiles, isamp, parse)
  {
    assert (softFiles + [softFile])[..|softFiles|] == softFiles;
  }

  /** A series keeps exactly its passed samples whose GSM the input lists for it, in
      soft-file order; a series absent from the input keeps none. */
  lemma ContributionKeepsInterested(softFile: string, isamp: Isamp, parse: string -> Series)
    requires LeadAndDigits(SoftFile, softFile).Some? && HasKey(isamp, LeadAndDigits(SoftFile, softFile).value)
    ensures var series := parse(softFile);
      var c := Contribution(softFile, isamp, parse);
      if !HasKey(isamp, series.name) then c == []
      else
        && IsSubsequence(c, series.passedSamples)
        && (forall s <- c :: s.name in Lookup(isamp, series.name))
        && (forall s <- series.passedSamples :: s.name in Lookup(isamp, series.name) ==> s in c)
  {
    var series := parse(softFile);
    if HasKey(isamp, series.name) {
      FilterSound(series.passedSamples, InterestedIn(Lookup(isamp, series.name)));
    }
  }

  // ---------------------------------------------------------------------------
  // Sanity checks
  // ---------------------------------------------------------------------------

  /** `'{0}:{1}'.format(gse, gsm)` */
  function GsmId(gse: string, gsm: string): string
  {
    gse + ":" + gsm
  }

  /** The ids of the interested samples. */
  function IsampIds(isamp: Isamp): set<string>
  {
    set i, j | 0 <= i < |isamp| && 0 <= j < |isamp[i].1| :: GsmId(isamp[i].0, isamp[i].1[j])
  }

  /** The ids of the samples after intersection. */
  function ProcIds(samples: seq<GeoSample>): set<string>
  {
    set s | s in samples :: GsmId(s.series, s.name)
  }

  /** sanity_check of utils_pre_pipeline_run.py: ValueError when an interested id is
      not to be processed, or an id to be processed is not interested; returns
      normally iff the two id sets are equal. */
  function SanityCheck(samples: seq<GeoSample>, isamp: Isamp): (r: Result<(), Exception>)
    ensures r.Ok? <==> IsampIds(isamp) == ProcIds(samples)
    ensures r.Err? ==> r.error == ValueError
  {
    var diff1 := IsampIds(isamp) - ProcIds(samples);
    var diff2 := ProcIds(samples) - IsampIds(isamp);
    if diff1 != {} then Err(ValueError)
    else if diff2 != {} then Err(ValueError)
    else Ok(())
  }

  /** `sum(len(val) for val in isamp.values())` */
  function NumIsamp(isamp: Isamp): nat
  {
    if isamp == [] then 0 else |isamp[0].1| + NumIsamp(isamp[1..])
  }

  /** sanity_check of rsempipeline/utils/pre_pipeline_run.py: ValueError iff the
      counts differ. */
  function SanityCheckCounts(numIsamp: nat, numResSamp: nat): (r: Result<(), Exception>)
    ensures r.Ok? <==> numIsamp == numResSamp
    ensures r.Err? ==> r.error == ValueError
  {
    if numIsamp != numResSamp then Err(ValueError) else Ok(())
  }

  /** gen_samples_from_soft_and_isamp of utils_pre_pipeline_run.py: the intersection,
      returned only when the id sets agree. */
  method GenSamplesFromSoftAndIsamp(softFiles: seq<string>, isamp: Isamp, parse: string -> Series)
    returns (r: Result<seq<GeoSample>, Exception>)
    ensures r.Ok? <==> IsampIds(isamp) == ProcIds(Intersection(softFiles, isamp, parse))
    ensures r.Ok? ==> r.value == Intersection(softFiles, isamp, parse)
    ensures r.Err? ==> r.error == ValueError
  {
    var sampProc := IntersectSamples(softFiles, isamp, parse);
    var check := SanityCheck(sampProc, isamp);
    if check.Err? {
      return Err(check.error);
    }
    return Ok(sampProc);
  }

  /** gen_samples_from_soft_and_isamp of rsempipeline/utils/pre_pipeline_run.py: the
      same intersection, returned only when the counts agree. */
  method GenSamplesCounted(softFiles: seq<string>, isamp: Isamp, parse: string -> Series)
    returns (r: Result<seq<GeoSample>, Exception>)
    ensures r.Ok? <==> NumIsamp(isamp) == |Intersection(softFiles, isamp, parse)|
    ensures r.Ok? ==> r.value == Intersection(softFiles, isamp, parse)
    ensures r.Err? ==> r.error == ValueError
  {
    var numIsamp := NumIsamp(isamp);
    var resSamp := IntersectSamples(softFiles, isamp, parse);
    var check := SanityCheckCounts(numIsamp, |resSamp|);
    if check.Err? {
      return Err(check.error);
    }
    return Ok(resSamp);
  }

  /** The soft parser labels every passed sample with the series it returns. */
  predicate ParsesConsistently(parse: string -> Series, softFiles: seq<string>)
  {
    forall f <- softFiles :: forall s <- parse(f).passedSamples :: s.series == parse(f).name
  }

  lemma IsampIdIn(isamp: Isamp, i: nat, gsm: string)
    requires i < |isamp| && gsm in isamp[i].1
    ensures GsmId(isamp[i].0, gsm) in IsampIds(isamp)
  {
    var j :| 0 <= j < |isamp[i].1| && isamp[i].1[j] == gsm;
  }

  /** Every sample the intersection keeps is interested: with a consistent parser the
      processed ids lie within the interested ones, so the id check can only fail for
      an interested sample that no soft file supplied. */
  lemma {:induction false} IntersectedAreInterested(softFiles: seq<string>, isamp: Isamp, parse: string -> Series)
    requires ParsesConsistently(parse, softFiles)
    ensures ProcIds(Intersection(softFiles, isamp, parse)) <= IsampIds(isamp)
  {
    if softFiles != [] {
      var init := softFiles[..|softFiles| - 1];
      var f := softFiles[|softFiles| - 1];
      assert ParsesConsistently(parse, init) by {
        assert forall g <- init :: g in softFiles;
      }
      IntersectedAreInterested(init, isamp, parse);
      var c := Contribution(f, isamp, parse);
      forall s <- c ensures GsmId(s.series, s.name) in IsampIds(isamp) {
        var series := parse(f);
        var keep := InterestedIn(Lookup(isamp, series.name));
        FilterSound(series.passedSamples, keep);
        SubsequenceMembers(c, series.passedSamples);
        assert s.series == series.name;
        LookupListed(isamp, series.name, s.name);
        var i :| 0 <= i < |isamp| && isamp[i].0 == series.name && s.name in isamp[i].1;
        IsampIdIn(isamp, i, s.name);
      }
      assert ProcIds(Intersection(softFiles, isamp, parse))
          == ProcIds(Intersection(init, isamp, parse)) + ProcIds(c);
    }
  }

  /** Hence, with a consistent parser, the check fails exactly when some interested
      sample is missing from the intersection. */
  lemma SanityFailsOnlyForMissing(softFiles: seq<string>, isamp: Isamp, parse: string -> Series)
    requires ParsesConsistently(parse, softFiles)
    ensures SanityCheck(Intersection(softFiles, isamp, parse), isamp).Err?
        <==> exists id <- IsampIds(isamp) :: id !in ProcIds(Intersection(softFiles, isamp, parse))
  {
    IntersectedAreInterested(softFiles, isamp, parse);
  }

  // ---------------------------------------------------------------------------
  // Output directories
  // ---------------------------------------------------------------------------

  /** get_top_outdir: the configured LOCAL_TOP_OUTDIR when there is one, else the
      directory of the interested-sample file when that file exists, else ValueError. */
  function GetTopOutdir(configured: Option<Path>, isampPath: Path, isampExists: bool): (r: Result<Path, Exception>)
    ensures configured.Some? ==> r == Ok(configured.value)
    ensures configured.None? && isampExists ==>
      r.Ok? && (isampPath != [] ==> r.value + [Basename(isampPath)] == isampPath)
    ensures r.Err? <==> configured.None? && !isampExists
    ensures r.Err? ==> r.error == ValueError
  {
    if configured.Some? then Ok(configured.value)
    else if isampExists then Ok(Dirname(isampPath))
    else Err(ValueError)
  }

  /** get_rsem_outdir of utils_pre_pipeline_run.py: `rsem_output` under the top output
      directory, and ValueError when that cannot be decided. */
  function GetRsemOutdir(configured: Option<Path>, isampPath: Path, isampExists: bool): (r: Result<Path, Exception>)
    ensures r.Err? <==> GetTopOutdir(configured, isampPath, isampExists).Err?
    ensures r.Ok? ==>
      Dirname(r.value) == GetTopOutdir(configured, isampPath, isampExists).value && Basename(r.value) == RSEM_OUTPUT_BASENAME
  {
    match GetTopOutdir(configured, isampPath, isampExists)
    case Ok(top) => Ok(RsemOutdir(top))
    case Err(e) => Err(e)
  }
}
