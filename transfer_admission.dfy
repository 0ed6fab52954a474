/** Remote transfer admission (rsem_transfer.py): how much disk the remote host can
    still give, how much of it the samples already sent there will take, which local
    sample directories are ready to go, and the greedy scan that picks the samples of
    one transfer batch. */
module TransferAdmission {
  import opened Common
  import opened Patterns
  import opened Text
  import opened TransferRecord
  import opened Greedy

  // ---------------------------------------------------------------------------
  // Estimates and the remote budget
  // ---------------------------------------------------------------------------

  /** estimate_rsem_usage: the disk an RSEM run on one sample will take, from the
      total size of its fastq.gz files and the configured FASTQ2USAGE_RATIO. */
  function EstimateRsemUsage(fqGzSize: nat, ratio: real): (r: real)
    ensures fqGzSize == 0 ==> r == 0.0
    ensures ratio >= 0.0 ==> r >= 0.0
  {
    fqGzSize as real * ratio
  }

  /** A larger input never gives a smaller estimate when the ratio is not negative. */
  lemma EstimateMonotone(a: nat, b: nat, ratio: real)
    requires a <= b && ratio >= 0.0
    ensures EstimateRsemUsage(a, ratio) <= EstimateRsemUsage(b, ratio)
  {
    assert (b - a) as real * ratio >= 0.0;
    assert b as real * ratio == a as real * ratio + (b - a) as real * ratio;
  }

  /** The space a new batch may take on the remote host (select_samples_to_transfer):
      the configured maximum, capped by the free space, less what the unfinished
      samples already there will take; and never eating into the configured minimum
      of free space. */
  function RemoteFreeToUse(freeSpace: real, maxUsage: real, estCurrentUsage: real, minFree: real): (r: real)
    ensures r <= freeSpace - minFree
    ensures r <= freeSpace - estCurrentUsage && r <= maxUsage - estCurrentUsage
    ensures r == freeSpace - minFree || r == freeSpace - estCurrentUsage || r == maxUsage - estCurrentUsage
  {
    var rMaxUsage := if maxUsage <= freeSpace then maxUsage else freeSpace;
    var byUsage := rMaxUsage - estCurrentUsage;
    var byFree := freeSpace - minFree;
    if byUsage <= byFree then byUsage else byFree
  }

  // ---------------------------------------------------------------------------
  // Estimated usage on the remote host
  // ---------------------------------------------------------------------------

  /** `q` lies strictly inside directory `dir`. */
  predicate IsBelow(q: Path, dir: Path)
  {
    IsPrefix(dir, q) && |q| > |dir|
  }

  /** is_empty_dir over a `find` listing: no listed path lies inside `dir`. */
  predicate IsEmptyDir(dir: Path, listing: seq<Path>)
  {
    forall q <- listing :: !IsBelow(q, dir)
  }

  /** The flag that marks a finished RSEM run in a sample directory. */
  function RsemComplete(dir: Path): Path
  {
    dir + ["rsem.COMPLETE"]
  }

  /** A listed directory whose RSEM run is under way: its name ends in a sample
      accession, it holds no rsem.COMPLETE flag, and it is not empty. */
  predicate IsPendingUnitDir(dir: Path, listing: seq<Path>)
  {
    && Matches(AccessionAtEnd("GSM"), Basename(dir))
    && RsemComplete(dir) !in listing
    && !IsEmptyDir(dir, listing)
  }

  /** `dir_.replace(r_dir, l_dir)`: the local mirror of a remote path. */
  function Rebase(dir: Path, rDir: Path, lDir: Path): (r: Path)
    ensures IsPrefix(rDir, dir) ==> IsPrefix(lDir, r) && r[|lDir|..] == dir[|rDir|..]
    ensures !IsPrefix(rDir, dir) ==> r == dir
  {
    if IsPrefix(rDir, dir) then lDir + dir[|rDir|..] else dir
  }

  /** What one listed path adds to the estimate: the estimate of its local mirror when
      it is a pending sample directory, nothing otherwise. `sizes` stands for
      get_fq_gz_sizes, the total fastq.gz size recorded in a local directory. */
  function Contribution(dir: Path, listing: seq<Path>, rDir: Path, lDir: Path, sizes: Path -> nat, ratio: real): real
  {
    if IsPendingUnitDir(dir, listing) then EstimateRsemUsage(sizes(Rebase(dir, rDir, lDir)), ratio) else 0.0
  }

  /** The estimates of the pending sample directories among `ds`, summed. */
  function PendingUsage(ds: seq<Path>, listing: seq<Path>, rDir: Path, lDir: Path, sizes: Path -> nat, ratio: real): (r: real)
    ensures ratio >= 0.0 ==> r >= 0.0
    ensures (forall d <- ds :: !IsPendingUnitDir(d, listing)) ==> r == 0.0
  {
    if ds == [] then 0.0
    else Contribution(ds[0], listing, rDir, lDir, sizes, ratio) + PendingUsage(ds[1..], listing, rDir, lDir, sizes, ratio)
  }

  lemma {:induction false} PendingUsageConcat(a: seq<Path>, b: seq<Path>, listing: seq<Path>, rDir: Path, lDir: Path, sizes: Path -> nat, ratio: real)
    ensures PendingUsage(a + b, listing, rDir, lDir, sizes, ratio)
         == PendingUsage(a, listing, rDir, lDir, sizes, ratio) + PendingUsage(b, listing, rDir, lDir, sizes, ratio)
  {
    if a == [] {
      assert a + b == b;
    } else {
      assert (a + b)[0] == a[0] && (a + b)[1..] == a[1..] + b;
      PendingUsageConcat(a[1..], b, listing, rDir, lDir, sizes, ratio);
    }
  }

  lemma PendingUsageSnoc(ds: seq<Path>, i: nat, listing: seq<Path>, rDir: Path, lDir: Path, sizes: Path -> nat, ratio: real)
    requires i < |ds|
    ensures PendingUsage(ds[..i + 1], listing, rDir, lDir, sizes, ratio)
         == PendingUsage(ds[..i], listing, rDir, lDir, sizes, ratio) + Contribution(ds[i], listing, rDir, lDir, sizes, ratio)
  {
    assert ds[..i + 1] == ds[..i] + [ds[i]];
    PendingUsageConcat(ds[..i], [ds[i]], listing, rDir, lDir, sizes, ratio);
  }

  /** Taking one path out of a sequence takes its contribution out of the sum. */
  lemma PendingUsageRemove(b: seq<Path>, j: nat, listing: seq<Path>, rDir: Path, lDir: Path, sizes: Path -> nat, ratio: real)
    requires j < |b|
    ensures PendingUsage(b, listing, rDir, lDir, sizes, ratio)
         == Contribution(b[j], listing, rDir, lDir, sizes, ratio)
            + PendingUsage(b[..j] + b[j + 1..], listing, rDir, lDir, sizes, ratio)
  {
    var tail := [b[j]] + b[j + 1..];
    assert b == b[..j] + tail;
    assert tail[1..] == b[j + 1..];
    PendingUsageConcat(b[..j], tail, listing, rDir, lDir, sizes, ratio);
    PendingUsageConcat(b[..j], b[j + 1..], listing, rDir, lDir, sizes, ratio);
  }

  /** The listing is visited in sorted order; the estimate does not depend on the
      order, only on which paths are listed how often. */
  lemma {:induction false} PendingUsageIgnoresOrder(a: seq<Path>, b: seq<Path>, listing: seq<Path>, rDir: Path, lDir: Path, sizes: Path -> nat, ratio: real)
    requires multiset(a) == multiset(b)
    ensures PendingUsage(a, listing, rDir, lDir, sizes, ratio) == PendingUsage(b, listing, rDir, lDir, sizes, ratio)
    decreases |a|
  {
    if a != [] {
      assert a[0] in multiset(b);
      var j :| 0 <= j < |b| && b[j] == a[0];
      RemoveFromPermutation(a, b, j);
      PendingUsageIgnoresOrder(a[1..], b[..j] + b[j + 1..], listing, rDir, lDir, sizes, ratio);
      PendingUsageRemove(b, j, listing, rDir, lDir, sizes, ratio);
    } else {
      assert |b| == |multiset(b)|;
    }
  }

  /** estimate_current_remote_usage over the output of `find r_dir` (None when the
      command printed nothing): ValueError without a listing, otherwise the estimates
      of every listed sample directory still waiting for its RSEM run. */
  method EstimateCurrentRemoteUsage(output: Option<seq<Path>>, rDir: Path, lDir: Path, sizes: Path -> nat, ratio: real)
    returns (r: Result<real, Exception>)
    ensures r.Err? <==> output.None?
    ensures output.Some? ==> r == Ok(PendingUsage(output.value, output.value, rDir, lDir, sizes, ratio))
  {
    if output.None? {
      return Err(ValueError);
    }
    var listing := output.value;
    var usage := 0.0;
    for i := 0 to |listing|
      invariant usage == PendingUsage(listing[..i], listing, rDir, lDir, sizes, ratio)
    {
      var dir := listing[i];
      PendingUsageSnoc(listing, i, listing, rDir, lDir, sizes, ratio);
      if Matches(AccessionAtEnd("GSM"), Basename(dir)) {
        if RsemComplete(dir) !in listing && !IsEmptyDir(dir, listing) {
          var gsmDir := Rebase(dir, rDir, lDir);
          usage := usage + EstimateRsemUsage(sizes(gsmDir), ratio);
        }
      }
    }
    assert listing[..|listing|] == listing;
    return Ok(usage);
  }

  /** A listing whose sample directories are all finished or empty adds nothing. */
  lemma NothingPendingIsFree(listing: seq<Path>, rDir: Path, lDir: Path, sizes: Path -> nat, ratio: real)
    requires forall d <- listing :: RsemComplete(d) in listing || IsEmptyDir(d, listing)
    ensures PendingUsage(listing, listing, rDir, lDir, sizes, ratio) == 0.0
  {
  }

  // ---------------------------------------------------------------------------
  // Converted reads of one sample directory (find_fq_gzs)
  // ---------------------------------------------------------------------------

  /** nonexistent_flags: the flags of `sras` missing from the directory listing `files`, in order. */
  function MissingFlags(dir: Path, sras: seq<Path>, files: seq<string>): (r: seq<Path>)
    ensures |r| <= |sras|
  {
    if sras == [] then []
    else
      (if Sra2FastqFlag(sras[0]) in files then [] else [dir + [Sra2FastqFlag(sras[0])]])
      + MissingFlags(dir, sras[1..], files)
  }

  /** The names of the fastq.gz files among `files`: the matched text of each name
      that contains a match, in listing order. */
  function FqGzNames(files: seq<string>): (r: seq<string>)
    ensures |r| <= |files|
  {
    if files == [] then []
    else
      match Group0(FastqGz, files[0])
      case Some(m) => [m] + FqGzNames(files[1..])
      case None => FqGzNames(files[1..])
  }

  /** Each name joined under `dir`. */
  function Under(dir: Path, names: seq<string>): (r: seq<Path>)
    ensures |r| == |names|
  {
    if names == [] then [] else [dir + [names[0]]] + Under(dir, names[1..])
  }

  /** The listing holds no converted read file iff no name in it matches the
      pattern; every name collected is the matched text of some listed name, and
      has the read-file shape in full (`[SER]RR\d+_[12].fastq.gz`, no more). */
  lemma {:induction false} FqGzNamesSpec(files: seq<string>)
    ensures FqGzNames(files) == [] <==> forall f <- files :: !Matches(FastqGz, f)
    ensures forall n <- FqGzNames(files) :: exists f <- files :: Group0(FastqGz, f) == Some(n)
    ensures forall n <- FqGzNames(files) :: MatchAt(FastqGz, n, 0) == Some(|n|)
  {
    if files != [] {
      FqGzNamesSpec(files[1..]);
      assert forall f <- files :: f == files[0] || f in files[1..];
      Group0MatchesInFull(FastqGz, files[0]);
    }
  }

  /** No flag is missing iff every sra file has its flag in the directory. */
  lemma {:induction false} NoMissingFlagIff(dir: Path, sras: seq<Path>, files: seq<string>)
    ensures MissingFlags(dir, sras, files) == [] <==> forall s <- sras :: Sra2FastqFlag(s) in files
  {
    if sras != [] {
      NoMissingFlagIff(dir, sras[1..], files);
      assert forall s <- sras :: s == sras[0] || s in sras[1..];
    }
  }

  lemma {:induction false} MissingFlagsConcat(dir: Path, a: seq<Path>, b: seq<Path>, files: seq<string>)
    ensures MissingFlags(dir, a + b, files) == MissingFlags(dir, a, files) + MissingFlags(dir, b, files)
  {
    if a == [] {
      assert a + b == b;
    } else {
      assert (a + b)[0] == a[0] && (a + b)[1..] == a[1..] + b;
      MissingFlagsConcat(dir, a[1..], b, files);
    }
  }

  /** One step of the flag walk in find_fq_gzs. */
  lemma MissingFlagsSnoc(dir: Path, sras: seq<Path>, files: seq<string>, i: nat)
    requires i < |sras|
    ensures MissingFlags(dir, sras[..i + 1], files)
         == MissingFlags(dir, sras[..i], files)
            + (if Sra2FastqFlag(sras[i]) in files then [] else [dir + [Sra2FastqFlag(sras[i])]])
  {
    assert sras[..i + 1] == sras[..i] + [sras[i]];
    MissingFlagsConcat(dir, sras[..i], [sras[i]], files);
  }

  lemma {:induction false} FqGzNamesConcat(a: seq<string>, b: seq<string>)
    ensures FqGzNames(a + b) == FqGzNames(a) + FqGzNames(b)
  {
    if a == [] {
      assert a + b == b;
    } else {
      assert (a + b)[0] == a[0] && (a + b)[1..] == a[1..] + b;
      FqGzNamesConcat(a[1..], b);
    }
  }

  lemma {:induction false} UnderConcat(dir: Path, a: seq<string>, b: seq<string>)
    ensures Under(dir, a + b) == Under(dir, a) + Under(dir, b)
  {
    if a == [] {
      assert a + b == b;
    } else {
      assert (a + b)[0] == a[0] && (a + b)[1..] == a[1..] + b;
      UnderConcat(dir, a[1..], b);
    }
  }

  /** One step of the listing walk in find_fq_gzs. */
  lemma FqGzsSnoc(dir: Path, files: seq<string>, i: nat)
    requires i < |files|
    ensures Under(dir, FqGzNames(files[..i + 1]))
         == Under(dir, FqGzNames(files[..i]))
            + (match Group0(FastqGz, files[i]) case Some(m) => [dir + [m]] case None => [])
  {
    assert files[..i + 1] == files[..i] + [files[i]];
    FqGzNamesConcat(files[..i], [files[i]]);
    UnderConcat(dir, FqGzNames(files[..i]), FqGzNames([files[i]]));
    assert [files[i]][1..] == [];
  }

  /** find_fq_gzs as a value: None when the sample lists no sra file (find_sras
      found no info file, or none of its files) or when a conversion flag is
      missing; otherwise the paths of the converted read files in the directory. */
  function FqGzs(dir: Path, sras: Option<seq<Path>>, files: seq<string>): Option<seq<Path>>
  {
    if sras.None? || sras.value == [] then None
    else if MissingFlags(dir, sras.value, files) != [] then None
    else Some(Under(dir, FqGzNames(files)))
  }

  /** The first loop of find_fq_gzs: collects the conversion flags that do not exist. */
  method CollectMissingFlags(gsmDir: Path, sras: seq<Path>, files: seq<string>) returns (nonexistentFlags: seq<Path>)
    ensures nonexistentFlags == MissingFlags(gsmDir, sras, files)
  {
    nonexistentFlags := [];
    for i := 0 to |sras|
      invariant nonexistentFlags == MissingFlags(gsmDir, sras[..i], files)
    {
      MissingFlagsSnoc(gsmDir, sras, files, i);
      var flag := Sra2FastqFlag(sras[i]);
      if flag !in files {
        nonexistentFlags := nonexistentFlags + [gsmDir + [flag]];
      }
    }
    assert sras[..|sras|] == sras;
  }

  /** The second loop of find_fq_gzs: the matched read file names of the listing,
      joined under the sample directory. */
  method CollectFqGzs(gsmDir: Path, files: seq<string>) returns (fqGzs: seq<Path>)
    ensures fqGzs == Under(gsmDir, FqGzNames(files))
  {
    fqGzs := [];
    for i := 0 to |files|
      invariant fqGzs == Under(gsmDir, FqGzNames(files[..i]))
    {
      FqGzsSnoc(gsmDir, files, i);
      var m := Group0(FastqGz, files[i]);
      if m.Some? {
        fqGzs := fqGzs + [gsmDir + [m.value]];
      }
    }
    assert files[..|files|] == files;
  }

  /** find_fq_gzs: `sras` is what find_sras returned and `files` what os.listdir
      returns for the sample directory. */
  method FindFqGzs(gsmDir: Path, sras: Option<seq<Path>>, files: seq<string>) returns (r: Option<seq<Path>>)
    ensures r.Some? <==> sras.Some? && sras.value != [] && forall s <- sras.value :: Sra2FastqFlag(s) in files
    ensures r.Some? ==> r.value == Under(gsmDir, FqGzNames(files))
    ensures r == FqGzs(gsmDir, sras, files)
  {
    if sras.None? || sras.value == [] {
      return None;
    }
    NoMissingFlagIff(gsmDir, sras.value, files);
    var nonexistentFlags := CollectMissingFlags(gsmDir, sras.value, files);
    if nonexistentFlags != [] {
      return None;
    }
    var fqGzs := CollectFqGzs(gsmDir, files);
    return Some(fqGzs);
  }

  /** A sample directory offers reads for transfer iff it lists at least one sra
      file, every one of them carries its conversion flag, and some file in it is a
      converted read file. */
  lemma HasReadsIff(dir: Path, sras: Option<seq<Path>>, files: seq<string>)
    ensures (FqGzs(dir, sras, files).Some? && FqGzs(dir, sras, files).value != [])
        <==> && sras.Some? && sras.value != []
             && (forall s <- sras.value :: Sra2FastqFlag(s) in files)
             && (exists f <- files :: Matches(FastqGz, f))
  {
    if sras.Some? {
      NoMissingFlagIff(dir, sras.value, files);
    }
    FqGzNamesSpec(files);
  }

  // ---------------------------------------------------------------------------
  // Sample directories in the local tree
  // ---------------------------------------------------------------------------

  /** get_gse_species_gsm_from_path: the last three components of a directory
      .../GSExxx/species/GSMxxx, with "" for each one the path is too short to have. */
  function GseSpeciesGsm(path: Path): (r: (string, string, string))
    ensures |path| >= 3 ==> path == path[..|path| - 3] + [r.0, r.1, r.2]
    ensures |path| < 3 ==> r.0 == ""
  {
    var (gseSpeciesPath, gsm) := Split(path);
    var (gsePath, species) := Split(gseSpeciesPath);
    (Basename(gsePath), species, gsm)
  }

  /** The directory of one sample: at least three deep, its name ends in a sample
      accession and the name two levels up in a series accession. */
  predicate IsUnitDir(root: Path)
  {
    && |root| >= 3
    && HasAccessionSuffix("GSM", root[|root| - 1])
    && HasAccessionSuffix("GSE", root[|root| - 3])
  }

  /** The test find_gsms_to_transfer makes, `GSM\d+$` on the directory name and
      `GSE\d+$` on the name two levels up, accepts exactly the sample directories. */
  lemma UnitDirIff(root: Path)
    ensures var (gse, _, gsm) := GseSpeciesGsm(root);
      Matches(AccessionAtEnd("GSM"), gsm) && Matches(AccessionAtEnd("GSE"), gse) <==> IsUnitDir(root)
  {
    var t := GseSpeciesGsm(root);
    AccessionAtEndIff("GSM", t.2);
    AccessionAtEndIff("GSE", t.0);
    if |root| >= 3 {
      var head := root[..|root| - 3];
      assert root == head + [t.0, t.1, t.2];
      assert root[|root| - 1] == t.2 && root[|root| - 3] == t.0;
    } else {
      assert !HasAccessionSuffix("GSE", t.0);
    }
  }

  /** One directory os.walk visits under the local top output directory: its path
      below the top, what find_sras returns for it, what os.listdir returns for it,
      and whether its submit script 0_submit.sh exists. */
  datatype WalkEntry = WalkEntry(rel: Path, sras: Option<seq<Path>>, files: seq<string>, submitScript: bool)

  /** The transfer id of a directory: its path relative to the top (os.path.relpath). */
  function TransferId(top: Path, e: WalkEntry): (r: string)
    ensures e.rel == [] ==> r == "."
    ensures e.rel != [] ==> r == Join(e.rel, "/")
  {
    var root := top + e.rel;
    assert root[..|top|] == top && root[|top|..] == e.rel;
    RelPath(root, top)
  }

  /** The fastq.gz files offered for transfer: find_fq_gzs found some. */
  predicate HasReads(fqGzs: Option<seq<Path>>)
  {
    fqGzs.Some? && fqGzs.value != []
  }

  /** A directory the transfer scan weighs against the budget: a sample directory not
      yet in the transfer record, whose sra files (at least one) all carry their
      conversion flag, holding at least one converted read file, and with a submit
      script. Any other directory is skipped without touching the budget. */
  predicate Considered(top: Path, transferred: seq<string>, e: WalkEntry)
  {
    && IsUnitDir(top + e.rel)
    && TransferId(top, e) !in transferred
    && e.sras.Some? && e.sras.value != []
    && (forall s <- e.sras.value :: Sra2FastqFlag(s) in e.files)
    && (exists f <- e.files :: Matches(FastqGz, f))
    && e.submitScript
  }

  /** The checks of find_gsms_to_transfer, in its order (the two name patterns, the
      record, find_fq_gzs finding some read file, the submit script), pass exactly
      for the considered directories. */
  lemma ConsideredIff(top: Path, transferred: seq<string>, e: WalkEntry)
    ensures var root := top + e.rel;
      var (gse, _, gsm) := GseSpeciesGsm(root);
      Considered(top, transferred, e) <==>
        && Matches(AccessionAtEnd("GSM"), gsm) && Matches(AccessionAtEnd("GSE"), gse)
        && TransferId(top, e) !in transferred
        && HasReads(FqGzs(root, e.sras, e.files))
        && e.submitScript
  {
    UnitDirIff(top + e.rel);
    HasReadsIff(top + e.rel, e.sras, e.files);
  }

  /** The estimated RSEM usage of a directory, from the fastq.gz sizes recorded in it. */
  function Cost(top: Path, sizes: Path -> nat, ratio: real, e: WalkEntry): (r: real)
    ensures ratio >= 0.0 ==> r >= 0.0
  {
    EstimateRsemUsage(sizes(top + e.rel), ratio)
  }

  /** Considered, as the eligibility test the scan takes. */
  function ConsideredBy(top: Path, transferred: seq<string>): WalkEntry -> bool
  {
    e => Considered(top, transferred, e)
  }

  /** Cost, as the cost the scan takes. */
  function CostBy(top: Path, sizes: Path -> nat, ratio: real): WalkEntry -> real
  {
    e => Cost(top, sizes, ratio, e)
  }

  /** The directories find_gsms_to_transfer admits, in walk order: a considered
      directory is admitted iff its estimate is strictly below what is left of the
      budget, which then drops by that estimate. */
  function Admitted(entries: seq<WalkEntry>, top: Path, transferred: seq<string>, sizes: Path -> nat, ratio: real, budget: real)
    : seq<WalkEntry>
  {
    Admit(entries, ConsideredBy(top, transferred), CostBy(top, sizes, ratio), budget, true)
  }

  /** The ids of directories, in order. */
  function Ids(top: Path, es: seq<WalkEntry>): seq<string>
  {
    if es == [] then [] else [TransferId(top, es[0])] + Ids(top, es[1..])
  }

  /** The checks find_gsms_to_transfer makes on one directory of the walk, in its
      order: the sample directory shape, the transfer record, the converted reads and
      the submit script. The estimate of a directory that passes them all; None for a
      directory it skips. */
  method WeighDirectory(top: Path, gsmsTransferred: seq<string>, e: WalkEntry, sizes: Path -> nat, ratio: real)
    returns (rsemUsage: Option<real>)
    ensures rsemUsage.Some? <==> Considered(top, gsmsTransferred, e)
    ensures rsemUsage.Some? ==> rsemUsage.value == Cost(top, sizes, ratio, e)
  {
    ConsideredIff(top, gsmsTransferred, e);
    var root := top + e.rel;
    var (gse, _, gsm) := GseSpeciesGsm(root);
    if !(Matches(AccessionAtEnd("GSM"), gsm) && Matches(AccessionAtEnd("GSE"), gse)) {
      return None;
    }
    var transferId := TransferId(top, e);
    if transferId in gsmsTransferred {
      return None;
    }
    var fqGzs := FindFqGzs(root, e.sras, e.files);
    if fqGzs.Some? && fqGzs.value != [] {
      if !e.submitScript {
        return None;
      }
      return Some(EstimateRsemUsage(sizes(root), ratio));
    }
    return None;
  }

  lemma {:induction false} IdsSnoc(top: Path, es: seq<WalkEntry>, e: WalkEntry)
    ensures Ids(top, es + [e]) == Ids(top, es) + [TransferId(top, e)]
  {
    if es == [] {
      assert es + [e] == [e];
    } else {
      assert (es + [e])[1..] == es[1..] + [e];
      IdsSnoc(top, es[1..], e);
    }
  }

  /** find_gsms_to_transfer: walks the local tree in os.walk order and collects the
      transfer ids that fit the remote budget `rFreeToUse`. The record is read once,
      before the walk. */
  method FindGsmsToTransfer(top: Path, log: TransferLog, entries: seq<WalkEntry>, sizes: Path -> nat, ratio: real, rFreeToUse: real)
    returns (gsmsToTransfer: seq<string>)
    ensures gsmsToTransfer == Ids(top, Admitted(entries, top, log.Transferred(), sizes, ratio, rFreeToUse))
  {
    var gsmsTransferred := log.Transferred();
    ghost var eligible := ConsideredBy(top, gsmsTransferred);
    ghost var cost := CostBy(top, sizes, ratio);
    gsmsToTransfer := [];
    var rFreeLeft := rFreeToUse;
    ghost var admitted := [];
    for i := 0 to |entries|
      invariant admitted == Admit(entries[..i], eligible, cost, rFreeToUse, true)
      invariant gsmsToTransfer == Ids(top, admitted)
      invariant rFreeLeft == rFreeToUse - Total(admitted, cost)
    {
      var rsemUsage := WeighDirectory(top, gsmsTransferred, entries[i], sizes, ratio);
      AdmitPrefixStep(entries, i, eligible, cost, rFreeToUse, true, admitted, rFreeLeft, rsemUsage);
      if rsemUsage.Some? && rsemUsage.value < rFreeLeft {
        IdsSnoc(top, admitted, entries[i]);
        gsmsToTransfer := gsmsToTransfer + [TransferId(top, entries[i])];
        rFreeLeft := rFreeLeft - rsemUsage.value;
        admitted := admitted + [entries[i]];
      }
    }
    assert entries[..|entries|] == entries;
  }

  /** select_samples_to_transfer: the remote free space, the configured maximum and
      minimum, the `find` output of the remote output directory and the local tree
      give one batch. ValueError when the remote listing is unavailable. */
  method SelectSamplesToTransfer(
    freeSpace: real, maxUsage: real, minFree: real, findOutput: Option<seq<Path>>,
    rTop: Path, lTop: Path, log: TransferLog, entries: seq<WalkEntry>, sizes: Path -> nat, ratio: real)
    returns (r: Result<seq<string>, Exception>)
    ensures r.Err? <==> findOutput.None?
    ensures findOutput.Some? ==>
      var est := PendingUsage(findOutput.value, findOutput.value, rTop, lTop, sizes, ratio);
      r == Ok(Ids(lTop, Admitted(entries, lTop, log.Transferred(), sizes, ratio, RemoteFreeToUse(freeSpace, maxUsage, est, minFree))))
  {
    var estimate := EstimateCurrentRemoteUsage(findOutput, rTop, lTop, sizes, ratio);
    if estimate.Err? {
      return Err(estimate.error);
    }
    var rFreeToUse := RemoteFreeToUse(freeSpace, maxUsage, estimate.value, minFree);
    var gsms := FindGsmsToTransfer(lTop, log, entries, sizes, ratio, rFreeToUse);
    return Ok(gsms);
  }

  /** main: select a batch; when there is one, the transfer script runs (its exit
      status is `rcode`) and a successful batch is appended to the record. */
  method RunTransfer(
    freeSpace: real, maxUsage: real, minFree: real, findOutput: Option<seq<Path>>,
    rTop: Path, lTop: Path, log: TransferLog, entries: seq<WalkEntry>, sizes: Path -> nat, ratio: real,
    rcode: int, timestamp: string)
    returns (r: Result<seq<string>, Exception>)
    modifies log
    ensures r.Err? <==> findOutput.None?
    ensures r.Ok? ==> r.value == Ids(lTop, Admitted(entries, lTop, ReadRecord(old(log.file)), sizes, ratio,
                         RemoteFreeToUse(freeSpace, maxUsage, PendingUsage(findOutput.value, findOutput.value, rTop, lTop, sizes, ratio), minFree)))
    ensures r.Ok? && r.value != [] && rcode == 0 ==> log.file == Some(Contents(old(log.file)) + RecordBlock(timestamp, r.value))
    ensures r.Err? || r.value == [] || rcode != 0 ==> log.file == old(log.file)
  {
    r := SelectSamplesToTransfer(freeSpace, maxUsage, minFree, findOutput, rTop, lTop, log, entries, sizes, ratio);
    if r.Err? {
      return;
    }
    log.RecordTransferOutcome(r.value, rcode, timestamp);
  }

  // ---------------------------------------------------------------------------
  // Properties of the transfer scan
  // ---------------------------------------------------------------------------

  lemma {:induction false} IdsIsMap(top: Path, es: seq<WalkEntry>)
    ensures Ids(top, es) == Map(es, e => TransferId(top, e))
  {
    if es != [] {
      IdsIsMap(top, es[1..]);
    }
  }

  /** The batch is made of considered directories of the walk, in walk order; none of
      its ids is in the transfer record; and its estimates sum to strictly less than
      the budget. */
  lemma TransferScanSound(entries: seq<WalkEntry>, top: Path, transferred: seq<string>, sizes: Path -> nat, ratio: real, budget: real)
    ensures var a := Admitted(entries, top, transferred, sizes, ratio, budget);
      && IsSubsequence(Ids(top, a), Ids(top, entries))
      && (forall e <- a :: Considered(top, transferred, e))
      && (forall id <- Ids(top, a) :: id !in transferred)
      && (a != [] ==> Total(a, CostBy(top, sizes, ratio)) < budget)
  {
    var a := Admitted(entries, top, transferred, sizes, ratio, budget);
    AdmitSound(entries, ConsideredBy(top, transferred), CostBy(top, sizes, ratio), budget, true);
    SubsequenceMap(a, entries, e => TransferId(top, e));
    IdsIsMap(top, a);
    IdsIsMap(top, entries);
    forall id <- Ids(top, a) ensures id !in transferred {
      var i :| 0 <= i < |a| && Map(a, e => TransferId(top, e))[i] == id;
      assert ConsideredBy(top, transferred)(a[i]);
    }
  }

  /** The scan is greedy to the end: every considered directory left out has an
      estimate at least as large as the budget the batch leaves unused. */
  lemma TransferScanLeavesNoFit(entries: seq<WalkEntry>, top: Path, transferred: seq<string>, sizes: Path -> nat, ratio: real, budget: real)
    requires ratio >= 0.0
    ensures var a := Admitted(entries, top, transferred, sizes, ratio, budget);
      forall e <- entries | Considered(top, transferred, e) && e !in a ::
        Cost(top, sizes, ratio, e) >= budget - Total(a, CostBy(top, sizes, ratio))
  {
    var a := Admitted(entries, top, transferred, sizes, ratio, budget);
    forall e <- entries | Considered(top, transferred, e) && e !in a
      ensures Cost(top, sizes, ratio, e) >= budget - Total(a, CostBy(top, sizes, ratio))
    {
      AdmitLeavesNoFit(entries, ConsideredBy(top, transferred), CostBy(top, sizes, ratio), budget, true, e);
    }
  }

  /** Without a positive budget nothing is transferred. */
  lemma NothingFitsNoRemoteBudget(entries: seq<WalkEntry>, top: Path, transferred: seq<string>, sizes: Path -> nat, ratio: real, budget: real)
    requires ratio >= 0.0 && budget <= 0.0
    ensures Admitted(entries, top, transferred, sizes, ratio, budget) == []
  {
    NothingFitsNoBudget(entries, ConsideredBy(top, transferred), CostBy(top, sizes, ratio), budget, true);
  }

  /** Strictly below: a directory whose estimate equals the whole budget is rejected,
      and the scan still admits a later one that fits. */
  lemma StrictBudgetExample(top: Path, transferred: seq<string>, sizes: Path -> nat, e1: WalkEntry, e2: WalkEntry)
    requires Considered(top, transferred, e1) && Considered(top, transferred, e2)
    requires sizes(top + e1.rel) == 600 && sizes(top + e2.rel) == 10
    ensures Admitted([e1, e2], top, transferred, sizes, 1.0, 600.0) == [e2]
  {
    StrictRejectsExactFit(ConsideredBy(top, transferred), CostBy(top, sizes, 1.0), e1, e2);
  }

  /** Walking past a rejection: estimates 500, 50, 2000 and 10 against a budget of
      600 admit the first, the second and the fourth. */
  lemma ScanContinuesExample(top: Path, transferred: seq<string>, sizes: Path -> nat, e1: WalkEntry, e2: WalkEntry, e3: WalkEntry, e4: WalkEntry)
    requires Considered(top, transferred, e1) && Considered(top, transferred, e2)
    requires Considered(top, transferred, e3) && Considered(top, transferred, e4)
    requires sizes(top + e1.rel) == 500 && sizes(top + e2.rel) == 50
    requires sizes(top + e3.rel) == 2000 && sizes(top + e4.rel) == 10
    ensures Admitted([e1, e2, e3, e4], top, transferred, sizes, 1.0, 600.0) == [e1, e2, e4]
  {
    ScanPastRejection(ConsideredBy(top, transferred), CostBy(top, sizes, 1.0), e1, e2, e3, e4);
  }

  /** After a successful batch is recorded, none of its samples is offered again:
      the record read by the next run lists every id of the batch. */
  lemma RecordedAreNotOfferedAgain(before: Option<string>, timestamp: string, gsms: seq<string>, top: Path, e: WalkEntry)
    requires EndsLine(Contents(before)) && '\n' !in timestamp
    requires forall id <- gsms :: Recordable(id)
    requires TransferId(top, e) in gsms
    ensures !Considered(top, ReadRecord(Some(Contents(before) + RecordBlock(timestamp, gsms))), e)
  {
    SuccessfulTransferExtendsRecord(before, timestamp, gsms);
  }
}
