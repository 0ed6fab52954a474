/** format_gsms_diff of utils_pre_pipeline_run.py: the ids that one side of the
    sanity check lacks, each 'GSE:GSM', grouped by GSE for the error report. The ids
    are sorted first, so the ids of one GSE come out as one contiguous run, and the
    dict the loop fills gets one entry per GSE holding its GSMs in sorted order. */
module GsmsDiff {
  import opened Common
  import opened Text

  type Pairs = seq<(string, string)>

  /** The (gse, gsm) halves of every id, in order; None when some id does not split
      into exactly two parts at ':' (the unpacking raises ValueError). */
  function SplitAll(ids: seq<string>): Option<Pairs>
  {
    if ids == [] then Some([])
    else
      var init := SplitAll(ids[..|ids| - 1]);
      var last := SplitColon(ids[|ids| - 1]);
      if init.None? || last.None? then None else Some(init.value + [last.value])
  }

  /** The GSMs paired with `g`, in order. */
  function GsmsOf(pairs: Pairs, g: string): seq<string>
  {
    if pairs == [] then []
    else
      var last := pairs[|pairs| - 1];
      GsmsOf(pairs[..|pairs| - 1], g) + (if last.0 == g then [last.1] else [])
  }

  /** The GSEs that occur. */
  function Gses(pairs: Pairs): set<string>
  {
    set p | p in pairs :: p.0
  }

  /** `dd`: each GSE with its GSMs. */
  function Groups(pairs: Pairs): map<string, seq<string>>
  {
    map g | g in Gses(pairs) :: GsmsOf(pairs, g)
  }

  /** `dd2`: each group under the label 'GSE (count)', the label given as the pair. */
  function Labelled(dd: map<string, seq<string>>): map<(string, nat), seq<string>>
  {
    map g | g in dd :: (g, |dd[g]|) := dd[g]
  }

  /** What format_gsms_diff builds, before rendering it as text. */
  function GsmsDiffGroups(diff: seq<string>): Result<map<(string, nat), seq<string>>, Exception>
  {
    var pairs := SplitAll(Sort(diff));
    if pairs.None? then Err(ValueError) else Ok(Labelled(Groups(pairs.value)))
  }

  // ---------------------------------------------------------------------------
  // Facts about the pieces
  // ---------------------------------------------------------------------------

  lemma {:induction false} SplitAllNoneIff(ids: seq<string>)
    ensures SplitAll(ids).None? <==> exists id <- ids :: SplitColon(id).None?
  {
    if ids != [] {
      var init := ids[..|ids| - 1];
      SplitAllNoneIff(init);
      assert forall id <- ids :: id in init || id == ids[|ids| - 1];
      assert forall id <- init :: id in ids;
    }
  }

  lemma {:induction false} SplitAllLength(ids: seq<string>)
    requires SplitAll(ids).Some?
    ensures |SplitAll(ids).value| == |ids|
  {
    if ids != [] {
      SplitAllLength(ids[..|ids| - 1]);
    }
  }

  /** The pair at position `m` is the split of the id at position `m`. */
  lemma {:induction false} SplitAllAt(ids: seq<string>, m: nat)
    requires SplitAll(ids).Some? && m < |ids|
    ensures |SplitAll(ids).value| == |ids| && SplitColon(ids[m]) == Some(SplitAll(ids).value[m])
  {
    SplitAllLength(ids);
    var init := ids[..|ids| - 1];
    if m < |init| {
      SplitAllAt(init, m);
      assert ids[m] == init[m];
    }
  }

  lemma {:induction false} GsmsOfMembers(pairs: Pairs, g: string, gsm: string)
    ensures gsm in GsmsOf(pairs, g) <==> (g, gsm) in pairs
  {
    if pairs != [] {
      var init := pairs[..|pairs| - 1];
      GsmsOfMembers(init, g, gsm);
      assert pairs == init + [pairs[|pairs| - 1]];
    }
  }

  lemma {:induction false} GsmsOfAbsent(pairs: Pairs, g: string)
    requires g !in Gses(pairs)
    ensures GsmsOf(pairs, g) == []
  {
    if pairs != [] {
      var init := pairs[..|pairs| - 1];
      assert Gses(init) <= Gses(pairs) by {
        assert forall p <- init :: p in pairs;
      }
      assert pairs[|pairs| - 1] in pairs;
      GsmsOfAbsent(init, g);
    }
  }

  lemma GsmsOfSnoc(pairs: Pairs, p: (string, string), g: string)
    ensures GsmsOf(pairs + [p], g) == GsmsOf(pairs, g) + (if p.0 == g then [p.1] else [])
  {
    assert (pairs + [p])[..|pairs|] == pairs;
  }

  /** Appending a pair starts the group of a new GSE, or extends the group of a GSE
      already seen, and leaves the other groups alone. */
  lemma GroupsSnoc(pairs: Pairs, p: (string, string))
    ensures p.0 !in Gses(pairs) ==> Groups(pairs + [p]) == Groups(pairs)[p.0 := [p.1]]
    ensures p.0 in Gses(pairs) ==> Groups(pairs + [p]) == Groups(pairs)[p.0 := Groups(pairs)[p.0] + [p.1]]
  {
    var pairs' := pairs + [p];
    var before := Groups(pairs);
    var after := before[p.0 := GsmsOf(pairs, p.0) + [p.1]];
    assert Gses(pairs') == Gses(pairs) + {p.0} by {
      assert forall q <- pairs' :: q in pairs || q == p;
      assert p in pairs';
      assert forall q <- pairs :: q in pairs';
    }
    forall g | g in Gses(pairs') ensures Groups(pairs')[g] == after[g] {
      GsmsOfSnoc(pairs, p, g);
    }
    assert Groups(pairs') == after;
    if p.0 !in Gses(pairs) {
      GsmsOfAbsent(pairs, p.0);
      assert GsmsOf(pairs, p.0) + [p.1] == [p.1];
    }
  }

  /** SplitAll over one more id. */
  lemma SplitAllStep(ids: seq<string>, i: nat, pairs: Pairs)
    requires i < |ids| && SplitAll(ids[..i]) == Some(pairs)
    ensures SplitColon(ids[i]).None? ==> SplitAll(ids).None?
    ensures SplitColon(ids[i]).Some? ==> SplitAll(ids[..i + 1]) == Some(pairs + [SplitColon(ids[i]).value])
  {
    assert ids[..i + 1][..i] == ids[..i];
    if SplitColon(ids[i]).None? {
      SplitAllNoneIff(ids);
      assert ids[i] in ids;
    }
  }

  /** Ids sorted as text keep each GSE in one contiguous run: an id between two ids
      of the same GSE has that GSE too. */
  lemma Contiguous(x: string, y: string, z: string, px: (string, string), py: (string, string), pz: (string, string))
    requires LexLe(x, y) && LexLe(y, z)
    requires SplitColon(x) == Some(px) && SplitColon(y) == Some(py) && SplitColon(z) == Some(pz)
    ensures px.0 == pz.0 ==> py.0 == pz.0
  {
    var g := pz.0;
    if px.0 == g {
      assert (g + ":" + px.1)[..|g| + 1] == g + ":";
      assert (g + ":" + pz.1)[..|g| + 1] == g + ":";
      LexLeBetweenSharesPrefix(x, y, z, g + ":");
      FirstColon(g, y);
      assert (py.0 + ":" + py.1)[..|py.0| + 1] == py.0 + ":";
      FirstColon(py.0, y);
      assert g == y[..|g|] == py.0;
    }
  }

  /** When the GSE changes in the sorted ids, the new GSE has not been seen before. */
  lemma NewGseIsFresh(ids: seq<string>, i: nat, pairs: Pairs, p: (string, string))
    requires IsSorted(ids) && i < |ids| && |pairs| == i
    requires SplitAll(ids[..i]) == Some(pairs) && SplitColon(ids[i]) == Some(p)
    requires i == 0 || pairs[i - 1].0 != p.0
    ensures p.0 !in Gses(pairs)
  {
    forall m | 0 <= m < i ensures pairs[m].0 != p.0 {
      SplitAllAt(ids[..i], m);
      SplitAllAt(ids[..i], i - 1);
      assert ids[..i][m] == ids[m] && ids[..i][i - 1] == ids[i - 1];
      if m < i - 1 {
        Contiguous(ids[m], ids[i - 1], ids[i], pairs[m], pairs[i - 1], p);
      }
    }
  }

  /** format_gsms_diff: sort the ids, then walk them keeping the current GSE; a new
      GSE starts its group with the GSM (`dd[gse] = [gsm]`), the same GSE appends it;
      finally label every group with its size. */
  method FormatGsmsDiff(diff: seq<string>) returns (r: Result<map<(string, nat), seq<string>>, Exception>)
    ensures r == GsmsDiffGroups(diff)
  {
    var ids := Sort(diff);
    var dd: map<string, seq<string>> := map[];
    var currentGse: Option<string> := None;
    ghost var pairs: Pairs := [];
    for i := 0 to |ids|
      invariant SplitAll(ids[..i]) == Some(pairs) && |pairs| == i
      invariant currentGse.None? <==> i == 0
      invariant i > 0 ==> currentGse.value == pairs[i - 1].0
      invariant dd == Groups(pairs)
    {
      var parts := SplitColon(ids[i]);
      SplitAllStep(ids, i, pairs);
      if parts.None? {
        return Err(ValueError);
      }
      var (gse, gsm) := parts.value;
      GroupsSnoc(pairs, (gse, gsm));
      if currentGse.None? || gse != currentGse.value {
        NewGseIsFresh(ids, i, pairs, (gse, gsm));
        currentGse := Some(gse);
        dd := dd[gse := [gsm]];
      } else {
        assert pairs[i - 1] in pairs;
        dd := dd[gse := dd[gse] + [gsm]];
      }
      pairs := pairs + [(gse, gsm)];
    }
    assert ids[..|ids|] == ids;
    return Ok(Labelled(dd));
  }

  // ---------------------------------------------------------------------------
  // What the report holds
  // ---------------------------------------------------------------------------

  /** The report raises ValueError iff some id does not split into a GSE and a GSM. */
  lemma GsmsDiffRaisesIff(diff: seq<string>)
    ensures GsmsDiffGroups(diff).Err? <==> exists id <- diff :: SplitColon(id).None?
  {
    var ids := Sort(diff);
    SplitAllNoneIff(ids);
    assert forall id :: id in ids <==> id in diff by {
      assert forall id :: id in ids <==> id in multiset(ids);
    }
  }

  /** The (gse, gsm) pairs the report is built from. */
  function ReportPairs(diff: seq<string>): Pairs
    requires GsmsDiffGroups(diff).Ok?
  {
    SplitAll(Sort(diff)).value
  }

  /** A pair is the split of one of the ids. */
  lemma ReportPairOfId(diff: seq<string>, pair: (string, string))
    requires GsmsDiffGroups(diff).Ok?
    ensures pair in ReportPairs(diff) <==> pair.0 + ":" + pair.1 in diff && SplitColon(pair.0 + ":" + pair.1) == Some(pair)
  {
    var ids := Sort(diff);
    var pairs := ReportPairs(diff);
    var id := pair.0 + ":" + pair.1;
    assert id in ids <==> id in diff by {
      assert id in ids <==> id in multiset(ids);
    }
    SplitAllLength(ids);
    if pair in pairs {
      var m :| 0 <= m < |pairs| && pairs[m] == pair;
      SplitAllAt(ids, m);
      assert ids[m] == id;
    }
    if id in diff && SplitColon(id) == Some(pair) {
      var m :| 0 <= m < |ids| && ids[m] == id;
      SplitAllAt(ids, m);
      assert pairs[m] == pair;
    }
  }

  /** The ids whose GSE is `g`. */
  function OfGse(g: string): string -> bool
  {
    id => SplitColon(id).Some? && SplitColon(id).value.0 == g
  }

  /** How many of the ids belong to GSE `g`. */
  function GseCount(ids: seq<string>, g: string): nat
  {
    |Filter(ids, OfGse(g))|
  }

  /** A group holds one GSM for every id of its GSE. */
  lemma {:induction false} GsmsOfCount(ids: seq<string>, g: string)
    requires SplitAll(ids).Some?
    ensures |GsmsOf(SplitAll(ids).value, g)| == GseCount(ids, g)
  {
    if ids != [] {
      var k := |ids| - 1;
      var init := ids[..k];
      GsmsOfCount(init, g);
      var p := SplitColon(ids[k]).value;
      assert SplitAll(ids).value == SplitAll(init).value + [p];
      GsmsOfSnoc(SplitAll(init).value, p, g);
      assert ids == init + [ids[k]];
      FilterSnoc(init, ids[k], OfGse(g));
    }
  }

  /** The report has one entry for every GSE among the ids, labelled with the number
      of ids in `diff` that belong to it, and no other entry. */
  lemma ReportEntries(diff: seq<string>, g: string, n: nat)
    requires GsmsDiffGroups(diff).Ok?
    ensures (g, n) in GsmsDiffGroups(diff).value <==> n == GseCount(diff, g) && n > 0
    ensures (g, n) in GsmsDiffGroups(diff).value ==> GsmsDiffGroups(diff).value[(g, n)] == GsmsOf(ReportPairs(diff), g)
  {
    var ids := Sort(diff);
    var pairs := ReportPairs(diff);
    GsmsOfCount(ids, g);
    FilterPermutationLength(ids, diff, OfGse(g));
    if g in Gses(pairs) {
      var p :| p in pairs && p.0 == g;
      GsmsOfMembers(pairs, g, p.1);
    } else {
      GsmsOfAbsent(pairs, g);
    }
  }

  /** The GSEs of the report are those of the ids. */
  lemma ReportGses(diff: seq<string>, g: string)
    requires GsmsDiffGroups(diff).Ok?
    ensures g in Gses(ReportPairs(diff)) <==> exists gsm :: g + ":" + gsm in diff && ':' !in g && ':' !in gsm
  {
    var pairs := ReportPairs(diff);
    if g in Gses(pairs) {
      var p :| p in pairs && p.0 == g;
      ReportPairOfId(diff, p);
    }
    if exists gsm :: g + ":" + gsm in diff && ':' !in g && ':' !in gsm {
      var gsm :| g + ":" + gsm in diff && ':' !in g && ':' !in gsm;
      SplitColonOfJoin(g, gsm);
      ReportPairOfId(diff, (g, gsm));
    }
  }

  /** The GSMs listed for a GSE are exactly those the ids pair with it. */
  lemma ReportGroupMembers(diff: seq<string>, g: string, gsm: string)
    requires GsmsDiffGroups(diff).Ok?
    ensures gsm in GsmsOf(ReportPairs(diff), g) <==> g + ":" + gsm in diff && ':' !in g && ':' !in gsm
  {
    GsmsOfMembers(ReportPairs(diff), g, gsm);
    ReportPairOfId(diff, (g, gsm));
    if ':' !in g && ':' !in gsm {
      SplitColonOfJoin(g, gsm);
    }
  }

  /** Every group lists its GSMs in sorted order. */
  lemma {:induction false} GroupIsSorted(ids: seq<string>, g: string)
    requires IsSorted(ids) && SplitAll(ids).Some?
    ensures IsSorted(GsmsOf(SplitAll(ids).value, g))
  {
    if ids != [] {
      var k := |ids| - 1;
      var init := ids[..k];
      var pairs := SplitAll(ids).value;
      GroupIsSorted(init, g);
      SplitAllAt(ids, k);
      var last := pairs[k];
      assert pairs[..k] == SplitAll(init).value;
      if last.0 == g {
        var before := GsmsOf(pairs[..k], g);
        forall x <- before ensures LexLe(x, last.1) {
          GsmsOfMembers(pairs[..k], g, x);
          var m :| 0 <= m < k && pairs[m] == (g, x);
          SplitAllAt(ids, m);
          LexLeCommonPrefix(g + ":", x, last.1);
        }
        SortedSnoc(before, last.1);
      }
    }
  }

  /** The report lists each group's GSMs in sorted order. */
  lemma ReportGroupsAreSorted(diff: seq<string>, g: string)
    requires GsmsDiffGroups(diff).Ok?
    ensures IsSorted(GsmsOf(ReportPairs(diff), g))
  {
    GroupIsSorted(Sort(diff), g);
  }
}
