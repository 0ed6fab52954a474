/** find_duplicated_GSMs.py: one pass over the (gse, gsm) rows of GSE_GSM.csv that
    reports a GSM seen before in the current run of rows of one GSE. The seen list is
    emptied whenever the GSE changes, so only repeats inside one contiguous run of a
    GSE are reported; a GSE whose rows are split into several runs is checked run by
    run. */
module DuplicatedGsms {
  import opened Common

  /** A csv row: (gse, gsm). */
  type Row = (string, string)

  /** `all_gsm` after row `i - 1`: the GSMs of the run of rows of one GSE that ends
      with row `i - 1`. */
  function RunGsms(rows: seq<Row>, i: nat): set<string>
    requires i <= |rows|
  {
    if i == 0 then {}
    else if i == 1 || rows[i - 2].0 != rows[i - 1].0 then {rows[i - 1].1}
    else RunGsms(rows, i - 1) + {rows[i - 1].1}
  }

  /** Row `i` is reported: it continues the run of the row before it, and its GSM is
      among those seen in that run. */
  predicate IsDuplicate(rows: seq<Row>, i: nat)
    requires i < |rows|
  {
    i > 0 && rows[i - 1].0 == rows[i].0 && rows[i].1 in RunGsms(rows, i)
  }

  /** The reported rows among the first `n`, in row order. */
  function ReportsUpTo(rows: seq<Row>, n: nat): seq<Row>
    requires n <= |rows|
  {
    if n == 0 then []
    else ReportsUpTo(rows, n - 1) + (if IsDuplicate(rows, n - 1) then [rows[n - 1]] else [])
  }

  /** The messages printed, one (gse, gsm) row per reported duplicate. */
  function Reports(rows: seq<Row>): seq<Row>
  {
    ReportsUpTo(rows, |rows|)
  }

  /** The script's `main`: the rows come in as a parameter, the printed duplicates
      come out as `reports`, and `exitCode` is 1 when it calls sys.exit(1) and 0 when
      it returns. */
  method FindDuplicates(rows: seq<Row>) returns (reports: seq<Row>, flag: bool, exitCode: int)
    ensures reports == Reports(rows)
    ensures flag <==> reports == []
    ensures exitCode == (if flag then 0 else 1)
  {
    flag := true;
    reports := [];
    var currentGse: Option<string> := None;
    var allGsm: seq<string> := [];
    for i := 0 to |rows|
      invariant reports == ReportsUpTo(rows, i)
      invariant flag <==> reports == []
      invariant currentGse.None? <==> i == 0
      invariant i > 0 ==> currentGse.value == rows[i - 1].0
      invariant forall g :: g in allGsm <==> g in RunGsms(rows, i)
    {
      var (gse, gsm) := rows[i];
      if currentGse.None? || gse != currentGse.value {
        allGsm := [];
        currentGse := Some(gse);
      }
      if gsm !in allGsm {
        allGsm := allGsm + [gsm];
      } else {
        reports := reports + [rows[i]];
        flag := false;
      }
    }
    exitCode := if flag then 0 else 1;
  }

  /** Rows `j` to `e` all belong to the GSE of row `e`. */
  predicate SameRun(rows: seq<Row>, j: nat, e: nat)
    requires j <= e < |rows|
  {
    forall l :: j <= l <= e ==> rows[l].0 == rows[e].0
  }

  /** The seen GSMs are those of the rows of the current contiguous run. */
  lemma {:induction false} RunGsmsIff(rows: seq<Row>, i: nat, g: string)
    requires 0 < i <= |rows|
    ensures g in RunGsms(rows, i) <==> exists j :: 0 <= j < i && rows[j].1 == g && SameRun(rows, j, i - 1)
  {
    var e := i - 1;
    assert SameRun(rows, e, e);
    if i == 1 || rows[i - 2].0 != rows[e].0 {
      forall j | 0 <= j < e ensures !SameRun(rows, j, e) {
        assert rows[e - 1].0 != rows[e].0;
      }
    } else {
      RunGsmsIff(rows, e, g);
      if g in RunGsms(rows, e) {
        var j :| 0 <= j < e && rows[j].1 == g && SameRun(rows, j, e - 1);
        assert SameRun(rows, j, e);
      }
      forall j | 0 <= j < e && rows[j].1 == g && SameRun(rows, j, e)
        ensures g in RunGsms(rows, e)
      {
        assert SameRun(rows, j, e - 1);
      }
    }
  }

  /** A row is reported iff an earlier row of the same contiguous run of its GSE has
      the same GSM: the first occurrence of a GSM in a run is never reported, every
      later one is. */
  lemma DuplicateIff(rows: seq<Row>, i: nat)
    requires i < |rows|
    ensures IsDuplicate(rows, i) <==> exists j :: 0 <= j < i && rows[j].1 == rows[i].1 && SameRun(rows, j, i)
  {
    if i > 0 {
      RunGsmsIff(rows, i, rows[i].1);
      if rows[i - 1].0 == rows[i].0 {
        forall j | 0 <= j < i ensures SameRun(rows, j, i) <==> SameRun(rows, j, i - 1) {
        }
      } else {
        forall j | 0 <= j < i ensures !SameRun(rows, j, i) {
          assert rows[i - 1].0 != rows[i].0;
        }
      }
    }
  }

  /** The indices of the reported rows among the first `n`, in row order. */
  function DuplicateIndices(rows: seq<Row>, n: nat): (r: seq<nat>)
    requires n <= |rows|
    ensures forall k :: 0 <= k < |r| ==> r[k] < n
  {
    if n == 0 then []
    else DuplicateIndices(rows, n - 1) + (if IsDuplicate(rows, n - 1) then [n - 1] else [])
  }

  predicate Increasing(s: seq<nat>)
  {
    forall a, b :: 0 <= a < b < |s| ==> s[a] < s[b]
  }

  /** The report lists, one by one, the rows at the duplicate indices. */
  lemma {:induction false} ReportsAtIndices(rows: seq<Row>, n: nat)
    requires n <= |rows|
    ensures var r := ReportsUpTo(rows, n);
      var idx := DuplicateIndices(rows, n);
      |r| == |idx| && forall k :: 0 <= k < |idx| ==> r[k] == rows[idx[k]]
  {
    if n > 0 {
      ReportsAtIndices(rows, n - 1);
    }
  }

  /** The duplicate indices come in increasing row order. */
  lemma {:induction false} DuplicateIndicesIncrease(rows: seq<Row>, n: nat)
    requires n <= |rows|
    ensures Increasing(DuplicateIndices(rows, n))
  {
    if n > 0 {
      DuplicateIndicesIncrease(rows, n - 1);
      var prev := DuplicateIndices(rows, n - 1);
      var r := DuplicateIndices(rows, n);
      assert r == prev + (if IsDuplicate(rows, n - 1) then [n - 1] else []);
      forall a, b | 0 <= a < b < |r| ensures r[a] < r[b] {
        assert r[a] == prev[a];
        if b >= |prev| {
          assert prev[a] < n - 1 && r[b] == n - 1;
        } else {
          assert r[b] == prev[b];
        }
      }
    }
  }

  /** The duplicate indices are exactly the duplicate rows. */
  lemma {:induction false} DuplicateIndicesMembers(rows: seq<Row>, n: nat)
    requires n <= |rows|
    ensures forall i: nat :: i in DuplicateIndices(rows, n) <==> i < n && IsDuplicate(rows, i)
  {
    if n > 0 {
      DuplicateIndicesMembers(rows, n - 1);
      var prev := DuplicateIndices(rows, n - 1);
      var last := if IsDuplicate(rows, n - 1) then [n - 1] else [];
      assert forall i: nat :: i in prev + last <==> i in prev || i in last;
    }
  }

  /** Nothing is reported, and the script exits normally, iff no row is a duplicate. */
  lemma {:induction false} NoReportsIff(rows: seq<Row>, n: nat)
    requires n <= |rows|
    ensures ReportsUpTo(rows, n) == [] <==> forall i :: 0 <= i < n ==> !IsDuplicate(rows, i)
  {
    if n > 0 {
      NoReportsIff(rows, n - 1);
    }
  }

  /** A row whose GSE differs from the row before it starts a new run, and its GSM is
      not reported, whatever came before. */
  lemma GseChangeResets(rows: seq<Row>, i: nat)
    requires i < |rows| && (i == 0 || rows[i - 1].0 != rows[i].0)
    ensures !IsDuplicate(rows, i) && RunGsms(rows, i + 1) == {rows[i].1}
  {
  }

  /** A GSM repeated in two separate runs of one GSE is not reported. */
  lemma SplitRunIsMissed()
    ensures Reports([("GSE1", "GSM1"), ("GSE2", "GSM2"), ("GSE1", "GSM1")]) == []
  {
    var rows := [("GSE1", "GSM1"), ("GSE2", "GSM2"), ("GSE1", "GSM1")];
    NoReportsIff(rows, 3);
  }

  /** A GSM three times in one run is reported twice, for the second and third rows. */
  lemma RepeatsInRunAreReported()
    ensures Reports([("GSE1", "GSM1"), ("GSE1", "GSM1"), ("GSE1", "GSM1")]) == [("GSE1", "GSM1"), ("GSE1", "GSM1")]
  {
    var rows := [("GSE1", "GSM1"), ("GSE1", "GSM1"), ("GSE1", "GSM1")];
    assert RunGsms(rows, 1) == {"GSM1"} && RunGsms(rows, 2) == {"GSM1"};
    assert IsDuplicate(rows, 1) && IsDuplicate(rows, 2);
    assert ReportsUpTo(rows, 1) == [];
    assert ReportsUpTo(rows, 2) == [rows[1]];
    assert ReportsUpTo(rows, 3) == [rows[1], rows[2]];
  }
}
