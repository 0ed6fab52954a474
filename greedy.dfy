/** The first-fit scan both admission passes share: walk the candidates in order,
    skip the ineligible ones, admit an eligible one when its cost fits what is left
    of the budget, take its cost off the budget, and go on to the next candidate
    either way. The transfer pass admits only a cost strictly below what is left;
    the local processing pass also admits a cost equal to it. */
module Greedy {
  import opened Common

  /** A cost fits what is left of the budget: strictly below it, or at most it. */
  predicate Fits(cost: real, left: real, strict: bool)
  {
    if strict then cost < left else cost <= left
  }

  /** The summed cost of the candidates. */
  function Total<T>(xs: seq<T>, cost: T -> real): real
  {
    if xs == [] then 0.0 else cost(xs[0]) + Total(xs[1..], cost)
  }

  /** Costs that are not negative sum to a total that is not negative. */
  lemma {:induction false} TotalNonNegative<T>(xs: seq<T>, cost: T -> real)
    requires forall x <- xs :: cost(x) >= 0.0
    ensures Total(xs, cost) >= 0.0
  {
    if xs != [] {
      assert xs[0] in xs;
      assert forall x <- xs[1..] :: x in xs;
      TotalNonNegative(xs[1..], cost);
    }
  }

  /** The candidates the scan admits, in order. */
  function Admit<T>(xs: seq<T>, eligible: T -> bool, cost: T -> real, budget: real, strict: bool): seq<T>
  {
    if xs == [] then []
    else if eligible(xs[0]) && Fits(cost(xs[0]), budget, strict) then
      [xs[0]] + Admit(xs[1..], eligible, cost, budget - cost(xs[0]), strict)
    else
      Admit(xs[1..], eligible, cost, budget, strict)
  }

  /** The scan is sound: it admits candidates of the input, in input order, only
      eligible ones, and their summed cost fits the initial budget. */
  lemma {:induction false} AdmitSound<T>(xs: seq<T>, eligible: T -> bool, cost: T -> real, budget: real, strict: bool)
    ensures var a := Admit(xs, eligible, cost, budget, strict);
      && IsSubsequence(a, xs)
      && (forall x <- a :: eligible(x))
      && (a != [] ==> Fits(Total(a, cost), budget, strict))
  {
    if xs != [] {
      var x := xs[0];
      if eligible(x) && Fits(cost(x), budget, strict) {
        var rest := Admit(xs[1..], eligible, cost, budget - cost(x), strict);
        AdmitSound(xs[1..], eligible, cost, budget - cost(x), strict);
        assert ([x] + rest)[0] == x && ([x] + rest)[1..] == rest;
      } else {
        AdmitSound(xs[1..], eligible, cost, budget, strict);
      }
    }
  }

  /** The scan is greedy to the end: with costs that are not negative, an eligible
      candidate it leaves out does not fit what the admitted ones leave of the budget. */
  lemma {:induction false} AdmitLeavesNoFit<T>(xs: seq<T>, eligible: T -> bool, cost: T -> real, budget: real, strict: bool, x: T)
    requires forall y <- xs :: cost(y) >= 0.0
    requires x in xs && eligible(x) && x !in Admit(xs, eligible, cost, budget, strict)
    ensures !Fits(cost(x), budget - Total(Admit(xs, eligible, cost, budget, strict), cost), strict)
  {
    var x0 := xs[0];
    var a := Admit(xs, eligible, cost, budget, strict);
    assert forall y <- xs[1..] :: y in xs;
    if eligible(x0) && Fits(cost(x0), budget, strict) {
      var rest := Admit(xs[1..], eligible, cost, budget - cost(x0), strict);
      assert a == [x0] + rest;
      if x == x0 {
        assert false;
      }
      assert x in xs[1..];
      AdmitLeavesNoFit(xs[1..], eligible, cost, budget - cost(x0), strict, x);
      assert Total(a, cost) == cost(x0) + Total(rest, cost) by {
        assert a[0] == x0 && a[1..] == rest;
      }
    } else {
      var rest := Admit(xs[1..], eligible, cost, budget, strict);
      assert a == rest;
      AdmitSound(xs[1..], eligible, cost, budget, strict);
      SubsequenceMembers(rest, xs[1..]);
      TotalNonNegative(rest, cost);
      if x != x0 {
        assert x in xs[1..];
        AdmitLeavesNoFit(xs[1..], eligible, cost, budget, strict, x);
      }
    }
  }

  /** With costs that are not negative, a budget nothing can fit admits nothing. */
  lemma NothingFitsNoBudget<T>(xs: seq<T>, eligible: T -> bool, cost: T -> real, budget: real, strict: bool)
    requires forall x <- xs :: cost(x) >= 0.0
    requires budget < 0.0 || (strict && budget <= 0.0)
    ensures Admit(xs, eligible, cost, budget, strict) == []
  {
    var a := Admit(xs, eligible, cost, budget, strict);
    AdmitSound(xs, eligible, cost, budget, strict);
    SubsequenceMembers(a, xs);
    TotalNonNegative(a, cost);
  }

  /** Without an eligible candidate the scan admits nothing, whatever the budget. */
  lemma {:induction false} NoneEligibleAdmitsNothing<T>(xs: seq<T>, eligible: T -> bool, cost: T -> real, budget: real, strict: bool)
    requires forall x <- xs :: !eligible(x)
    ensures Admit(xs, eligible, cost, budget, strict) == []
  {
    if xs != [] {
      assert xs[0] in xs;
      assert forall x <- xs[1..] :: x in xs;
      NoneEligibleAdmitsNothing(xs[1..], eligible, cost, budget, strict);
    }
  }

  /** One step of a loop that runs the scan from position `i` on. */
  lemma AdmitStep<T>(xs: seq<T>, i: nat, eligible: T -> bool, cost: T -> real, left: real, strict: bool)
    requires i < |xs|
    ensures Admit(xs[i..], eligible, cost, left, strict)
         == if eligible(xs[i]) && Fits(cost(xs[i]), left, strict)
            then [xs[i]] + Admit(xs[i + 1..], eligible, cost, left - cost(xs[i]), strict)
            else Admit(xs[i + 1..], eligible, cost, left, strict)
  {
    assert xs[i..][0] == xs[i] && xs[i..][1..] == xs[i + 1..];
  }

  lemma {:induction false} TotalSnoc<T>(xs: seq<T>, x: T, cost: T -> real)
    ensures Total(xs + [x], cost) == Total(xs, cost) + cost(x)
  {
    if xs == [] {
      assert xs + [x] == [x];
      assert [x][1..] == [];
    } else {
      assert (xs + [x])[1..] == xs[1..] + [x];
      TotalSnoc(xs[1..], x, cost);
    }
  }

  /** The scan over a longer input extends the scan over its prefix: the next
      candidate is weighed against what the prefix's admissions leave of the budget. */
  lemma {:induction false} AdmitSnoc<T>(xs: seq<T>, x: T, eligible: T -> bool, cost: T -> real, budget: real, strict: bool)
    ensures var a := Admit(xs, eligible, cost, budget, strict);
      Admit(xs + [x], eligible, cost, budget, strict)
      == a + (if eligible(x) && Fits(cost(x), budget - Total(a, cost), strict) then [x] else [])
  {
    if xs == [] {
      assert xs + [x] == [x];
      assert [x][1..] == [];
    } else {
      var y := xs[0];
      assert (xs + [x])[0] == y && (xs + [x])[1..] == xs[1..] + [x];
      if eligible(y) && Fits(cost(y), budget, strict) {
        var left := budget - cost(y);
        var rest := Admit(xs[1..], eligible, cost, left, strict);
        AdmitSnoc(xs[1..], x, eligible, cost, left, strict);
        assert ([y] + rest)[0] == y && ([y] + rest)[1..] == rest;
        assert Total([y] + rest, cost) == cost(y) + Total(rest, cost);
      } else {
        AdmitSnoc(xs[1..], x, eligible, cost, budget, strict);
      }
    }
  }

  /** One step of a loop that runs the scan over a growing prefix, keeping the
      admitted candidates and what is left of the budget: `w` is the weight of the
      next candidate, None when it is not eligible. */
  lemma AdmitPrefixStep<T>(xs: seq<T>, i: nat, eligible: T -> bool, cost: T -> real, budget: real, strict: bool,
                           admitted: seq<T>, left: real, w: Option<real>)
    requires i < |xs|
    requires admitted == Admit(xs[..i], eligible, cost, budget, strict)
    requires left == budget - Total(admitted, cost)
    requires w.Some? == eligible(xs[i]) && (w.Some? ==> w.value == cost(xs[i]))
    ensures var b := Admit(xs[..i + 1], eligible, cost, budget, strict);
      if w.Some? && Fits(w.value, left, strict)
      then b == admitted + [xs[i]] && budget - Total(b, cost) == left - w.value
      else b == admitted
  {
    assert xs[..i + 1] == xs[..i] + [xs[i]];
    AdmitSnoc(xs[..i], xs[i], eligible, cost, budget, strict);
    TotalSnoc(admitted, xs[i], cost);
    assert admitted + [] == admitted;
  }

  /** Under the strict test a candidate whose cost equals the whole budget is
      rejected, and the scan still admits a later one that fits. */
  lemma StrictRejectsExactFit<T>(eligible: T -> bool, cost: T -> real, x1: T, x2: T)
    requires eligible(x1) && eligible(x2) && cost(x1) == 600.0 && cost(x2) == 10.0
    ensures Admit([x1, x2], eligible, cost, 600.0, true) == [x2]
  {
    assert [x1, x2][1..] == [x2];
    assert [x2][1..] == [];
    assert Admit([x2], eligible, cost, 600.0, true) == [x2] + Admit([], eligible, cost, 590.0, true);
  }

  /** The scan walks past a rejection: costs 500, 50, 2000 and 10 against a budget of
      600 admit the first, the second and the fourth. */
  lemma ScanPastRejection<T>(eligible: T -> bool, cost: T -> real, x1: T, x2: T, x3: T, x4: T)
    requires eligible(x1) && eligible(x2) && eligible(x3) && eligible(x4)
    requires cost(x1) == 500.0 && cost(x2) == 50.0 && cost(x3) == 2000.0 && cost(x4) == 10.0
    ensures Admit([x1, x2, x3, x4], eligible, cost, 600.0, true) == [x1, x2, x4]
  {
    var s := [x1, x2, x3, x4];
    assert s[1..] == [x2, x3, x4] && s[1..][1..] == [x3, x4] && s[1..][1..][1..] == [x4];
    assert [x4][1..] == [];
    assert Admit([x4], eligible, cost, 50.0, true) == [x4] + Admit([], eligible, cost, 40.0, true);
    assert Admit([x3, x4], eligible, cost, 50.0, true) == Admit([x4], eligible, cost, 50.0, true);
    assert Admit([x2, x3, x4], eligible, cost, 100.0, true) == [x2] + Admit([x3, x4], eligible, cost, 50.0, true);
    assert Admit(s, eligible, cost, 600.0, true) == [x1] + Admit([x2, x3, x4], eligible, cost, 100.0, true);
  }

  /** Under the test that admits an exact fit, two candidates of 513 against a budget
      of 1024 admit only the first: the second no longer fits what is left. */
  lemma FirstFitOnlyOnce<T>(eligible: T -> bool, cost: T -> real, x1: T, x2: T)
    requires eligible(x1) && eligible(x2) && cost(x1) == 513.0 && cost(x2) == 513.0
    ensures Admit([x1, x2], eligible, cost, 1024.0, false) == [x1]
  {
    assert [x1, x2][1..] == [x2];
    assert [x2][1..] == [];
    assert Admit([x2], eligible, cost, 511.0, false) == Admit([], eligible, cost, 511.0, false);
    assert Admit([x1, x2], eligible, cost, 1024.0, false) == [x1] + Admit([x2], eligible, cost, 511.0, false);
  }

  /** Under the test that admits an exact fit, costs 1.5e9, 3e9 and 7.5e8 against a
      budget of 3e9 admit the first and the third. */
  lemma FirstFitSkipsTooLarge<T>(eligible: T -> bool, cost: T -> real, a: T, b: T, c: T)
    requires eligible(a) && eligible(b) && eligible(c)
    requires cost(a) == 1500000000.0 && cost(b) == 3000000000.0 && cost(c) == 750000000.0
    ensures Admit([a, b, c], eligible, cost, 3000000000.0, false) == [a, c]
  {
    var s := [a, b, c];
    assert s[1..] == [b, c] && s[1..][1..] == [c] && [c][1..] == [];
    assert Admit([c], eligible, cost, 1500000000.0, false) == [c] + Admit([], eligible, cost, 750000000.0, false);
    assert Admit([b, c], eligible, cost, 1500000000.0, false) == Admit([c], eligible, cost, 1500000000.0, false);
    assert Admit(s, eligible, cost, 3000000000.0, false) == [a] + Admit([b, c], eligible, cost, 1500000000.0, false);
  }
}
