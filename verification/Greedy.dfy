/**
  * The arithmetic behind schedule(): a queue of demands is dealt out to groups of `tot` slots, each
  * demand to the first least loaded group, and refused when it does not fit there.
  */
module Greedy {

  datatype Filled = Filled(loads: seq<int>, placed: seq<nat>, refused: seq<nat>)

  /** Index of the first least load. */
  function Lowest(loads: seq<int>): (k: nat)
    requires loads != []
    ensures k < |loads|
    ensures forall j | 0 <= j < |loads| :: loads[k] <= loads[j]
    ensures forall j | 0 <= j < k :: loads[k] < loads[j]
  {
    if |loads| == 1 then 0 else
    var k := Lowest(loads[..|loads| - 1]);
    if loads[|loads| - 1] < loads[k] then |loads| - 1 else k
  }

  function Fill(loads: seq<int>, ds: seq<nat>, tot: nat): (f: Filled)
    requires loads != []
    ensures |f.loads| == |loads|
    decreases |ds|
  {
    if ds == [] then Filled(loads, [], []) else
    var k := Lowest(loads);
    if loads[k] + ds[0] <= tot then
      var f := Fill(loads[k := loads[k] + ds[0]], ds[1..], tot);
      f.(placed := [ds[0]] + f.placed)
    else
      var f := Fill(loads, ds[1..], tot);
      f.(refused := [ds[0]] + f.refused)
  }

  function Sum(s: seq<int>): int {
    if s == [] then 0 else s[0] + Sum(s[1..])
  }

  lemma {:induction false} SumUpdate(s: seq<int>, k: nat, x: int)
    requires k < |s|
    ensures Sum(s[k := x]) == Sum(s) - s[k] + x
  {
    if k == 0 {
      assert s[0 := x][1..] == s[1..];
    } else {
      assert s[k := x][1..] == s[1..][k - 1 := x];
      SumUpdate(s[1..], k - 1, x);
    }
  }

  lemma {:induction false} SumAtMost(s: seq<int>, hi: int)
    requires forall k | 0 <= k < |s| :: s[k] <= hi
    ensures Sum(s) <= |s| * hi
  {
    if s != [] { SumAtMost(s[1..], hi); }
  }

  lemma {:induction false} SumNone(s: seq<nat>)
    requires forall i | 0 <= i < |s| :: s[i] >= 1
    ensures Sum(s) >= 0
    ensures Sum(s) == 0 <==> s == []
  {
    if s != [] {
      SumNone(s[1..]);
    }
  }

  lemma {:induction false} SumCons(x: int, s: seq<int>)
    ensures Sum([x] + s) == x + Sum(s)
  {
    assert ([x] + s)[1..] == s;
  }

  // ---------------------------------------------------------------- any demands

  lemma {:induction false} FillSums(loads: seq<int>, ds: seq<nat>, tot: nat)
    requires loads != []
    ensures var f := Fill(loads, ds, tot);
            Sum(f.loads) == Sum(loads) + Sum(f.placed) && Sum(ds) == Sum(f.placed) + Sum(f.refused)
    decreases |ds|
  {
    hide Fill, Lowest, Sum;
    FillUnfolds(loads, ds, tot);
    if ds == [] {
      SumOfNothing();
    } else {
      var k := Lowest(loads);
      var next := if loads[k] + ds[0] <= tot then loads[k := loads[k] + ds[0]] else loads;
      FillSums(next, ds[1..], tot);
      SumUpdate(loads, k, loads[k] + ds[0]);
      var f := Fill(next, ds[1..], tot);
      SumCons(ds[0], f.placed);
      SumCons(ds[0], f.refused);
      SumCons(ds[0], ds[1..]);
      assert ds == [ds[0]] + ds[1..];
    }
  }

  lemma {:induction false} SumOfNothing()
    ensures Sum([]) == 0
  {
  }

  /** The first demand is placed or refused, and then the rest is dealt out. */
  lemma {:induction false} FillUnfolds(loads: seq<int>, ds: seq<nat>, tot: nat)
    requires loads != []
    ensures ds == [] ==> Fill(loads, ds, tot) == Filled(loads, [], [])
    ensures ds != [] ==>
              var k := Lowest(loads);
              var ok := loads[k] + ds[0] <= tot;
              var f := Fill(if ok then loads[k := loads[k] + ds[0]] else loads, ds[1..], tot);
              Fill(loads, ds, tot) == if ok then f.(placed := [ds[0]] + f.placed) else f.(refused := [ds[0]] + f.refused)
  {
    hide Lowest;
  }

  lemma {:induction false} FillGrows(loads: seq<int>, ds: seq<nat>, tot: nat)
    requires loads != [] && forall k | 0 <= k < |loads| :: loads[k] <= tot
    ensures forall k | 0 <= k < |loads| :: loads[k] <= Fill(loads, ds, tot).loads[k] <= tot
    decreases |ds|
  {
    if ds != [] {
      var k := Lowest(loads);
      FillGrows(if loads[k] + ds[0] <= tot then loads[k := loads[k] + ds[0]] else loads, ds[1..], tot);
    }
  }

  /** Nothing is lost: every demand is placed or refused, the loads grow by exactly the placed
      demands, and neither shrink nor pass the size of a group. */
  lemma {:induction false} FillConserves(loads: seq<int>, ds: seq<nat>, tot: nat)
    requires loads != [] && forall k | 0 <= k < |loads| :: loads[k] <= tot
    ensures var f := Fill(loads, ds, tot);
            && Sum(f.loads) == Sum(loads) + Sum(f.placed)
            && Sum(ds) == Sum(f.placed) + Sum(f.refused)
            && forall k | 0 <= k < |loads| :: loads[k] <= f.loads[k] <= tot
  {
    FillSums(loads, ds, tot);
    FillGrows(loads, ds, tot);
  }

  /** Some group has `d` slots left. */
  ghost predicate HasRoom(loads: seq<int>, tot: nat, d: nat) {
    exists j :: 0 <= j < |loads| && loads[j] + d <= tot
  }

  /** The least loaded group decides: a demand is refused exactly when it fits nowhere. */
  lemma {:induction false} LowestDecides(loads: seq<int>, tot: nat, d: nat)
    requires loads != []
    ensures HasRoom(loads, tot, d) <==> loads[Lowest(loads)] + d <= tot
  {
  }

  /** Greedy is never wrong: what was refused fits into no group, not even at the end of the run. */
  lemma {:induction false} RefusedHasNoRoom(loads: seq<int>, ds: seq<nat>, tot: nat, d: nat)
    requires loads != [] && forall k | 0 <= k < |loads| :: loads[k] <= tot
    requires d in Fill(loads, ds, tot).refused
    ensures !HasRoom(Fill(loads, ds, tot).loads, tot, d)
    decreases |ds|
  {
    hide Fill, Lowest, Sum;
    FillUnfolds(loads, ds, tot);
    var k := Lowest(loads);
    var fits := loads[k] + ds[0] <= tot;
    var next := if fits then loads[k := loads[k] + ds[0]] else loads;
    FillGrows(next, ds[1..], tot);
    if d in Fill(next, ds[1..], tot).refused {
      RefusedHasNoRoom(next, ds[1..], tot, d);
    }
  }

  ghost predicate Spread(loads: seq<int>, d: nat) {
    forall i, j | 0 <= i < |loads| && 0 <= j < |loads| :: loads[i] - loads[j] <= d
  }

  lemma {:induction false} SpreadStep(loads: seq<int>, k: nat, x: nat, d: nat)
    requires k < |loads| && Spread(loads, d) && x <= d && forall j | 0 <= j < |loads| :: loads[k] <= loads[j]
    ensures Spread(loads[k := loads[k] + x], d)
  {
  }

  /** Greedy balances: the loads never drift apart by more than the largest demand placed. */
  lemma {:induction false} FillSpread(loads: seq<int>, ds: seq<nat>, tot: nat, d: nat)
    requires loads != [] && Spread(loads, d)
    requires forall x | x in Fill(loads, ds, tot).placed :: x <= d
    ensures Spread(Fill(loads, ds, tot).loads, d)
    decreases |ds|
  {
    if ds != [] {
      var k := Lowest(loads);
      if loads[k] + ds[0] <= tot {
        var next := loads[k := loads[k] + ds[0]];
        var f := Fill(next, ds[1..], tot);
        assert Fill(loads, ds, tot).placed == [ds[0]] + f.placed;
        assert ds[0] in [ds[0]] + f.placed && forall x | x in f.placed :: x in [ds[0]] + f.placed;
        SpreadStep(loads, k, ds[0], d);
        FillSpread(next, ds[1..], tot, d);
      } else {
        FillSpread(loads, ds[1..], tot, d);
      }
    }
  }

  // ---------------------------------------------------------------- demands that divide each other

  function Times(m: int, d: int): int {
    m * d
  }

  ghost predicate Divides(d: int, a: int) {
    exists m :: Times(m, d) == a
  }

  /** Every demand divides the size of a group and all demands before it. */
  ghost predicate Chain(ds: seq<nat>, tot: nat) {
    ds != [] ==>
    && ds[0] >= 1 && Divides(ds[0], tot)
    && (forall x | x in ds[1..] :: Divides(x, ds[0]))
    && Chain(ds[1..], tot)
  }

  ghost predicate Multiples(loads: seq<int>, d: nat) {
    forall k | 0 <= k < |loads| :: Divides(d, loads[k])
  }

  lemma {:induction false} DividesSum(d: int, a: int, b: int)
    requires Divides(d, a) && Divides(d, b)
    ensures Divides(d, a + b)
  {
    var p :| Times(p, d) == a;
    var q :| Times(q, d) == b;
    assert Times(p + q, d) == a + b;
  }

  lemma {:induction false} DividesTrans(x: int, d: int, a: int)
    requires Divides(x, d) && Divides(d, a)
    ensures Divides(x, a)
  {
    var p :| Times(p, x) == d;
    var q :| Times(q, d) == a;
    assert Times(q * p, x) == q * (p * x) == a;
  }

  lemma {:induction false} DividesRefl(d: int)
    ensures Divides(d, d) && Divides(d, 0)
  {
    assert Times(1, d) == d && Times(0, d) == 0;
  }

  lemma {:induction false} FullMultiple(a: int, t: nat, d: nat)
    requires d >= 1 && Divides(d, a) && Divides(d, t) && a <= t < a + d
    ensures a == t
  {
    var p :| Times(p, d) == a;
    var q :| Times(q, d) == t;
    assert (q - p) * d == t - a;
    Between(q - p, d);
  }

  lemma {:induction false} Between(n: int, d: nat)
    requires d >= 1
    ensures n * d <= 0 || n * d >= d
  {
  }

  lemma {:induction false} AddKeepsMultiples(loads: seq<int>, k: nat, d: nat)
    requires k < |loads| && Multiples(loads, d)
    ensures Multiples(loads[k := loads[k] + d], d)
  {
    DividesRefl(d);
    DividesSum(d, loads[k], d);
  }

  lemma {:induction false} FinerMultiples(loads: seq<int>, d: nat, x: nat)
    requires Multiples(loads, d) && Divides(x, d)
    ensures Multiples(loads, x)
  {
    forall k | 0 <= k < |loads| ensures Divides(x, loads[k]) { DividesTrans(x, d, loads[k]); }
  }

  /** Loads stay multiples of the demand at hand, so a refusal means that every group is full. */
  lemma {:induction false} ChainRun(loads: seq<int>, ds: seq<nat>, tot: nat)
    requires loads != [] && forall k | 0 <= k < |loads| :: loads[k] <= tot
    requires Chain(ds, tot) && (ds != [] ==> Multiples(loads, ds[0]))
    ensures Fill(loads, ds, tot).refused == []
            || forall k | 0 <= k < |loads| :: Fill(loads, ds, tot).loads[k] == tot
    decreases |ds|
  {
    if ds != [] {
      var k, d, rest := Lowest(loads), ds[0], ds[1..];
      if loads[k] + d <= tot {
        var next := loads[k := loads[k] + d];
        AddKeepsMultiples(loads, k, d);
        if rest != [] { FinerMultiples(next, d, rest[0]); }
        ChainRun(next, rest, tot);
      } else {
        FillConserves(loads, rest, tot);
        forall j | 0 <= j < |loads| ensures loads[j] == tot { FullMultiple(loads[j], tot, d); }
      }
    }
  }

  lemma {:induction false} RefusedAreDemands(loads: seq<int>, ds: seq<nat>, tot: nat, d: nat)
    requires loads != [] && d in Fill(loads, ds, tot).refused
    ensures d in ds
    decreases |ds|
  {
    var k := Lowest(loads);
    var next := if loads[k] + ds[0] <= tot then loads[k := loads[k] + ds[0]] else loads;
    if d in Fill(next, ds[1..], tot).refused { RefusedAreDemands(next, ds[1..], tot, d); }
  }

  function Min(a: int, b: int): int {
    if a < b then a else b
  }

  /** Perfect utilisation: from empty groups, a dividing chain of demands fills the groups up to the
      last slot before anything is refused. */
  lemma {:induction false} ChainFills(loads: seq<int>, ds: seq<nat>, tot: nat)
    requires loads != [] && forall k | 0 <= k < |loads| :: loads[k] == 0
    requires Chain(ds, tot) && forall d | d in ds :: d >= 1
    ensures Sum(Fill(loads, ds, tot).loads) == Min(Sum(ds), |loads| * tot)
    ensures Fill(loads, ds, tot).refused == [] <==> Sum(ds) <= |loads| * tot
  {
    var f := Fill(loads, ds, tot);
    FillConserves(loads, ds, tot);
    RefusedPositive(loads, ds, tot);
    AllZero(loads);
    if ds != [] { DividesRefl(ds[0]); }
    ChainRun(loads, ds, tot);
    if f.refused == [] {
      SumAtMost(f.loads, tot);
    } else {
      AllFull(f.loads, tot);
    }
  }

  lemma {:induction false} AllZero(s: seq<int>)
    requires forall k | 0 <= k < |s| :: s[k] == 0
    ensures Sum(s) == 0
  {
    if s != [] { AllZero(s[1..]); }
  }

  lemma {:induction false} AllFull(s: seq<int>, tot: nat)
    requires forall k | 0 <= k < |s| :: s[k] == tot
    ensures Sum(s) == |s| * tot
  {
    if s != [] { AllFull(s[1..], tot); }
  }

  lemma {:induction false} RefusedPositive(loads: seq<int>, ds: seq<nat>, tot: nat)
    requires loads != [] && forall d | d in ds :: d >= 1
    ensures Sum(Fill(loads, ds, tot).refused) >= 0
    ensures Sum(Fill(loads, ds, tot).refused) == 0 <==> Fill(loads, ds, tot).refused == []
  {
    var f := Fill(loads, ds, tot);
    forall i | 0 <= i < |f.refused| ensures f.refused[i] >= 1 { RefusedAreDemands(loads, ds, tot, f.refused[i]); }
    SumNone(f.refused);
  }
}
