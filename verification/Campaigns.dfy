/** Three campaigns under one spending limit: the belt that clamps every leg to what
    is left, the belt that is only looked at between legs, and the felt leg that
    treats a cost it cannot resolve as everything that is left. */
module Campaigns {
  import opened Wrappers

  /** How a leg ends. A leg that throws reports no spend, whatever it cost. */
  datatype Leg = Completed(spendUsd: real) | Failed(costUsd: real)

  /** What running the `i`-th leg with a cap does. */
  type Runner = (nat, real) -> Leg

  /** A leg of the campaign: its cluster, its own cap, and whether this run is restricted to others. */
  datatype Plan = Plan(clusterId: string, capUsd: real, excluded: bool)

  /** No leg costs more than the cap it is handed, and none earns money. */
  ghost predicate Obeys(run: Runner) {
    forall i, cap :: 0.0 <= Cost(run(i, cap)) && (cap >= 0.0 ==> Cost(run(i, cap)) <= cap)
  }

  function Cost(leg: Leg): real {
    match leg
    case Completed(spend) => spend
    case Failed(cost) => cost
  }

  function Reported(leg: Leg): real {
    if leg.Completed? then leg.spendUsd else 0.0
  }

  function Min(a: real, b: real): real {
    if a <= b then a else b
  }

  /** A leg that ran: its index, the cap it was handed and how it ended. */
  datatype Ran = Ran(index: nat, capUsd: real, leg: Leg)

  function Cumulative(ran: seq<Ran>): real {
    if ran == [] then 0.0 else Cumulative(ran[..|ran| - 1]) + Reported(ran[|ran| - 1].leg)
  }

  /** Money that left the account in legs that reported nothing. */
  function Unreported(ran: seq<Ran>): real {
    if ran == [] then 0.0
    else Unreported(ran[..|ran| - 1]) + Cost(ran[|ran| - 1].leg) - Reported(ran[|ran| - 1].leg)
  }

  function Actual(ran: seq<Ran>): real {
    if ran == [] then 0.0 else Actual(ran[..|ran| - 1]) + Cost(ran[|ran| - 1].leg)
  }

  lemma {:induction false} ActualIsReportedPlusUnreported(ran: seq<Ran>)
    ensures Actual(ran) == Cumulative(ran) + Unreported(ran)
    decreases |ran|
  {
    if ran != [] {
      ActualIsReportedPlusUnreported(ran[..|ran| - 1]);
    }
  }

  lemma Grown(ran: seq<Ran>, r: Ran)
    ensures Cumulative(ran + [r]) == Cumulative(ran) + Reported(r.leg)
    ensures Unreported(ran + [r]) == Unreported(ran) + Cost(r.leg) - Reported(r.leg)
  {
    assert (ran + [r])[..|ran|] == ran;
  }

  /** The `k`-th leg that ran was due, and was handed its own cap or, if `clamped`, what was left of the belt. */
  ghost predicate IsRan(plan: seq<Plan>, belt: real, run: Runner, clamped: bool, ran: seq<Ran>, k: nat)
    requires k < |ran|
  {
    var before := Cumulative(ran[..k]);
    && ran[k].index < |plan| && !plan[ran[k].index].excluded
    && before < belt
    && ran[k].capUsd == (if clamped && plan[ran[k].index].capUsd > belt - before then belt - before else plan[ran[k].index].capUsd)
    && ran[k].leg == run(ran[k].index, ran[k].capUsd)
  }

  lemma RanStands(plan: seq<Plan>, belt: real, run: Runner, clamped: bool, ran: seq<Ran>, more: Ran, k: nat)
    requires k < |ran| && IsRan(plan, belt, run, clamped, ran, k)
    ensures IsRan(plan, belt, run, clamped, ran + [more], k)
  {
    assert (ran + [more])[..k] == ran[..k];
  }

  /** The indices of the legs that are due, in order. */
  function Due(plan: seq<Plan>): seq<nat> {
    if plan == [] then []
    else Due(plan[..|plan| - 1]) + if plan[|plan| - 1].excluded then [] else [|plan| - 1]
  }

  /** The due legs are those that are not excluded, in the order of the plan. */
  lemma {:induction false} DueAre(plan: seq<Plan>)
    ensures forall k, l :: 0 <= k < l < |Due(plan)| ==> Due(plan)[k] < Due(plan)[l]
    ensures forall i: nat :: i in Due(plan) <==> i < |plan| && !plan[i].excluded
    decreases |plan|
  {
    if plan != [] {
      var n, due := |plan| - 1, Due(plan[..|plan| - 1]);
      DueAre(plan[..n]);
      assert forall k :: 0 <= k < |due| ==> due[k] in due;
      assert forall i :: 0 <= i < n ==> plan[..n][i] == plan[i];
    }
  }

  function Indices(ran: seq<Ran>): (indices: seq<nat>)
    ensures |indices| == |ran|
  {
    seq(|ran|, i requires 0 <= i < |ran| => ran[i].index)
  }

  /** The due legs ran in order, each when what was reported had not reached the belt, and all of them
      unless it did. */
  ghost predicate FollowsPlan(plan: seq<Plan>, belt: real, run: Runner, clamped: bool, ran: seq<Ran>) {
    && (forall k :: 0 <= k < |ran| ==> IsRan(plan, belt, run, clamped, ran, k))
    && Indices(ran) <= Due(plan)
    && (Indices(ran) == Due(plan) || Cumulative(ran) >= belt)
  }

  /** The campaign loop; `clamped` tells the two belts apart. It runs the due legs in order, stops only
      when what was reported has reached the belt, and goes on after a failed leg. */
  method RunCampaign(plan: seq<Plan>, belt: real, run: Runner, clamped: bool)
    returns (ran: seq<Ran>, cumulative: real)
    ensures FollowsPlan(plan, belt, run, clamped, ran)
    ensures cumulative == Cumulative(ran)
  {
    NothingDue(plan);
    hide IsRan, Min, Due, Cumulative;
    ran, cumulative := [], 0.0;
    for i := 0 to |plan|
      invariant forall k :: 0 <= k < |ran| ==> IsRan(plan, belt, run, clamped, ran, k)
      invariant cumulative == Cumulative(ran)
      invariant Indices(ran) == Due(plan[..i])
    {
      DueNext(plan, i);
      if plan[i].excluded {
        continue;
      }
      if cumulative >= belt {
        DuePrefix(plan, i);
        return;
      }
      var legCap := if clamped then Min(plan[i].capUsd, belt - cumulative) else plan[i].capUsd;
      var leg := run(i, legCap);
      RanOneMore(plan, belt, run, clamped, ran, Ran(i, legCap, leg));
      ran := ran + [Ran(i, legCap, leg)];
      if leg.Completed? {
        cumulative := cumulative + leg.spendUsd;
      }
    }
    assert plan[..|plan|] == plan;
  }

  lemma NothingDue(plan: seq<Plan>)
    ensures Due(plan[..0]) == [] && Cumulative([]) == 0.0
  {
  }

  lemma DueNext(plan: seq<Plan>, i: nat)
    requires i < |plan|
    ensures Due(plan[..i + 1]) == if plan[i].excluded then Due(plan[..i]) else Due(plan[..i]) + [i]
  {
    assert plan[..i + 1][..i] == plan[..i];
    assert Due(plan[..i]) + [] == Due(plan[..i]);
  }

  lemma RanOneMore(plan: seq<Plan>, belt: real, run: Runner, clamped: bool, ran: seq<Ran>, r: Ran)
    requires forall k :: 0 <= k < |ran| ==> IsRan(plan, belt, run, clamped, ran, k)
    requires r.index < |plan| && !plan[r.index].excluded && Cumulative(ran) < belt
    requires r.capUsd == (if clamped then Min(plan[r.index].capUsd, belt - Cumulative(ran)) else plan[r.index].capUsd)
    requires r.leg == run(r.index, r.capUsd)
    ensures forall k :: 0 <= k < |ran| + 1 ==> IsRan(plan, belt, run, clamped, ran + [r], k)
    ensures Cumulative(ran + [r]) == Cumulative(ran) + Reported(r.leg)
    ensures Indices(ran + [r]) == Indices(ran) + [r.index]
  {
    NewRuns(plan, belt, run, clamped, ran, r);
    hide IsRan, Cumulative, Reported, Min;
    Grown(ran, r);
    forall k: nat | k < |ran| ensures IsRan(plan, belt, run, clamped, ran + [r], k) {
      RanStands(plan, belt, run, clamped, ran, r, k);
    }
  }

  lemma NewRuns(plan: seq<Plan>, belt: real, run: Runner, clamped: bool, ran: seq<Ran>, r: Ran)
    requires r.index < |plan| && !plan[r.index].excluded && Cumulative(ran) < belt
    requires r.capUsd == (if clamped then Min(plan[r.index].capUsd, belt - Cumulative(ran)) else plan[r.index].capUsd)
    requires r.leg == run(r.index, r.capUsd)
    ensures IsRan(plan, belt, run, clamped, ran + [r], |ran|)
  {
    hide Cumulative;
    assert (ran + [r])[..|ran|] == ran;
  }

  lemma {:induction false} DuePrefix(plan: seq<Plan>, i: nat)
    requires i <= |plan|
    ensures Due(plan[..i]) <= Due(plan)
    decreases |plan| - i
  {
    if i < |plan| {
      assert plan[..i + 1][..i] == plan[..i];
      DuePrefix(plan, i + 1);
    } else {
      assert plan[..i] == plan;
    }
  }

  // ----- the clamped belt -----

  /** With the clamp, what is reported never passes a non-negative belt, for every order of legs and
      every pattern of failures. */
  lemma {:induction false} ClampedStaysUnderBelt(plan: seq<Plan>, belt: real, run: Runner, ran: seq<Ran>, n: nat)
    requires belt >= 0.0 && Obeys(run) && n <= |ran|
    requires forall i :: 0 <= i < |plan| ==> plan[i].capUsd >= 0.0
    requires forall k :: 0 <= k < |ran| ==> IsRan(plan, belt, run, true, ran, k)
    ensures Cumulative(ran[..n]) <= belt
  {
    if n > 0 {
      assert ran[..n][..n - 1] == ran[..n - 1];
      assert IsRan(plan, belt, run, true, ran, n - 1);
    }
  }

  /** What actually left the account exceeds the belt by no more than the failed legs cost, which the
      loop never counts. */
  lemma ClampedActualSpend(plan: seq<Plan>, belt: real, run: Runner, ran: seq<Ran>)
    requires belt >= 0.0 && Obeys(run)
    requires forall i :: 0 <= i < |plan| ==> plan[i].capUsd >= 0.0
    requires forall k :: 0 <= k < |ran| ==> IsRan(plan, belt, run, true, ran, k)
    ensures Actual(ran) <= belt + Unreported(ran)
  {
    assert ran[..|ran|] == ran;
    ClampedStaysUnderBelt(plan, belt, run, ran, |ran|);
    ActualIsReportedPlusUnreported(ran);
  }

  /** No failed leg cost anything. */
  ghost predicate FreeFailures(ran: seq<Ran>) {
    forall k :: 0 <= k < |ran| && ran[k].leg.Failed? ==> ran[k].leg.costUsd == 0.0
  }

  lemma {:induction false} FreeFailuresLeaveNothingOut(ran: seq<Ran>)
    requires FreeFailures(ran)
    ensures Unreported(ran) == 0.0
    decreases |ran|
  {
    if ran != [] {
      FreeFailuresLeaveNothingOut(ran[..|ran| - 1]);
    }
  }

  /** So the account itself stays within the belt when the failed legs cost nothing. */
  lemma FreeFailuresStayUnderBelt(plan: seq<Plan>, belt: real, run: Runner, ran: seq<Ran>)
    requires belt >= 0.0 && IsClampedCampaign(plan, belt, run, ran) && FreeFailures(ran)
    ensures Actual(ran) <= belt
  {
    ClampedActualSpend(plan, belt, run, ran);
    FreeFailuresLeaveNothingOut(ran);
  }

  /** What the due legs of a plan cost if every one takes its whole cap, or the belt if that is less, and
      fails: nothing is reported then, so nothing is clamped away. */
  function WorstCase(plan: seq<Plan>, belt: real, indices: seq<nat>): real {
    if indices == [] then 0.0
    else WorstCase(plan, belt, indices[..|indices| - 1]) + Handed(plan, belt, indices[|indices| - 1])
  }

  function Handed(plan: seq<Plan>, belt: real, i: nat): real {
    if i < |plan| then Min(plan[i].capUsd, belt) else 0.0
  }

  lemma {:induction false} WorstCaseGrows(plan: seq<Plan>, belt: real, indices: seq<nat>, n: nat)
    requires belt > 0.0 && NoNegativeCap(plan) && n <= |indices|
    ensures WorstCase(plan, belt, indices[..n]) <= WorstCase(plan, belt, indices)
    decreases |indices| - n
  {
    if n < |indices| {
      assert indices[..n + 1][..n] == indices[..n];
      WorstCaseGrows(plan, belt, indices, n + 1);
    } else {
      assert indices[..n] == indices;
    }
  }

  lemma {:induction false} ReportedIsNotNegative(plan: seq<Plan>, belt: real, run: Runner, ran: seq<Ran>, n: nat)
    requires Obeys(run) && n <= |ran|
    requires forall k :: 0 <= k < |ran| ==> IsRan(plan, belt, run, true, ran, k)
    ensures Cumulative(ran[..n]) >= 0.0
  {
    if n > 0 {
      assert ran[..n][..n - 1] == ran[..n - 1];
      ReportedIsNotNegative(plan, belt, run, ran, n - 1);
      assert IsRan(plan, belt, run, true, ran, n - 1);
    }
  }

  /** A leg costs at most what it is handed, which is at most its cap and the belt. */
  lemma LegIsAtMostHanded(plan: seq<Plan>, belt: real, run: Runner, ran: seq<Ran>, k: nat)
    requires Obeys(run) && NoNegativeCap(plan) && k < |ran| && IsRan(plan, belt, run, true, ran, k)
    requires Cumulative(ran[..k]) >= 0.0
    ensures Cost(ran[k].leg) <= Handed(plan, belt, ran[k].index)
  {
    hide Cumulative, Cost;
  }

  lemma {:induction false} ActualIsAtMostWorstCase(plan: seq<Plan>, belt: real, run: Runner, ran: seq<Ran>, n: nat)
    requires belt > 0.0 && Obeys(run) && NoNegativeCap(plan) && n <= |ran|
    requires forall k :: 0 <= k < |ran| ==> IsRan(plan, belt, run, true, ran, k)
    ensures Actual(ran[..n]) <= WorstCase(plan, belt, Indices(ran)[..n])
  {
    if n > 0 {
      assert ran[..n][..n - 1] == ran[..n - 1] && Indices(ran)[..n][..n - 1] == Indices(ran)[..n - 1];
      hide IsRan, Obeys, Handed, Cost;
      ActualIsAtMostWorstCase(plan, belt, run, ran, n - 1);
      ReportedIsNotNegative(plan, belt, run, ran, n - 1);
      LegIsAtMostHanded(plan, belt, run, ran, n - 1);
    }
  }

  /** Every leg takes its whole cap and fails. */
  function FailAll(): Runner {
    (i: nat, cap: real) => Failed(if cap < 0.0 then 0.0 else cap)
  }

  function AllFailed(plan: seq<Plan>, belt: real, indices: seq<nat>): (ran: seq<Ran>)
    ensures |ran| == |indices|
  {
    seq(|indices|, k requires 0 <= k < |indices| =>
      Ran(indices[k], Handed(plan, belt, indices[k]), Failed(Handed(plan, belt, indices[k]))))
  }

  lemma {:induction false} AllFailedCosts(plan: seq<Plan>, belt: real, indices: seq<nat>)
    ensures Cumulative(AllFailed(plan, belt, indices)) == 0.0
    ensures Actual(AllFailed(plan, belt, indices)) == WorstCase(plan, belt, indices)
    decreases |indices|
  {
    if indices != [] {
      var front := indices[..|indices| - 1];
      var ran := AllFailed(plan, belt, indices);
      assert ran[..|ran| - 1] == AllFailed(plan, belt, front);
      AllFailedCosts(plan, belt, front);
    }
  }

  lemma {:induction false} DueAreIncluded(plan: seq<Plan>)
    ensures forall k :: 0 <= k < |Due(plan)| ==> Due(plan)[k] < |plan| && !plan[Due(plan)[k]].excluded
    decreases |plan|
  {
    if plan != [] {
      DueAreIncluded(plan[..|plan| - 1]);
    }
  }

  lemma AllFailedIsCampaign(plan: seq<Plan>, belt: real)
    requires belt > 0.0 && NoNegativeCap(plan)
    ensures IsClampedCampaign(plan, belt, FailAll(), AllFailed(plan, belt, Due(plan)))
  {
    var due := Due(plan);
    var ran := AllFailed(plan, belt, due);
    DueAreIncluded(plan);
    forall k: nat | k < |ran| ensures IsRan(plan, belt, FailAll(), true, ran, k) {
      assert ran[..k] == AllFailed(plan, belt, due[..k]);
      AllFailedCosts(plan, belt, due[..k]);
    }
    assert Indices(ran) == due;
  }

  ghost predicate AccountStaysInBelt(plan: seq<Plan>, belt: real) {
    forall run, ran :: IsClampedCampaign(plan, belt, run, ran) ==> Actual(ran) <= belt
  }

  /** The clamped belt bounds the account, and not just what is reported, exactly when the due legs at
      their caps fit it together: whatever the legs do then, and for no other plan. */
  lemma AccountStaysInBeltIff(plan: seq<Plan>, belt: real)
    requires belt > 0.0 && NoNegativeCap(plan)
    ensures AccountStaysInBelt(plan, belt) <==> WorstCase(plan, belt, Due(plan)) <= belt
  {
    forall run, ran | IsClampedCampaign(plan, belt, run, ran) ensures Actual(ran) <= WorstCase(plan, belt, Due(plan)) {
      var n := |ran|;
      assert ran[..n] == ran && Indices(ran)[..n] == Due(plan)[..n];
      ActualIsAtMostWorstCase(plan, belt, run, ran, n);
      WorstCaseGrows(plan, belt, Due(plan), n);
    }
    AllFailedIsCampaign(plan, belt);
    AllFailedCosts(plan, belt, Due(plan));
    var ran := AllFailed(plan, belt, Due(plan));
    assert AccountStaysInBelt(plan, belt) ==> Actual(ran) <= belt;
  }

  lemma WorstCaseNext(plan: seq<Plan>, belt: real, indices: seq<nat>, i: nat)
    ensures WorstCase(plan, belt, indices + [i]) == WorstCase(plan, belt, indices) + Handed(plan, belt, i)
  {
    assert (indices + [i])[..|indices|] == indices;
  }

  /** Two legs that may each take the whole belt are such a plan: it can cost twice the belt. */
  lemma FailedLegEscapesBelt(belt: real)
    requires belt > 0.0
    ensures exists plan, run, ran :: IsClampedCampaign(plan, belt, run, ran) && Actual(ran) == belt + belt
  {
    var plan := [Plan("a", belt, false), Plan("b", belt, false)];
    TwoDue(plan);
    TwiceTheBelt(plan, belt);
    hide Due, WorstCase, AllFailed, FollowsPlan;
    AllFailedIsCampaign(plan, belt);
    AllFailedCosts(plan, belt, Due(plan));
  }

  lemma TwoDue(plan: seq<Plan>)
    requires |plan| == 2 && !plan[0].excluded && !plan[1].excluded
    ensures Due(plan) == [0, 1]
  {
    NothingDue(plan);
    hide Due;
    DueNext(plan, 0);
    DueNext(plan, 1);
    assert plan[..2] == plan;
  }

  lemma TwiceTheBelt(plan: seq<Plan>, belt: real)
    requires |plan| == 2 && plan[0].capUsd == belt && plan[1].capUsd == belt
    ensures WorstCase(plan, belt, [0, 1]) == belt + belt
  {
    assert WorstCase(plan, belt, []) == 0.0;
    hide WorstCase;
    WorstCaseNext(plan, belt, [], 0);
    WorstCaseNext(plan, belt, [0], 1);
    assert [] + [0] == [0] && [0] + [1] == [0, 1];
  }

  ghost predicate NoNegativeCap(plan: seq<Plan>) {
    forall i :: 0 <= i < |plan| ==> plan[i].capUsd >= 0.0
  }

  /** A run of the clamped loop over a plan without negative caps, with legs that obey theirs. */
  ghost predicate IsClampedCampaign(plan: seq<Plan>, belt: real, run: Runner, ran: seq<Ran>) {
    Obeys(run) && NoNegativeCap(plan) && FollowsPlan(plan, belt, run, true, ran)
  }

  // ----- the belt between legs -----

  /** Without the clamp the last leg to start can carry the total past the belt, but by less than
      the largest cap of a leg. */
  lemma {:induction false} UnclampedOvershootsByLessThanOneCap(plan: seq<Plan>, belt: real, run: Runner, ran: seq<Ran>, n: nat, most: real)
    requires belt > 0.0 && most >= 0.0 && Obeys(run) && n <= |ran|
    requires forall i :: 0 <= i < |plan| ==> 0.0 <= plan[i].capUsd <= most
    requires forall k :: 0 <= k < |ran| ==> IsRan(plan, belt, run, false, ran, k)
    ensures Cumulative(ran[..n]) < belt + most
  {
    if n > 0 {
      assert ran[..n][..n - 1] == ran[..n - 1];
      assert IsRan(plan, belt, run, false, ran, n - 1);
    }
  }

  /** `n` legs that each spend `step`, then one that spends its whole cap. */
  function Creep(n: nat, step: real, cap: real): (ran: seq<Ran>)
    ensures |ran| == n + 1
  {
    seq(n + 1, i requires 0 <= i < n + 1 => Ran(i, cap, Completed(if i < n then step else cap)))
  }

  lemma {:induction false} CreepTotal(n: nat, step: real, cap: real, k: nat)
    requires k <= n
    ensures Cumulative(Creep(n, step, cap)[..k]) == k as real * step
  {
    if k > 0 {
      var ran := Creep(n, step, cap);
      assert ran[..k][..k - 1] == ran[..k - 1];
      CreepTotal(n, step, cap, k - 1);
      assert k as real * step == (k - 1) as real * step + step;
    }
  }

  lemma StepsStayBelow(k: nat, n: nat, step: real)
    requires k <= n && step >= 0.0
    ensures k as real * step <= n as real * step
  {
    assert (n - k) as real * step >= 0.0;
    assert n as real * step == k as real * step + (n - k) as real * step;
  }

  /** An amount is the sum of finitely many equal steps that fit a cap. */
  lemma EvenSteps(amount: real, cap: real) returns (n: nat, step: real)
    requires amount >= 0.0 && cap > 0.0
    ensures 0.0 <= step <= cap && n as real * step == amount
  {
    n := (amount / cap).Floor + 1;
    step := amount / n as real;
    assert n as real > amount / cap;
    assert n as real * cap >= amount by {
      assert (n as real - amount / cap) * cap >= 0.0;
      assert (amount / cap) * cap == amount;
    }
    assert cap - step == (n as real * cap - amount) / n as real;
  }

  function Creeper(n: nat, step: real, cap: real): Runner {
    (i: nat, c: real) => CreepLeg(n, step, cap, i, c)
  }

  function CreepLeg(n: nat, step: real, cap: real, i: nat, c: real): Leg {
    Completed(if c < 0.0 then 0.0 else Min(c, if i < n then step else cap))
  }

  lemma CreeperObeys(n: nat, step: real, cap: real)
    requires 0.0 <= step <= cap
    ensures Obeys(Creeper(n, step, cap))
  {
    var run := Creeper(n, step, cap);
    forall i: nat, c: real ensures 0.0 <= Cost(run(i, c)) && (c >= 0.0 ==> Cost(run(i, c)) <= c) {
      assert run(i, c) == CreepLeg(n, step, cap, i, c);
    }
  }

  lemma CreepIsRan(plan: seq<Plan>, belt: real, n: nat, step: real, cap: real, k: nat)
    requires k <= n && |plan| == n + 1 && 0.0 <= step <= cap
    requires forall i :: 0 <= i < |plan| ==> plan[i] == Plan("leg", cap, false)
    requires n as real * step < belt
    ensures IsRan(plan, belt, Creeper(n, step, cap), false, Creep(n, step, cap), k)
  {
    CreepStaysBelow(belt, n, step, cap, k);
    LegIsSpelled(n, step, cap, k);
    hide Cumulative, CreepLeg, Creeper;
    var ran := Creep(n, step, cap);
    assert ran[k] == Ran(k, cap, Completed(if k < n then step else cap));
    assert plan[k] == Plan("leg", cap, false);
  }

  lemma CreepStaysBelow(belt: real, n: nat, step: real, cap: real, k: nat)
    requires k <= n && 0.0 <= step && n as real * step < belt
    ensures Cumulative(Creep(n, step, cap)[..k]) < belt
  {
    CreepTotal(n, step, cap, k);
    StepsStayBelow(k, n, step);
  }

  lemma LegIsSpelled(n: nat, step: real, cap: real, k: nat)
    requires 0.0 <= step <= cap
    ensures Creeper(n, step, cap)(k, cap) == Completed(if k < n then step else cap)
  {
    assert Creeper(n, step, cap)(k, cap) == CreepLeg(n, step, cap, k, cap);
  }

  lemma {:induction false} AllDue(plan: seq<Plan>)
    requires forall i :: 0 <= i < |plan| ==> !plan[i].excluded
    ensures |Due(plan)| == |plan| && forall i :: 0 <= i < |plan| ==> Due(plan)[i] == i
    decreases |plan|
  {
    if plan != [] {
      AllDue(plan[..|plan| - 1]);
    }
  }

  /** That bound is approached: for every belt, cap and gap there is a campaign that ends within the gap
      of belt plus cap. */
  lemma UnclampedBoundIsApproached(belt: real, cap: real, gap: real)
    requires cap > 0.0 && 0.0 < gap <= belt
    ensures exists plan, run, ran :: IsUnclampedCampaign(plan, belt, run, ran, cap) && Cumulative(ran) == belt + cap - gap
  {
    var n, step := EvenSteps(belt - gap, cap);
    var plan := seq(n + 1, i requires 0 <= i < n + 1 => Plan("leg", cap, false));
    var run := Creeper(n, step, cap);
    var ran := Creep(n, step, cap);
    forall k: nat | k < |ran| ensures IsRan(plan, belt, run, false, ran, k) {
      CreepIsRan(plan, belt, n, step, cap, k);
    }
    assert Cumulative(ran) == belt + cap - gap by {
      CreepTotal(n, step, cap, n);
    }
    CreeperObeys(n, step, cap);
    AllDue(plan);
    assert Indices(ran) == Due(plan);
    assert IsUnclampedCampaign(plan, belt, run, ran, cap);
  }

  /** A run of the unclamped loop over a plan whose caps are at most `most`. */
  ghost predicate IsUnclampedCampaign(plan: seq<Plan>, belt: real, run: Runner, ran: seq<Ran>, most: real) {
    && Obeys(run)
    && (forall i :: 0 <= i < |plan| ==> 0.0 <= plan[i].capUsd <= most)
    && FollowsPlan(plan, belt, run, false, ran)
  }

  // ----- the felt leg -----

  /** A sample that came back: from the cache or not, with the cost the request log shows, if any. */
  datatype Sample = Answer(cached: bool, costUsd: Option<real>) | Error

  /** A cluster of the felt leg: how many positions it has to feel. */
  type Sampler = (nat, real) -> seq<Sample>

  function Charge(sample: Sample, remaining: real): real {
    match sample
    case Answer(cached, cost) => if cached then 0.0 else if cost.Some? then cost.value else remaining
    case Error => 0.0
  }

  function Charges(samples: seq<Sample>, remaining: real): real {
    if samples == [] then 0.0
    else Charges(samples[..|samples| - 1], remaining) + Charge(samples[|samples| - 1], remaining)
  }

  /** What a sample is charged: nothing from the cache or for an error, the cost the log shows, or all that
      was left when the log shows none. */
  predicate IsCharge(sample: Sample, remaining: real, charge: real) {
    && (sample.Error? || sample.cached ==> charge == 0.0)
    && (sample.Answer? && !sample.cached ==> sample.costUsd == Some(charge) || (sample.costUsd == None && charge == remaining))
  }

  function Sum(amounts: seq<real>): real {
    if amounts == [] then 0.0 else amounts[0] + Sum(amounts[1..])
  }

  lemma {:induction false} SumLast(amounts: seq<real>, last: real)
    ensures Sum(amounts + [last]) == Sum(amounts) + last
    decreases |amounts|
  {
    if amounts == [] {
      assert amounts + [last] == [last] && [last][1..] == [];
    } else {
      assert (amounts + [last])[1..] == amounts[1..] + [last];
      SumLast(amounts[1..], last);
    }
  }

  ghost predicate AreCharges(samples: seq<Sample>, remaining: real, charges: seq<real>) {
    |charges| == |samples| && forall i :: 0 <= i < |samples| ==> IsCharge(samples[i], remaining, charges[i])
  }

  /** A cluster is charged the sum of what its samples are. */
  lemma {:induction false} ChargesAre(samples: seq<Sample>, remaining: real)
    ensures exists charges :: AreCharges(samples, remaining, charges) && Sum(charges) == Charges(samples, remaining)
    decreases |samples|
  {
    if samples == [] {
      assert AreCharges(samples, remaining, []);
    } else {
      var n := |samples| - 1;
      ChargesAre(samples[..n], remaining);
      var before :| AreCharges(samples[..n], remaining, before) && Sum(before) == Charges(samples[..n], remaining);
      var charge := Charge(samples[n], remaining);
      SumLast(before, charge);
      assert AreCharges(samples, remaining, before + [charge]);
    }
  }

  /** One cluster that was felt: its index, what was left before it, and its samples. */
  datatype Felt = Felt(index: nat, remaining: real, samples: seq<Sample>)

  function FeltTotal(felt: seq<Felt>): real {
    if felt == [] then 0.0
    else FeltTotal(felt[..|felt| - 1]) + Charges(felt[|felt| - 1].samples, felt[|felt| - 1].remaining)
  }

  ghost predicate IsFelt(requests: seq<nat>, cap: real, sweep: Sampler, felt: seq<Felt>, k: nat)
    requires k < |felt|
  {
    && felt[k].index < |requests| && requests[felt[k].index] > 0
    && felt[k].remaining == cap - FeltTotal(felt[..k]) > 0.0
    && felt[k].samples == sweep(felt[k].index, felt[k].remaining)
  }

  lemma FeltStands(requests: seq<nat>, cap: real, sweep: Sampler, felt: seq<Felt>, more: Felt, k: nat)
    requires k < |felt| && IsFelt(requests, cap, sweep, felt, k)
    ensures IsFelt(requests, cap, sweep, felt + [more], k)
  {
    assert (felt + [more])[..k] == felt[..k];
  }

  /** The clusters with a feasible position, in order. */
  function Feasible(requests: seq<nat>): seq<nat> {
    if requests == [] then []
    else Feasible(requests[..|requests| - 1]) + if requests[|requests| - 1] == 0 then [] else [|requests| - 1]
  }

  /** The feasible clusters are those with a position to feel, in order. */
  lemma {:induction false} FeasibleAre(requests: seq<nat>)
    ensures forall k, l :: 0 <= k < l < |Feasible(requests)| ==> Feasible(requests)[k] < Feasible(requests)[l]
    ensures forall i: nat :: i in Feasible(requests) <==> i < |requests| && requests[i] > 0
    decreases |requests|
  {
    if requests != [] {
      var n, before := |requests| - 1, Feasible(requests[..|requests| - 1]);
      FeasibleAre(requests[..n]);
      assert forall k :: 0 <= k < |before| ==> before[k] in before;
      assert forall i :: 0 <= i < n ==> requests[..n][i] == requests[i];
    }
  }

  lemma {:induction false} FeasiblePrefix(requests: seq<nat>, i: nat)
    requires i <= |requests|
    ensures Feasible(requests[..i]) <= Feasible(requests)
    decreases |requests| - i
  {
    if i < |requests| {
      assert requests[..i + 1][..i] == requests[..i];
      FeasiblePrefix(requests, i + 1);
    } else {
      assert requests[..i] == requests;
    }
  }

  function FeltIndices(felt: seq<Felt>): (indices: seq<nat>)
    ensures |indices| == |felt|
  {
    seq(|felt|, i requires 0 <= i < |felt| => felt[i].index)
  }

  /** The inner loop: what one cluster adds to the total. */
  method ChargeSamples(samples: seq<Sample>, remaining: real) returns (charged: real)
    ensures charged == Charges(samples, remaining)
    ensures exists charges :: AreCharges(samples, remaining, charges) && Sum(charges) == charged
  {
    ChargesAre(samples, remaining);
    charged := 0.0;
    for j := 0 to |samples|
      invariant charged == Charges(samples[..j], remaining)
    {
      assert samples[..j + 1][..j] == samples[..j];
      charged := charged + Charge(samples[j], remaining);
    }
    assert samples[..|samples|] == samples;
  }

  ghost predicate AllFelt(requests: seq<nat>, cap: real, sweep: Sampler, felt: seq<Felt>) {
    forall k :: 0 <= k < |felt| ==> IsFelt(requests, cap, sweep, felt, k)
  }

  lemma FeltOneMore(requests: seq<nat>, cap: real, sweep: Sampler, felt: seq<Felt>, more: Felt)
    requires AllFelt(requests, cap, sweep, felt)
    requires more.index < |requests| && requests[more.index] > 0
    requires more.remaining == cap - FeltTotal(felt) > 0.0
    requires more.samples == sweep(more.index, more.remaining)
    ensures AllFelt(requests, cap, sweep, felt + [more])
    ensures FeltTotal(felt + [more]) == FeltTotal(felt) + Charges(more.samples, more.remaining)
    ensures FeltIndices(felt + [more]) == FeltIndices(felt) + [more.index]
  {
    assert (felt + [more])[..|felt|] == felt;
    forall k: nat | k < |felt| ensures IsFelt(requests, cap, sweep, felt + [more], k) {
      FeltStands(requests, cap, sweep, felt, more, k);
    }
  }

  /** `requests[i]` is the number of feasible positions of the `i`-th cluster; a cluster without any is
      skipped. The clusters felt are the feasible ones in order, cut short only once the cap is used up. */
  method FeelClusters(requests: seq<nat>, cap: real, sweep: Sampler) returns (felt: seq<Felt>, spentTotal: real)
    ensures AllFelt(requests, cap, sweep, felt)
    ensures spentTotal == FeltTotal(felt)
    ensures FeltIndices(felt) <= Feasible(requests)
    ensures FeltIndices(felt) == Feasible(requests) || spentTotal >= cap
  {
    hide IsFelt, Charges, Charge;
    felt, spentTotal := [], 0.0;
    for i := 0 to |requests|
      invariant AllFelt(requests, cap, sweep, felt)
      invariant spentTotal == FeltTotal(felt)
      invariant FeltIndices(felt) == Feasible(requests[..i])
    {
      assert requests[..i + 1][..i] == requests[..i];
      if requests[i] == 0 {
        continue;
      }
      var remaining := cap - spentTotal;
      if remaining <= 0.0 {
        FeasiblePrefix(requests, i);
        return;
      }
      var samples := sweep(i, remaining);
      var charged := ChargeSamples(samples, remaining);
      FeltOneMore(requests, cap, sweep, felt, Felt(i, remaining, samples));
      felt := felt + [Felt(i, remaining, samples)];
      spentTotal := spentTotal + charged;
    }
    assert requests[..|requests|] == requests;
  }

  /** Resolved costs are never negative. */
  predicate NoRefunds(samples: seq<Sample>) {
    forall i :: 0 <= i < |samples| && samples[i].Answer? && samples[i].costUsd.Some? ==> samples[i].costUsd.value >= 0.0
  }

  lemma {:induction false} ChargesCover(samples: seq<Sample>, remaining: real, i: nat)
    requires i < |samples| && NoRefunds(samples) && remaining >= 0.0
    ensures Charges(samples, remaining) >= Charge(samples[i], remaining) && Charges(samples, remaining) >= 0.0
    decreases |samples|
  {
    var n := |samples| - 1;
    if n > 0 {
      ChargesCover(samples[..n], remaining, if i < n then i else 0);
    }
  }

  /** One answer whose cost does not resolve, and which is not from the cache, brings the total to the
      cap or past it, and the cluster it came from is the last one felt. */
  lemma UnresolvedCostLatches(requests: seq<nat>, cap: real, sweep: Sampler, felt: seq<Felt>, k: nat, i: nat)
    requires k < |felt| && AllFelt(requests, cap, sweep, felt)
    requires NoRefunds(felt[k].samples) && i < |felt[k].samples|
    requires felt[k].samples[i] == Answer(false, None)
    ensures FeltTotal(felt[..k + 1]) >= cap
    ensures k + 1 == |felt|
  {
    assert IsFelt(requests, cap, sweep, felt, k);
    ChargesCover(felt[k].samples, felt[k].remaining, i);
    assert felt[..k + 1][..k] == felt[..k];
    if k + 1 < |felt| {
      assert IsFelt(requests, cap, sweep, felt, k + 1);
    }
  }
}
