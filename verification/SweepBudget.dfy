/** The sweep loop: suites run one after another while the next projection fits what
    is left of the cap, up to a tolerance of one nanodollar. */
module SweepBudget {
  import opened Wrappers

  /** A suite and what the estimator projects for it. */
  datatype Suite = Suite(id: string, projectedUsd: real)

  datatype Outcome = Outcome(suiteId: string, projectedUsd: real, spendUsd: real)

  /** Why a sweep stopped early: the suite that did not fit, and what was left. */
  datatype Stop = Stop(suiteId: string, projectedUsd: real, remainingUsd: real, completed: nat)

  /** How a sweep ends. A run that throws takes the sweep with it; `Thrown` keeps what had run by then. */
  datatype Sweep =
    | Done(outcomes: seq<Outcome>, stop: Option<Stop>, totalSpendUsd: real)
    | Thrown(outcomes: seq<Outcome>)

  /** What running the `i`-th suite with a budget costs; `None` when the run throws. */
  type Runner = (nat, real) -> Option<real>

  const TOLERANCE := 0.000000001

  predicate FitsBudget(projectedUsd: real, remainingUsd: real) {
    projectedUsd <= remainingUsd + TOLERANCE
  }

  function Spent(outcomes: seq<Outcome>): real {
    if outcomes == [] then 0.0 else Spent(outcomes[..|outcomes| - 1]) + outcomes[|outcomes| - 1].spendUsd
  }

  function Projected(suites: seq<Suite>): real {
    if suites == [] then 0.0 else Projected(suites[..|suites| - 1]) + suites[|suites| - 1].projectedUsd
  }

  /** The `k`-th outcome is that of the `k`-th suite, which fitted, run with exactly what was left. */
  ghost predicate IsOutcome(suites: seq<Suite>, capUsd: real, run: Runner, outcomes: seq<Outcome>, k: nat)
    requires k < |outcomes| <= |suites|
  {
    var left := capUsd - Spent(outcomes[..k]);
    && suites[k].projectedUsd <= left + 0.000000001
    && run(k, left) == Some(outcomes[k].spendUsd)
    && outcomes[k].suiteId == suites[k].id && outcomes[k].projectedUsd == suites[k].projectedUsd
  }

  /** What a sweep is: outcomes of a prefix of the suites, the total of their spends, and an early stop
      exactly at the first suite that does not fit. */
  ghost predicate IsSweep(suites: seq<Suite>, capUsd: real, run: Runner, r: Sweep)
    requires r.Done?
  {
    var n := |r.outcomes|;
    && n <= |suites|
    && (forall k :: 0 <= k < n ==> IsOutcome(suites, capUsd, run, r.outcomes, k))
    && r.totalSpendUsd == Spent(r.outcomes)
    && (r.stop.None? <==> n == |suites|)
    && (n < |suites| ==>
          && suites[n].projectedUsd > capUsd - r.totalSpendUsd + 0.000000001
          && r.stop == Some(Stop(suites[n].id, suites[n].projectedUsd, capUsd - r.totalSpendUsd, n)))
  }

  /** A sweep that throws: the earlier suites ran, the next one fitted, and its run threw with exactly
      what was left. */
  ghost predicate IsThrownSweep(suites: seq<Suite>, capUsd: real, run: Runner, outcomes: seq<Outcome>) {
    var n := |outcomes|;
    && n < |suites|
    && (forall k :: 0 <= k < n ==> IsOutcome(suites, capUsd, run, outcomes, k))
    && suites[n].projectedUsd <= capUsd - Spent(outcomes) + 0.000000001
    && run(n, capUsd - Spent(outcomes)) == None
  }

  lemma OutcomeStands(suites: seq<Suite>, capUsd: real, run: Runner, outcomes: seq<Outcome>, more: Outcome, k: nat)
    requires k < |outcomes| < |suites| && IsOutcome(suites, capUsd, run, outcomes, k)
    ensures IsOutcome(suites, capUsd, run, outcomes + [more], k)
  {
    assert (outcomes + [more])[..k] == outcomes[..k];
  }

  method RunSweepLoop(suites: seq<Suite>, capUsd: real, run: Runner) returns (r: Sweep)
    ensures r.Done? ==> IsSweep(suites, capUsd, run, r)
    ensures r.Thrown? ==> IsThrownSweep(suites, capUsd, run, r.outcomes)
  {
    var outcomes: seq<Outcome> := [];
    var totalSpendUsd := 0.0;
    for i := 0 to |suites|
      invariant |outcomes| == i
      invariant forall k :: 0 <= k < i ==> IsOutcome(suites, capUsd, run, outcomes, k)
      invariant totalSpendUsd == Spent(outcomes)
    {
      var remaining := capUsd - totalSpendUsd;
      if !FitsBudget(suites[i].projectedUsd, remaining) {
        return Done(outcomes, Some(Stop(suites[i].id, suites[i].projectedUsd, remaining, i)), totalSpendUsd);
      }
      var spend := run(i, remaining);
      if spend.None? {
        return Thrown(outcomes);
      }
      ghost var before := outcomes;
      totalSpendUsd := totalSpendUsd + spend.value;
      outcomes := outcomes + [Outcome(suites[i].id, suites[i].projectedUsd, spend.value)];
      assert outcomes[..i] == before;
      forall k: nat | k < i ensures IsOutcome(suites, capUsd, run, outcomes, k) {
        OutcomeStands(suites, capUsd, run, before, outcomes[i], k);
      }
    }
    r := Done(outcomes, None, totalSpendUsd);
  }

  /** If no suite costs more than projected, a sweep under a non-negative cap ends at most the tolerance
      above it: the tolerance is granted to every suite but never adds up. */
  lemma {:induction false} ToleranceNeverAccumulates(suites: seq<Suite>, capUsd: real, run: Runner, outcomes: seq<Outcome>, n: nat)
    requires capUsd >= 0.0 && n <= |outcomes| <= |suites|
    requires forall k :: 0 <= k < |outcomes| ==> IsOutcome(suites, capUsd, run, outcomes, k)
    requires forall k :: 0 <= k < |outcomes| ==> outcomes[k].spendUsd <= outcomes[k].projectedUsd
    ensures Spent(outcomes[..n]) <= capUsd + 0.000000001
  {
    if n > 0 {
      assert outcomes[..n][..n - 1] == outcomes[..n - 1];
      assert IsOutcome(suites, capUsd, run, outcomes, n - 1);
    }
  }

  /** If no run spends more than the budget it is handed, the total never exceeds a non-negative cap. */
  lemma {:induction false} HandedBudgetBoundsTotal(suites: seq<Suite>, capUsd: real, run: Runner, outcomes: seq<Outcome>, n: nat)
    requires capUsd >= 0.0 && n <= |outcomes| <= |suites|
    requires forall k :: 0 <= k < |outcomes| ==> IsOutcome(suites, capUsd, run, outcomes, k)
    requires forall i, left :: run(i, left).Some? ==> run(i, left).value <= left
    ensures Spent(outcomes[..n]) <= capUsd
  {
    if n > 0 {
      assert outcomes[..n][..n - 1] == outcomes[..n - 1];
      assert IsOutcome(suites, capUsd, run, outcomes, n - 1);
    }
  }

  /** Both bounds for a whole sweep. */
  lemma SweepStaysInBudget(suites: seq<Suite>, capUsd: real, run: Runner, r: Sweep)
    requires capUsd >= 0.0 && r.Done? && IsSweep(suites, capUsd, run, r)
    ensures (forall k :: 0 <= k < |r.outcomes| ==> r.outcomes[k].spendUsd <= r.outcomes[k].projectedUsd) ==>
              r.totalSpendUsd <= capUsd + 0.000000001
    ensures (forall i, left :: run(i, left).Some? ==> run(i, left).value <= left) ==> r.totalSpendUsd <= capUsd
  {
    var n := |r.outcomes|;
    assert r.outcomes[..n] == r.outcomes;
    if forall k :: 0 <= k < n ==> r.outcomes[k].spendUsd <= r.outcomes[k].projectedUsd {
      ToleranceNeverAccumulates(suites, capUsd, run, r.outcomes, n);
    }
    if forall i, left :: run(i, left).Some? ==> run(i, left).value <= left {
      HandedBudgetBoundsTotal(suites, capUsd, run, r.outcomes, n);
    }
  }

  /** A sweep in which no suite costs more than projected and which still ends the whole tolerance above the cap. */
  ghost predicate ReachesTolerance(suites: seq<Suite>, capUsd: real, run: Runner, r: Sweep) {
    && r.Done? && IsSweep(suites, capUsd, run, r)
    && (forall k :: 0 <= k < |r.outcomes| ==> r.outcomes[k].spendUsd <= r.outcomes[k].projectedUsd)
    && r.totalSpendUsd == capUsd + 0.000000001
  }

  /** The tolerance is really spent by some sweep, so the first bound cannot be lowered. */
  lemma ToleranceIsReached(capUsd: real)
    requires capUsd >= 0.0
    ensures exists suites, run, r: Sweep :: ReachesTolerance(suites, capUsd, run, r)
  {
    var cost := capUsd + 0.000000001;
    var suites := [Suite("s", cost)];
    var run: Runner := (i, left) => Some(cost);
    var outcomes := [Outcome("s", cost, cost)];
    assert outcomes[..0] == [];
    assert IsOutcome(suites, capUsd, run, outcomes, 0);
    assert ReachesTolerance(suites, capUsd, run, Done(outcomes, None, cost));
  }

  lemma {:induction false} ProjectionPrefix(suites: seq<Suite>, n: nat)
    requires n <= |suites| && forall k :: 0 <= k < |suites| ==> suites[k].projectedUsd >= 0.0
    ensures Projected(suites[..n]) <= Projected(suites)
    decreases |suites| - n
  {
    if n == |suites| {
      assert suites[..n] == suites;
    } else {
      assert suites[..n + 1][..n] == suites[..n];
      ProjectionPrefix(suites, n + 1);
    }
  }

  lemma {:induction false} SpentAtMostProjected(suites: seq<Suite>, outcomes: seq<Outcome>, n: nat)
    requires n <= |outcomes| <= |suites|
    requires forall k :: 0 <= k < |outcomes| ==> outcomes[k].spendUsd <= suites[k].projectedUsd
    ensures Spent(outcomes[..n]) <= Projected(suites[..n])
  {
    if n > 0 {
      assert outcomes[..n][..n - 1] == outcomes[..n - 1] && suites[..n][..n - 1] == suites[..n - 1];
      SpentAtMostProjected(suites, outcomes, n - 1);
    }
  }

  /** What the preflight accepts completes: if the projections are non-negative and together fit the cap,
      and no suite costs more than projected, no suite is left out. */
  lemma PreflightImpliesCompletion(suites: seq<Suite>, capUsd: real, run: Runner, r: Sweep)
    requires r.Done? && IsSweep(suites, capUsd, run, r)
    requires Projected(suites) <= capUsd + 0.000000001
    requires forall k :: 0 <= k < |suites| ==> suites[k].projectedUsd >= 0.0
    requires forall k :: 0 <= k < |r.outcomes| ==> r.outcomes[k].spendUsd <= r.outcomes[k].projectedUsd
    ensures r.stop == None && |r.outcomes| == |suites|
    ensures forall k :: 0 <= k < |suites| ==> r.outcomes[k].suiteId == suites[k].id
  {
    var n := |r.outcomes|;
    assert forall k :: 0 <= k < n ==> IsOutcome(suites, capUsd, run, r.outcomes, k);
    if n < |suites| {
      assert suites[..n + 1][..n] == suites[..n];
      assert r.outcomes[..n] == r.outcomes;
      forall k: nat | k < n ensures r.outcomes[k].spendUsd <= suites[k].projectedUsd {
        assert IsOutcome(suites, capUsd, run, r.outcomes, k);
      }
      SpentAtMostProjected(suites, r.outcomes, n);
      ProjectionPrefix(suites, n + 1);
    }
  }
}
