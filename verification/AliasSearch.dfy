/** The search for an alias nobody has: the base, then the base with 2, 3 and so on. */
module AliasSearch {
  import opened Decimal

  /** The `i`-th name tried. */
  function Candidate(base: string, i: nat): string {
    if i == 0 then base else base + "-" + Digits(i + 1)
  }

  lemma CandidatesDiffer(base: string, i: nat, j: nat)
    requires Candidate(base, i) == Candidate(base, j)
    ensures i == j
  {
    hide Digits, Value;
    ValueOfDigits(i + 1);
    ValueOfDigits(j + 1);
    if i > 0 && j > 0 {
      assert Candidate(base, i)[|base| + 1..] == Digits(i + 1);
      assert Candidate(base, j)[|base| + 1..] == Digits(j + 1);
    }
  }

  function Tried(base: string, n: nat): (names: set<string>)
    ensures forall name :: name in names <==> exists i: nat :: i < n && Candidate(base, i) == name
  {
    if n == 0 then {} else Tried(base, n - 1) + {Candidate(base, n - 1)}
  }

  lemma {:induction false} TriedCount(base: string, n: nat)
    ensures |Tried(base, n)| == n
  {
    if n > 0 {
      TriedCount(base, n - 1);
      if Candidate(base, n - 1) in Tried(base, n - 1) {
        var i: nat :| i < n - 1 && Candidate(base, i) == Candidate(base, n - 1);
        CandidatesDiffer(base, i, n - 1);
      }
    }
  }

  /** Among one more name than are taken, one is free. */
  lemma TriedFits(base: string, n: nat, taken: set<string>)
    requires forall i: nat :: i < n ==> Candidate(base, i) in taken
    ensures n <= |taken|
  {
    TriedCount(base, n);
    var names := Tried(base, n);
    assert names <= taken;
    assert |taken| == |taken - names| + |names|;
  }

  /** The loop ends after at most one probe more than there are names taken, with the first name free. */
  method FreshAlias(base: string, taken: set<string>) returns (alias: string, ghost probes: nat)
    ensures alias !in taken && probes <= |taken|
    ensures probes == 0 ==> alias == base
    ensures probes > 0 ==> base in taken && alias == base + "-" + Digits(probes + 1)
    ensures forall k: nat :: 2 <= k <= probes ==> base + "-" + Digits(k) in taken
  {
    alias, probes := base, 0;
    var n: nat := 2;
    while alias in taken
      invariant n == probes + 2 && alias == Candidate(base, probes)
      invariant forall i: nat :: i < probes ==> Candidate(base, i) in taken
      invariant probes <= |taken|
      decreases |taken| - probes
    {
      TriedFits(base, probes + 1, taken);
      alias := base + "-" + Digits(n);
      n := n + 1;
      probes := probes + 1;
    }
    forall k: nat | 2 <= k <= probes ensures base + "-" + Digits(k) in taken {
      assert Candidate(base, k - 1) in taken;
    }
    assert probes > 0 ==> Candidate(base, 0) in taken;
  }
}
