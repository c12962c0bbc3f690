/** What the verifier says of a cut text: exactly which cuts it reports. */
module CutVerdict {
  import opened Text
  import opened SecretPatterns
  import opened KeyCleaning
  import opened AssignmentCleaning
  import opened Scrubber
  import opened LineJoins
  import opened Decimal
  import opened Truncation

  /** The first `n` characters of `u` end right behind the `=` of an assignment, or behind the white space
      that follows it. */
  predicate HeadEndsAt(w: bool, u: string, n: nat)
    requires n <= |u|
    decreases n
  {
    n > 0 && (ValueStart(w, u[..n]) == n || HeadEndsAt(IsWord(u[0]), u[1..], n - 1))
  }

  /** Text that neither lengthens a name nor a gap nor is an `=`. */
  predicate IsNeutral(m: string) {
    m != [] && !IsSpace(m[0]) && !In(EnvName, m[0]) && m[0] != '='
  }

  lemma {:induction false} RunBefore(k: CharClass, x: string, m: string)
    requires m == [] || !In(k, m[0])
    ensures Run(k, x + m) == Run(k, x)
    decreases |x|
  {
    if x == [] {
      assert x + m == m;
    } else {
      assert (x + m)[1..] == x[1..] + m;
      RunBefore(k, x[1..], m);
    }
  }

  lemma EqualsBefore(x: string, m: string)
    requires IsNeutral(m)
    ensures EqualsLen(x + m) == EqualsLen(x)
  {
    RunBefore(Space, x, m);
    var e := Run(Space, x);
    assert (x + m)[e..] == x[e..] + m;
    if e < |x| {
      assert (x[e..] + m)[1..] == x[e..][1..] + m;
      RunBefore(Space, x[e..][1..], m);
    }
  }

  /** An assignment's head does not see neutral text behind it. */
  lemma ValueStartBefore(w: bool, x: string, m: string)
    requires IsNeutral(m)
    ensures ValueStart(w, x + m) == ValueStart(w, x)
  {
    if x == [] {
      assert x + m == m;
      assert In(EnvName, m[0]) || !IsUpper(m[0]);
    } else if !w && IsUpper(x[0]) {
      hide IsSecretName, EqualsLen, In, Run;
      RunBefore(EnvName, x, m);
      var a := Run(EnvName, x);
      assert (x + m)[..a] == x[..a] && (x + m)[a..] == x[a..] + m;
      EqualsBefore(x[a..], m);
    }
  }

  lemma MarkerIsNeutral(k: nat)
    ensures IsNeutral(Marker(k)) && ValueLen(Marker(k)) > 0 && !IsScrubbed(Marker(k))
  {
    MarkerEnds(k);
    hide Marker;
    assert In(Bare, '\U{2026}');
  }

  /** Right behind a head, and nowhere else, the marker is the value of an assignment. */
  lemma MatchAtCutIff(w: bool, u: string, n: nat, k: nat)
    requires n <= |u| && MatchLen(EnvAssignment, w, u) == 0 && TagsClosed(u, n)
    ensures MatchLen(EnvAssignment, w, CutAt(u, n, k)) > 0 <==> n > 0 && ValueStart(w, u[..n]) == n
  {
    OnlyTheMarkerIsNew(w, u, n, k);
    MarkerIsNeutral(k);
    hide Marker, TagsClosed, ValueStart, IsScrubbed, ValueLen, IsNeutral;
    ValueStartBefore(w, u[..n], Marker(k));
    assert CutAt(u, n, k)[n..] == Marker(k);
  }

  lemma {:induction false} NoCapitalNoAssignment(w: bool, m: string)
    requires NoCapital(m)
    ensures Clean(EnvAssignment, w, m)
    decreases |m|
  {
    if m != [] {
      NoCapitalNoAssignment(IsWord(m[0]), m[1..]);
    }
  }

  lemma {:induction false} CleanAtCutIff(w: bool, u: string, n: nat, k: nat)
    requires n <= |u| && Clean(EnvAssignment, w, u) && TagsClosed(u, n)
    ensures Clean(EnvAssignment, w, CutAt(u, n, k)) <==> !HeadEndsAt(w, u, n)
    decreases n
  {
    hide MatchLen, IsWord, Marker, TagsClosed, CutAt, ValueStart;
    CutAtParts(u, n, k);
    if n == 0 {
      forall i | 0 <= i < |Marker(k)| ensures !IsUpper(Marker(k)[i]) {
        MarkerPlain(k, i);
      }
      NoCapitalNoAssignment(w, Marker(k));
      assert Marker(k)[0..] == Marker(k);
    } else {
      MatchAtCutIff(w, u, n, k);
      TagsClosedDrop(u, n);
      CleanAtCutIff(IsWord(u[0]), u[1..], n - 1, k);
    }
  }

  /** The cut leaves an assignment for the verifier: the text is longer than the limit, no placeholder is
      severed, and the limit falls right behind the head of an assignment. */
  predicate CutsBehindHead(t: string, n: nat) {
    n < |t| && TagsClosed(t, n) && HeadEndsAt(false, t, n)
  }

  lemma MarkedCutIs(t: string, n: nat)
    requires n < |t| && TagsClosed(t, n)
    ensures Cut(t, n) == CutAt(t, n, |t| - n)
  {
    CleanCutIsMarked(t, n);
    hide Cut, Marker, TagsClosed;
  }

  lemma OtherCutIs(t: string, n: nat) returns (a: nat)
    requires !(n < |t| && TagsClosed(t, n))
    ensures a <= |t| && Cut(t, n) == t[..a] && (a < |t| ==> t[a] == '<')
  {
    CutIsPrefix(t, n);
    hide Cut, Marker, TagsClosed;
    a :| 0 <= a <= |t| && Cut(t, n) == t[..a] && (a < |t| ==> t[a] == '<');
  }

  lemma CleanCutIff(t: string, n: nat)
    requires Clean(EnvAssignment, false, t)
    ensures Clean(EnvAssignment, false, Cut(t, n)) <==> !CutsBehindHead(t, n)
  {
    hide Cut, Clean, CutAt, TagsClosed, HeadEndsAt;
    if n < |t| && TagsClosed(t, n) {
      MarkedCutIs(t, n);
      CleanAtCutIff(false, t, n, |t| - n);
    } else {
      var a := OtherCutIs(t, n);
      if a < |t| {
        CleanBeforeMarkup(false, t, a);
      } else {
        assert t[..a] == t;
      }
    }
  }

  /** A text the verifier is silent on is cut to one it is silent on exactly when the limit does not fall
      right behind the head of an assignment: everywhere else it is safe to cut. */
  lemma CutPassesVerifierIff(t: string, n: nat)
    requires Survivors(Patterns(), t) == []
    ensures Survivors(Patterns(), Cut(t, n)) == [] <==> !CutsBehindHead(t, n)
  {
    hide *;
    LastPattern();
    NoSurvivorIsClean(Patterns(), t, 9);
    CleanCutIff(t, n);
    CleanOfKeys(t);
    forall i | 0 <= i < |KeyPatterns()| ensures Clean(KeyPatterns()[i], false, Cut(t, n)) {
      PatternsAreKeyLike(i);
      CutKeepsKeysOut(KeyPatterns()[i], t, n);
    }
    SurvivorsWithoutKeys(Cut(t, n));
  }

  lemma CleanOfKeys(t: string)
    requires Survivors(Patterns(), t) == []
    ensures forall i :: 0 <= i < |KeyPatterns()| ==> Clean(KeyPatterns()[i], false, t)
  {
    hide Clean, Survivors, KeyPatterns;
    forall i | 0 <= i < |KeyPatterns()| ensures Clean(KeyPatterns()[i], false, t) {
      assert Patterns()[i] == KeyPatterns()[i];
      NoSurvivorIsClean(Patterns(), t, i);
    }
  }

  /** What `safe` makes of a payload in which behind no assignment that opens a quote another runs over a
      newline: the verifier reports it exactly when the limit falls right behind a head of the scrubbed text. */
  lemma SafePassesVerifierIff(s: string, n: nat)
    requires NoQuoteThenJoin(false, s)
    ensures Survivors(Patterns(), Safe(s, n)) == [] <==> !CutsBehindHead(Scrub(s), n)
  {
    hide *;
    NotIdempotentNeedsQuoteThenJoin(s);
    CutPassesVerifierIff(Scrub(s), n);
    SafeIsCut(s, n);
  }

  /** And the second pass repairs that: what is emitted for such a payload passes wherever the cut falls. */
  lemma EmittedPayloadPasses(s: string, n: nat)
    requires NoQuoteThenJoin(false, s)
    ensures Survivors(Patterns(), Scrub(Safe(s, n))) == []
  {
    hide *;
    NotIdempotentNeedsQuoteThenJoin(s);
    EmittedPassesVerifier(s, n);
  }
}
