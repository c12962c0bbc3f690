/** The scrubber: ten passes in order. No key shape survives it; an assignment
    survives it exactly when the last pass joins lines in the way
    `AssignmentCleaning` describes, and that is also exactly when scrubbing
    twice differs from scrubbing once. */
module Scrubber {
  import opened Text
  import opened SecretPatterns
  import opened KeyCleaning
  import opened AssignmentCleaning

  function ScrubWith(passes: seq<Pattern>, s: string): string {
    if passes == [] then s else ScrubWith(passes[1..], Replace(passes[0], false, s))
  }

  function Scrub(s: string): string {
    ScrubWith(Patterns(), s)
  }

  /** The text that reaches the last pass: `s` after the nine key passes. */
  function KeyPasses(s: string): string {
    ScrubWith(KeyPatterns(), s)
  }

  /** The names of the patterns that still match, in pattern order. */
  function Survivors(patterns: seq<Pattern>, s: string): seq<string> {
    if patterns == [] then []
    else (if Clean(patterns[0], false, s) then [] else [patterns[0].Name()]) + Survivors(patterns[1..], s)
  }

  lemma {:induction false} SurvivorsAppend(patterns: seq<Pattern>, p: Pattern, s: string)
    ensures Survivors(patterns + [p], s) == Survivors(patterns, s) + Survivors([p], s)
  {
    hide Clean;
    if patterns == [] {
      assert patterns + [p] == [p];
    } else {
      assert (patterns + [p])[1..] == patterns[1..] + [p];
      SurvivorsAppend(patterns[1..], p, s);
    }
  }

  /** The passes `passes` leave clean every key-shaped pattern that is among them or was clean before. */
  lemma {:induction false} PassesLeaveClean(passes: seq<Pattern>, p: Pattern, s: string)
    requires IsKeyLike(p) && forall i :: 0 <= i < |passes| ==> IsPass(passes[i])
    requires Clean(p, false, s) || p in passes
    ensures Clean(p, false, ScrubWith(passes, s))
    decreases |passes|
  {
    hide Clean, Replace, IsKeyLike, IsPass;
    if passes != [] {
      var s' := Replace(passes[0], false, s);
      assert IsPass(passes[0]);
      if Clean(p, false, s) || p == passes[0] {
        ReplaceLeavesClean(p, passes[0], false, false, s);
      }
      PassesLeaveClean(passes[1..], p, s');
    }
  }

  /** No text keeps a key shape through the scrubber: none of the nine patterns matches anywhere in the result. */
  lemma ScrubLeavesNoKeys(s: string, i: nat)
    requires i < |KeyPatterns()|
    ensures Clean(KeyPatterns()[i], false, Scrub(s))
    ensures Clean(KeyPatterns()[i], false, KeyPasses(s))
  {
    forall j | 0 <= j < |KeyPatterns()| ensures IsKeyLike(KeyPatterns()[j]) {
      PatternsAreKeyLike(j);
    }
    hide Clean, Replace, IsKeyLike, ScrubWith, KeyPatterns;
    var p := KeyPatterns()[i];
    PassesLeaveClean(KeyPatterns(), p, s);
    assert Patterns()[i] == p;
    PassesLeaveClean(Patterns(), p, s);
  }

  lemma {:induction false} CleanIsFixed(passes: seq<Pattern>, s: string)
    requires forall i :: 0 <= i < |passes| ==> Clean(passes[i], false, s)
    ensures ScrubWith(passes, s) == s
  {
    hide Clean, Replace;
    if passes != [] {
      assert Clean(passes[0], false, s);
      ReplaceKeepsClean(passes[0], false, s);
      CleanIsFixed(passes[1..], s);
    }
  }

  lemma {:induction false} ScrubWithAppend(passes: seq<Pattern>, p: Pattern, s: string)
    ensures ScrubWith(passes + [p], s) == Replace(p, false, ScrubWith(passes, s))
    decreases |passes|
  {
    hide Replace;
    if passes == [] {
      assert passes + [p] == [p];
    } else {
      assert (passes + [p])[1..] == passes[1..] + [p];
      ScrubWithAppend(passes[1..], p, Replace(passes[0], false, s));
    }
  }

  lemma ScrubIsKeysThenAssignments(s: string)
    ensures Scrub(s) == Replace(EnvAssignment, false, KeyPasses(s))
  {
    hide Replace, ScrubWith, KeyPatterns;
    ScrubWithAppend(KeyPatterns(), EnvAssignment, s);
  }

  lemma {:induction false} SurvivorsOfClean(patterns: seq<Pattern>, s: string)
    requires forall i :: 0 <= i < |patterns| ==> Clean(patterns[i], false, s)
    ensures Survivors(patterns, s) == []
  {
    hide Clean;
    if patterns != [] {
      assert Clean(patterns[0], false, s);
      SurvivorsOfClean(patterns[1..], s);
    }
  }

  /** On a text without key shapes the verifier can only report the assignment pattern. */
  lemma SurvivorsWithoutKeys(s: string)
    requires forall i :: 0 <= i < |KeyPatterns()| ==> Clean(KeyPatterns()[i], false, s)
    ensures Survivors(Patterns(), s) == if Clean(EnvAssignment, false, s) then [] else ["env-assignment"]
  {
    hide Clean, Survivors, KeyPatterns;
    SurvivorsOfClean(KeyPatterns(), s);
    SurvivorsAppend(KeyPatterns(), EnvAssignment, s);
    SurvivorOfOne(EnvAssignment, s);
  }

  lemma SurvivorOfOne(p: Pattern, s: string)
    ensures Survivors([p], s) == if Clean(p, false, s) then [] else [p.Name()]
  {
    hide Clean;
  }

  /** What the verifier reports on scrubbed text: nothing, or the assignment pattern
      alone; the latter exactly when the last pass heals a quote. */
  lemma VerifierOnScrubbed(s: string)
    ensures Survivors(Patterns(), Scrub(s)) ==
            if HealingFree(false, KeyPasses(s)) then [] else ["env-assignment"]
  {
    hide Clean, Survivors, HealingFree, ScrubWith, KeyPatterns, Patterns;
    forall i | 0 <= i < |KeyPatterns()| ensures Clean(KeyPatterns()[i], false, Scrub(s)) {
      ScrubLeavesNoKeys(s, i);
    }
    SurvivorsWithoutKeys(Scrub(s));
    ScrubIsKeysThenAssignments(s);
    CleanIffHealingFree(false, false, KeyPasses(s));
  }

  /** A text on which the verifier is silent is left alone. */
  lemma ScrubOfCleanText(s: string)
    requires Survivors(Patterns(), s) == []
    ensures Scrub(s) == s
  {
    hide Patterns;
    forall i | 0 <= i < |Patterns()| ensures Clean(Patterns()[i], false, s) {
      NoSurvivorIsClean(Patterns(), s, i);
    }
    hide Clean, Survivors, ScrubWith;
    CleanIsFixed(Patterns(), s);
  }

  lemma {:induction false} NoSurvivorIsClean(patterns: seq<Pattern>, s: string, i: nat)
    requires Survivors(patterns, s) == [] && i < |patterns|
    ensures Clean(patterns[i], false, s)
  {
    hide Clean;
    if i > 0 {
      NoSurvivorIsClean(patterns[1..], s, i - 1);
    }
  }

  /** On a text without key shapes scrubbing is the last pass alone. */
  lemma ScrubWithoutKeys(s: string)
    requires forall i :: 0 <= i < |KeyPatterns()| ==> Clean(KeyPatterns()[i], false, s)
    ensures KeyPasses(s) == s && Scrub(s) == Replace(EnvAssignment, false, s)
  {
    hide Clean, ScrubWith, Replace, KeyPatterns;
    CleanIsFixed(KeyPatterns(), s);
    ScrubIsKeysThenAssignments(s);
  }

  /** Scrubbing is idempotent on `s` exactly when no quote heals in the last pass. */
  lemma ScrubIdempotentIff(s: string)
    ensures Scrub(Scrub(s)) == Scrub(s) <==> HealingFree(false, KeyPasses(s))
  {
    hide Clean, HealingFree, ScrubWith, Replace, KeyPatterns, Patterns;
    forall i | 0 <= i < |KeyPatterns()| ensures Clean(KeyPatterns()[i], false, Scrub(s)) {
      ScrubLeavesNoKeys(s, i);
    }
    ScrubWithoutKeys(Scrub(s));
    ScrubIsKeysThenAssignments(s);
    FixedIffClean(false, Scrub(s));
    CleanIffHealingFree(false, false, KeyPasses(s));
  }
}
