/** How often a text has to be scrubbed before the scrubber leaves it alone. A pass that leaves an
    assignment behind has swallowed a newline, and no pass brings one in, so one pass for every line of
    the text is always enough. */
module Settling {
  import opened Text
  import opened SecretPatterns
  import opened PatternLanguage
  import opened KeyCleaning
  import opened AssignmentCleaning
  import opened Scrubber

  /** `s` scrubbed `k` times. */
  function Times(k: nat, s: string): string {
    if k == 0 then s else Scrub(Times(k - 1, s))
  }

  function Newlines(s: string): nat {
    if s == [] then 0 else (if s[0] == '\n' then 1 else 0) + Newlines(s[1..])
  }

  lemma {:induction false} NewlinesAppend(a: string, b: string)
    ensures Newlines(a + b) == Newlines(a) + Newlines(b)
    decreases |a|
  {
    if a == [] {
      assert a + b == b;
    } else {
      assert (a + b)[1..] == a[1..] + b;
      NewlinesAppend(a[1..], b);
    }
  }

  lemma NewlinesSplit(u: string, n: nat)
    requires n <= |u|
    ensures Newlines(u) == Newlines(u[..n]) + Newlines(u[n..])
  {
    NewlinesAppend(u[..n], u[n..]);
    assert u[..n] + u[n..] == u;
  }

  lemma {:induction false} NoNewlines(s: string)
    ensures Newlines(s) == 0 <==> '\n' !in s
    decreases |s|
  {
    if s != [] {
      NoNewlines(s[1..]);
      assert s == [s[0]] + s[1..];
    }
  }

  lemma BearerHasNoNewline()
    ensures '\n' !in "Bearer <secret:bearer>"
  {
  }

  lemma ReplacementHasNoNewline(p: Pattern, u: string)
    requires IsPass(p)
    ensures Newlines(Replacement(p, u)) == 0
  {
    NoNewlines(Replacement(p, u));
    match p
    case KeyShape(_, _, _, _, _, placeholder) => assert IsSpace('\n');
    case BearerToken => BearerHasNoNewline();
    case EnvAssignment => RewrittenHasNoQuote('"', u);
  }

  lemma NewlinesOfMatch(p: Pattern, w: bool, u: string)
    requires IsPass(p) && MatchLen(p, w, u) > 0
    ensures var n := MatchLen(p, w, u);
      && Newlines(u) == Newlines(u[..n]) + Newlines(u[n..])
      && Newlines(Replace(p, w, u)) == Newlines(Replace(p, IsWord(u[n - 1]), u[n..]))
  {
    hide MatchLen, Replacement, Newlines;
    var n := MatchLen(p, w, u);
    NewlinesSplit(u, n);
    ReplacementHasNoNewline(p, u);
    NewlinesAppend(Replacement(p, u), Replace(p, IsWord(u[n - 1]), u[n..]));
  }

  lemma NewlinesOfStep(p: Pattern, w: bool, u: string)
    requires u != [] && MatchLen(p, w, u) == 0
    ensures Newlines(u) - Newlines(u[1..]) == Newlines(Replace(p, w, u)) - Newlines(Replace(p, IsWord(u[0]), u[1..]))
  {
    hide MatchLen;
    assert Replace(p, w, u)[1..] == Replace(p, IsWord(u[0]), u[1..]);
  }

  /** No pass brings in a newline. */
  lemma {:induction false} PassAddsNoNewline(p: Pattern, w: bool, u: string)
    requires IsPass(p)
    ensures Newlines(Replace(p, w, u)) <= Newlines(u)
    decreases |u|
  {
    if u != [] {
      var n := MatchLen(p, w, u);
      hide MatchLen, Newlines, Replace, IsPass;
      if n > 0 {
        NewlinesOfMatch(p, w, u);
        PassAddsNoNewline(p, IsWord(u[n - 1]), u[n..]);
      } else {
        NewlinesOfStep(p, w, u);
        PassAddsNoNewline(p, IsWord(u[0]), u[1..]);
      }
    }
  }

  lemma {:induction false} PassesAddNoNewline(passes: seq<Pattern>, s: string)
    requires forall i :: 0 <= i < |passes| ==> IsPass(passes[i])
    ensures Newlines(ScrubWith(passes, s)) <= Newlines(s)
    decreases |passes|
  {
    hide Newlines, Replace, IsPass;
    if passes != [] {
      PassAddsNoNewline(passes[0], false, s);
      PassesAddNoNewline(passes[1..], Replace(passes[0], false, s));
    }
  }

  // ----- what heals has swallowed a newline -----

  /** The assignment pass keeps every newline of `u`. */
  predicate KeepsLines(w: bool, u: string) {
    Newlines(Replace(EnvAssignment, w, u)) == Newlines(u)
  }

  lemma KeepsBehindMatch(w: bool, u: string)
    requires MatchLen(EnvAssignment, w, u) > 0 && KeepsLines(w, u)
    ensures var n := MatchLen(EnvAssignment, w, u); '\n' !in u[..n] && KeepsLines(IsWord(u[n - 1]), u[n..])
  {
    hide MatchLen, Newlines, Replace;
    var n := MatchLen(EnvAssignment, w, u);
    NewlinesOfMatch(EnvAssignment, w, u);
    PassAddsNoNewline(EnvAssignment, IsWord(u[n - 1]), u[n..]);
    NoNewlines(u[..n]);
  }

  lemma KeepsBehindStep(w: bool, u: string)
    requires u != [] && MatchLen(EnvAssignment, w, u) == 0 && KeepsLines(w, u)
    ensures KeepsLines(IsWord(u[0]), u[1..])
  {
    hide MatchLen, Newlines, Replace;
    NewlinesOfStep(EnvAssignment, w, u);
  }

  /** No match starts in `u` before position `n` but at the front. */
  predicate NoNameUpTo(u: string, n: nat)
    requires n <= |u|
  {
    forall i :: 0 < i < n ==> IsWord(u[i - 1]) || !IsUpper(u[i])
  }

  /** Text in which no name starts passes through, and what follows it is rewritten on its own. */
  lemma {:induction false} PlainThrough(w: bool, u: string, n: nat)
    requires 0 < n <= |u| && NoNameUpTo(u, n) && MatchLen(EnvAssignment, w, u) == 0
    ensures var t := Replace(EnvAssignment, w, u);
      n <= |t| && t[..n] == u[..n] && t[n..] == Replace(EnvAssignment, IsWord(u[n - 1]), u[n..])
    decreases n
  {
    hide MatchLen, Replace, IsWord, IsUpper;
    StepOn(w, u);
    if n > 1 {
      var t, x := Replace(EnvAssignment, w, u), u[1..];
      assert IsWord(u[0]) || !IsUpper(u[1]);
      StepOver(IsWord(u[0]), x);
      assert forall i :: 0 < i < n - 1 ==> x[i] == u[i + 1] && x[i - 1] == u[i];
      PlainThrough(IsWord(u[0]), x, n - 1);
      TailParts(u, n);
      TailParts(t, n);
    }
  }

  lemma KeepsBehind(w: bool, u: string, n: nat)
    requires 0 < n <= |u| && NoNameUpTo(u, n)
    requires MatchLen(EnvAssignment, w, u) == 0 && KeepsLines(w, u)
    ensures KeepsLines(IsWord(u[n - 1]), u[n..])
  {
    PlainThrough(w, u, n);
    hide MatchLen, IsWord, NoNameUpTo, Newlines, Replace;
    NewlinesSplit(u, n);
    NewlinesSplit(Replace(EnvAssignment, w, u), n);
  }

  /** The head of an assignment and the quote behind it start no other assignment. */
  lemma HeadStartsNoOther(w: bool, u: string)
    requires var v := ValueStart(w, u); 0 < v < |u| && (u[v] == '"' || u[v] == '\'')
    ensures NoNameUpTo(u, ValueStart(w, u) + 1)
  {
    var v, a := ValueStart(w, u), Run(EnvName, u);
    assert EqualsLen(u[a..]) == v - a > 0;
    hide *;
    EqualsFoundAt(u, a, v);
    HeadAndQuote(u, a, a + Run(Space, u[a..]), v);
  }

  lemma HeadAndQuote(u: string, a: nat, e: nat, v: nat)
    requires a <= e < v < |u| && a == Run(EnvName, u)
    requires All(Space, u[a..e]) && u[e] == '=' && All(Space, u[e + 1..v]) && (u[v] == '"' || u[v] == '\'')
    ensures NoNameUpTo(u, v + 1)
  {
    hide Run, In, All, IsUpper, IsWord;
    forall i | 0 < i < v + 1 ensures IsWord(u[i - 1]) || !IsUpper(u[i]) {
      Apart(u[i]);
      if i <= a {
        RunMembers(EnvName, u, i - 1);
        Apart(u[i - 1]);
      } else if i < e {
        AllAt(Space, u, a, e, i);
      } else if e < i < v {
        AllAt(Space, u, e + 1, v, i);
      }
    }
  }

  lemma AllAt(k: CharClass, u: string, from: nat, to: nat, i: nat)
    requires from <= i < to <= |u| && All(k, u[from..to])
    ensures In(k, u[i])
  {
    hide In;
    assert u[from..to][i - from] == u[i];
  }

  lemma Apart(c: char)
    ensures In(EnvName, c) ==> IsWord(c)
    ensures In(Space, c) || c == '=' || c == '"' || c == '\'' ==> !IsUpper(c)
  {
  }

  lemma {:induction false} ClosesUnswallowed(q: char, w: bool, v: string)
    requires KeepsLines(w, v) && ClosesJoined(q, w, v)
    ensures QuoteLen(q, v) > 0
    decreases |v|
  {
    hide MatchLen, KeepsLines;
    var n := MatchLen(EnvAssignment, w, v);
    if n > 0 {
      KeepsBehindMatch(w, v);
      ClosesUnswallowed(q, IsWord(v[n - 1]), v[n..]);
      QuoteBehind(q, v[..n], v[n..]);
      assert v[..n] + v[n..] == v;
    } else if v[0] != q {
      KeepsBehindStep(w, v);
      ClosesUnswallowed(q, IsWord(v[0]), v[1..]);
    }
  }

  lemma HealsSwallows(w: bool, u: string)
    requires Heals(w, u) && MatchLen(EnvAssignment, w, u) == 0
    ensures !KeepsLines(w, u)
  {
    hide ClosesJoined, QuoteLen, KeepsLines, IsScrubbed, MatchLen, ValueStart;
    var v := ValueStart(w, u);
    if KeepsLines(w, u) {
      HeadStartsNoOther(w, u);
      KeepsBehind(w, u, v + 1);
      ClosesUnswallowed(u[v], false, u[v + 1..]);
    }
  }

  /** A pass behind which an assignment is left has swallowed a newline. */
  lemma {:induction false} HealingSwallows(w: bool, u: string)
    requires !HealingFree(w, u)
    ensures Newlines(Replace(EnvAssignment, w, u)) < Newlines(u)
    decreases |u|
  {
    hide MatchLen, Heals, Newlines, Replace;
    PassAddsNoNewline(EnvAssignment, w, u);
    var n := MatchLen(EnvAssignment, w, u);
    if n > 0 {
      if KeepsLines(w, u) {
        KeepsBehindMatch(w, u);
      }
      if !HealingFree(IsWord(u[n - 1]), u[n..]) {
        HealingSwallows(IsWord(u[n - 1]), u[n..]);
      }
    } else {
      if KeepsLines(w, u) {
        KeepsBehindStep(w, u);
      }
      if Heals(w, u) {
        HealsSwallows(w, u);
      } else {
        HealingSwallows(IsWord(u[0]), u[1..]);
      }
    }
  }

  // ----- scrubbing again and again -----

  /** A scrub that does not settle the text swallows a newline. */
  lemma UnsettledSwallows(s: string)
    requires Scrub(Scrub(s)) != Scrub(s)
    ensures Newlines(Scrub(s)) < Newlines(KeyPasses(s)) <= Newlines(s)
  {
    hide *;
    ScrubIdempotentIff(s);
    ScrubIsKeysThenAssignments(s);
    HealingSwallows(false, KeyPasses(s));
    KeyPassesAddNoNewline(s);
  }

  lemma KeyPassesAddNoNewline(s: string)
    ensures Newlines(KeyPasses(s)) <= Newlines(s)
  {
    forall i | 0 <= i < |KeyPatterns()| ensures IsPass(KeyPatterns()[i]) {
      PatternsAreKeyLike(i);
    }
    hide IsPass, KeyPatterns, ScrubWith, Newlines;
    PassesAddNoNewline(KeyPatterns(), s);
  }

  lemma {:induction false} UnsettledTimes(k: nat, s: string)
    requires k > 0 && Times(k + 1, s) != Times(k, s)
    ensures Newlines(Times(k, s)) + k <= Newlines(s)
    decreases k
  {
    hide Scrub, Newlines;
    var before := Times(k - 1, s);
    assert Scrub(Scrub(before)) != Scrub(before);
    UnsettledSwallows(before);
    if k > 1 {
      UnsettledTimes(k - 1, s);
    }
  }

  /** As many scrubs as the text has lines are enough: any further one changes nothing. */
  lemma LinesManyScrubsSettle(s: string, k: nat)
    requires k > Newlines(s)
    ensures Scrub(Times(k, s)) == Times(k, s)
    ensures Survivors(Patterns(), Times(k, s)) == []
  {
    hide Scrub, Newlines, Patterns, Survivors;
    assert Times(k + 1, s) == Scrub(Times(k, s));
    if Times(k + 1, s) != Times(k, s) {
      UnsettledTimes(k, s);
    }
    assert Times(k, s) == Scrub(Times(k - 1, s));
    VerifierOnScrubbed(Times(k - 1, s));
    ScrubIdempotentIff(Times(k - 1, s));
  }
}
