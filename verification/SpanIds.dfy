/** When the second scrub leaves the span ids of a session distinct. An id is a trace id and a tail such as
    `_root` or `_s12`; a match that reaches into the tail swallows it whole, and with it all that tells two
    tails of one length apart. */
module SpanIds {
  import opened Text
  import opened Decimal
  import opened SecretPatterns
  import opened KeyCleaning
  import opened Scrubber
  import opened Payload
  import opened Transcript
  import opened TranscriptLaws
  import opened Wrappers

  // ----- tails -----

  /** What the converter appends to a trace id. */
  predicate IsTail(a: string) {
    && |a| >= 2 && a[0] == '_' && a[1] in {'r', 'c', 's', 't'}
    && (forall i :: 1 <= i < |a| ==> IsLower(a[i]) || IsDigit(a[i]))
    && IsInert(a)
  }

  /** With `a` behind a text a match reaches at least as far as with `b`: `a` is no shorter, or long enough
      for every pattern. */
  predicate ReachesAsFar(a: string, b: string) {
    IsTail(a) && IsTail(b) && (|a| >= |b| || |a| >= 21)
  }

  /** Two tails that no pattern can tell apart. */
  predicate Twins(a: string, b: string) {
    ReachesAsFar(a, b) && ReachesAsFar(b, a)
  }

  lemma RootAndChatAreTwins()
    ensures Twins("_root", "_chat")
  {
  }

  lemma StepAndToolAreTwins(k: nat)
    ensures Twins("_s" + Digits(k), "_t" + Digits(k))
  {
    var digits := Digits(k);
    SuffixesAreInert(digits);
    hide IsInert, Digits;
  }

  lemma TailParts(u: string, a: string)
    requires IsTail(a)
    ensures |u + a| >= |u| + 2 && (u + a)[|u|] == '_' && (u + a)[|u| + 1] == a[1] && !In(EnvName, a[1])
  {
    hide IsInert;
  }

  lemma RestWithTail(u: string, a: string, v: nat)
    requires v <= |u|
    ensures (u + a)[v..] == u[v..] + a
  {
  }

  lemma FirstOfTail(u: string, a: string)
    requires IsTail(a)
    ensures u + a != [] && (u + a)[0] == if u == [] then '_' else u[0]
  {
    hide IsInert;
  }

  // ----- runs and literals before a tail -----

  lemma TailChars(k: CharClass, a: string, i: nat)
    requires IsTail(a) && i < |a| && k in {Alnum, AlnumUnder, AlnumUnderDash, Opaque, Bare}
    ensures In(k, a[i]) <==> i > 0 || k != Alnum
  {
    hide IsInert;
  }

  /** How far a run over `k` goes into a tail of length `n`. */
  function TailRun(k: CharClass, n: nat): nat {
    match k
    case Alnum => 0
    case Padding => 0
    case Space => 0
    case EnvName => 1
    case _ => n
  }

  lemma RunOfTail(k: CharClass, a: string)
    requires IsTail(a)
    ensures Run(k, a) == TailRun(k, |a|)
  {
    TailParts("", a);
    assert "" + a == a;
    if k in {AlnumUnder, AlnumUnderDash, Opaque, Bare} {
      forall i | 0 <= i < |a| ensures In(k, a[i]) {
        TailChars(k, a, i);
      }
    }
    hide IsTail;
    RunIs(k, a, TailRun(k, |a|));
  }

  lemma {:induction false} RunWithTail(k: CharClass, u: string, a: string)
    requires IsTail(a)
    ensures Run(k, u + a) == if Run(k, u) < |u| then Run(k, u) else |u| + TailRun(k, |a|)
    decreases |u|
  {
    hide In, IsTail, TailRun;
    if u == [] {
      RunOfTail(k, a);
      assert u + a == a;
    } else if In(k, u[0]) {
      RunWithTail(k, u[1..], a);
      assert (u + a)[1..] == u[1..] + a;
    }
  }

  lemma RunThroughRest(k: CharClass, a: string)
    requires IsTail(a) && k in {Alnum, AlnumUnder, AlnumUnderDash}
    ensures Run(k, a[1..]) == |a| - 1
  {
    forall i | 0 <= i < |a| - 1 ensures In(k, a[1..][i]) {
      TailChars(k, a, i + 1);
    }
    hide In, Run, IsTail;
    RunIs(k, a[1..], |a| - 1);
  }

  /** No pattern's literal text reads past the underscore of a tail. */
  predicate StopsAtTail(literal: string) {
    forall i :: 0 <= i < |literal| - 1 && literal[i] == '_' ==> literal[i + 1] !in {'r', 'c', 's', 't'}
  }

  lemma LiteralSeen(literal: string, u: string, a: string, b: string)
    requires IsTail(a) && IsTail(b) && StopsAtTail(literal)
    ensures literal <= u + a <==> literal <= u + b
    ensures literal <= u + a ==> |literal| <= |u| + 1
  {
    hide IsInert;
    var n := |literal|;
    if n > |u| + 1 {
      TailParts(u, a);
      TailParts(u, b);
    } else {
      assert (u + a)[..n] == (u + b)[..n];
    }
  }

  // ----- keys -----

  /** How far the body of a key runs that starts at `n`, before a tail of length `t`. */
  function BodyRun(body: CharClass, u: string, n: nat, t: nat): nat
    requires n <= |u| + 1 && t > 0
  {
    if n > |u| then t - 1
    else if Run(body, u[n..]) < |u| - n then Run(body, u[n..])
    else |u| - n + TailRun(body, t)
  }

  predicate IsBody(k: CharClass) {
    k in {Alnum, AlnumUnder, AlnumUnderDash}
  }

  lemma BodyRunIs(body: CharClass, u: string, n: nat, a: string)
    requires IsTail(a) && IsBody(body) && n <= |u| + 1
    ensures Run(body, (u + a)[n..]) == BodyRun(body, u, n, |a|)
  {
    hide Run, TailRun;
    if n <= |u| {
      RestWithTail(u, a, n);
      RunWithTail(body, u[n..], a);
    } else {
      assert (u + a)[n..] == a[1..];
      RunThroughRest(body, a);
    }
  }

  lemma {:induction false} KeySeen(prefixes: seq<string>, body: CharClass, min: nat, u: string, a: string, b: string)
    requires ReachesAsFar(a, b) && IsBody(body) && min <= 20
    requires forall i :: 0 <= i < |prefixes| ==> StopsAtTail(prefixes[i])
    ensures var m, n := KeyLen(prefixes, body, min, u + a), KeyLen(prefixes, body, min, u + b);
      (m <= |u| ==> n == m) && (m <= |u| || m == |u| + |a|)
    decreases |prefixes|
  {
    hide StopsAtTail, Run, IsInert;
    if prefixes != [] {
      KeySeen(prefixes[1..], body, min, u, a, b);
      var n := |prefixes[0]|;
      LiteralSeen(prefixes[0], u, a, b);
      if prefixes[0] <= u + a {
        BodyRunIs(body, u, n, a);
        BodyRunIs(body, u, n, b);
      }
    }
  }

  // ----- bearer tokens -----

  lemma LiteralBeforeTail(literal: string, u: string, a: string)
    requires IsTail(a) && '_' !in literal && literal <= u + a
    ensures |literal| <= |u|
  {
    TailParts(u, a);
    hide IsTail;
    assert forall i :: 0 <= i < |literal| ==> literal[i] == (u + a)[i] && literal[i] != '_';
  }

  lemma LiteralBehind(literal: string, u: string, a: string)
    requires IsTail(a) && '_' !in literal
    ensures literal <= u + a <==> literal <= u
  {
    hide IsTail;
    if literal <= u + a {
      LiteralBeforeTail(literal, u, a);
      assert literal == (u + a)[..|literal|] == u[..|literal|];
    }
  }

  /** The length of a bearer token that starts `u`, before a tail of length `t`. */
  function BearerWithTail(u: string, t: nat): nat {
    if !("Bearer" <= u || "bearer" <= u) then 0 else
    var gap := Run(Space, u[6..]);
    var token := Run(Opaque, u[6 + gap..]);
    if gap == 0 then 0
    else if 6 + gap + token < |u| then
      if token < 8 then 0 else 6 + gap + token + Run(Padding, u[6 + gap + token..])
    else if token + t < 8 then 0 else |u| + t
  }

  lemma BearerLenIs(u: string, a: string)
    requires IsTail(a)
    ensures BearerLen(u + a) == BearerWithTail(u, |a|)
  {
    LiteralBehind("Bearer", u, a);
    LiteralBehind("bearer", u, a);
    hide Run, IsTail;
    if "Bearer" <= u || "bearer" <= u {
      assert |u| >= 6;
      SchemeWithTail(u, u + a, a);
    }
  }

  lemma SchemeWithTail(u: string, x: string, a: string)
    requires IsTail(a) && x == u + a && |u| >= 6 && ("Bearer" <= u || "bearer" <= u) && ("Bearer" <= x || "bearer" <= x)
    ensures BearerLen(x) == BearerWithTail(u, |a|)
  {
    hide Run, IsTail, BearerLen, BearerWithTail;
    RunBefore(Space, u, 6, a);
    var g := 6 + Run(Space, u[6..]);
    RunBefore(Opaque, u, g, a);
    var k := g + Run(Opaque, u[g..]);
    if k < |u| {
      RunBefore(Padding, u, k, a);
    } else {
      NothingBehind(x);
    }
    BearerByRuns(u, x, g, k, |a|);
  }

  lemma BearerByRuns(u: string, x: string, g: nat, k: nat, t: nat)
    requires ("Bearer" <= u || "bearer" <= u) && ("Bearer" <= x || "bearer" <= x)
    requires 6 <= g <= k <= |u| && |x| == |u| + t
    requires Run(Space, u[6..]) == Run(Space, x[6..]) == g - 6 && Run(Opaque, u[g..]) == k - g
    requires Run(Opaque, x[g..]) == if k < |u| then k - g else k - g + t
    requires if k < |u| then Run(Padding, x[k..]) == Run(Padding, u[k..]) else Run(Padding, x[|x|..]) == 0
    ensures BearerLen(x) == BearerWithTail(u, t)
  {
    hide Run;
  }

  lemma RunBefore(k: CharClass, u: string, n: nat, a: string)
    requires IsTail(a) && n <= |u|
    ensures var r := Run(k, u[n..]); Run(k, (u + a)[n..]) == if n + r < |u| then r else r + TailRun(k, |a|)
  {
    hide Run, IsTail, TailRun;
    RestWithTail(u, a, n);
    RunWithTail(k, u[n..], a);
  }

  lemma NothingBehind(x: string)
    ensures x[|x|..] == [] && Run(Padding, x[|x|..]) == 0
  {
  }

  // ----- assignments -----

  lemma EqualsBefore(y: string, a: string)
    requires IsTail(a)
    ensures EqualsLen(y + a) == EqualsLen(y)
  {
    RunWithTail(Space, y, a);
    TailParts(y, a);
    hide IsTail, Run;
    var e := Run(Space, y);
    RestWithTail(y, a, e);
    if e < |y| {
      FirstStays(y[e..], a);
      RunWithTail(Space, y[e..][1..], a);
    } else {
      assert (y + a)[e..][0] == '_';
    }
  }

  lemma FirstStays(x: string, a: string)
    requires x != []
    ensures (x + a)[0] == x[0] && (x + a)[1..] == x[1..] + a
  {
  }

  lemma NoEqualsInTail(a: string)
    requires IsTail(a)
    ensures EqualsLen(a[1..]) == 0
  {
    hide IsInert;
    assert a[1..][0] == a[1];
    assert Run(Space, a[1..]) == 0;
    assert a[1..][0..] == a[1..];
  }

  /** A name that runs into the tail has no `=` behind it. */
  lemma NameWithTail(u: string, a: string)
    requires IsTail(a)
    ensures var x, r := u + a, Run(EnvName, u);
      if r < |u| then Run(EnvName, x) == r && x[..r] == u[..r] && EqualsLen(x[r..]) == EqualsLen(u[r..])
      else r == |u| && Run(EnvName, x) == |u| + 1 && EqualsLen(x[|u| + 1..]) == EqualsLen(u[r..]) == 0
  {
    RunWithTail(EnvName, u, a);
    hide *;
    var r := Run(EnvName, u);
    assert TailRun(EnvName, |a|) == 1 by {
      EnvTailRun(|a|);
    }
    if r < |u| {
      RestWithTail(u, a, r);
      EqualsBefore(u[r..], a);
      SameFront(u, a, r);
    } else {
      NoEqualsInTail(a);
      BehindUnderscore(u, a);
    }
  }

  lemma EnvTailRun(t: nat)
    ensures TailRun(EnvName, t) == 1
  {
  }

  lemma SameFront(u: string, a: string, n: nat)
    requires n <= |u|
    ensures (u + a)[..n] == u[..n]
  {
  }

  lemma BehindUnderscore(u: string, a: string)
    requires IsTail(a)
    ensures (u + a)[|u| + 1..] == a[1..] && u[|u|..] == [] && EqualsLen(u[|u|..]) == 0
  {
    hide IsInert;
  }

  lemma ValueStartIs(w: bool, u: string, a: string)
    requires IsTail(a)
    ensures ValueStart(w, u + a) == ValueStart(w, u)
  {
    FirstOfTail(u, a);
    NameWithTail(u, a);
    hide IsTail, Run, EqualsLen, IsSecretName;
  }

  lemma {:induction false} QuoteBefore(q: char, y: string, a: string)
    requires IsTail(a) && (q == '"' || q == '\'')
    ensures QuoteLen(q, y + a) == QuoteLen(q, y)
    decreases |y|
  {
    hide IsInert;
    if y == [] {
      assert forall i :: 0 <= i < |a| ==> a[i] != q;
      assert y + a == a;
    } else {
      assert (y + a)[1..] == y[1..] + a;
      QuoteBefore(q, y[1..], a);
    }
  }

  function ValueWithTail(y: string, t: nat): nat {
    if y != [] && (y[0] == '"' || y[0] == '\'') then ValueLen(y)
    else if Run(Bare, y) < |y| then Run(Bare, y)
    else |y| + t
  }

  lemma ValueLenIs(y: string, a: string)
    requires IsTail(a)
    ensures ValueLen(y + a) == ValueWithTail(y, |a|)
  {
    FirstOfTail(y, a);
    hide IsTail, Run, QuoteLen;
    if y != [] && (y[0] == '"' || y[0] == '\'') {
      assert (y + a)[1..] == y[1..] + a;
      QuoteBefore(y[0], y[1..], a);
    } else {
      RunWithTail(Bare, y, a);
    }
  }

  lemma IsScrubbedBefore(y: string, a: string)
    requires IsTail(a)
    ensures IsScrubbed(y + a) <==> IsScrubbed(y)
  {
    FirstOfTail(y, a);
    LiteralBehind("<secret", y, a);
    hide IsTail;
    if y != [] {
      assert (y + a)[1..] == y[1..] + a;
      LiteralBehind("<secret", y[1..], a);
    }
  }

  /** The length of an assignment that starts `u`, before a tail of length `t`. */
  function EnvWithTail(w: bool, u: string, t: nat): nat {
    var v := ValueStart(w, u);
    if v == 0 || IsScrubbed(u[v..]) || ValueWithTail(u[v..], t) == 0 then 0
    else v + ValueWithTail(u[v..], t)
  }

  lemma EnvLenIs(w: bool, u: string, a: string)
    requires IsTail(a)
    ensures EnvLen(w, u + a) == EnvWithTail(w, u, |a|)
  {
    ValueStartIs(w, u, a);
    hide IsTail, ValueStart, ValueLen, ValueWithTail, IsScrubbed;
    var v := ValueStart(w, u);
    RestWithTail(u, a, v);
    ValueLenIs(u[v..], a);
    IsScrubbedBefore(u[v..], a);
  }

  // ----- every pattern -----

  lemma KeyPatternFits(p: Pattern)
    requires p in KeyPatterns() && p.KeyShape?
    ensures IsBody(p.body) && p.min <= 20 && forall i :: 0 <= i < |p.prefixes| ==> StopsAtTail(p.prefixes[i])
  {
  }

  /** The length of the match that starts `u` with a tail behind it. */
  function LenWith(p: Pattern, w: bool, u: string, a: string): nat {
    MatchLen(p, w, u + a)
  }

  lemma BearerSeen(u: string, a: string, b: string)
    requires ReachesAsFar(a, b)
    ensures var m, n := BearerLen(u + a), BearerLen(u + b);
      (m <= |u| ==> n == m) && (m <= |u| || m == |u| + |a|)
  {
    BearerLenIs(u, a);
    BearerLenIs(u, b);
    hide IsTail, BearerLen, Run;
  }

  lemma EnvSeen(w: bool, u: string, a: string, b: string)
    requires ReachesAsFar(a, b)
    ensures var m, n := EnvLen(w, u + a), EnvLen(w, u + b);
      (m <= |u| ==> n == m) && (m <= |u| || m == |u| + |a|)
  {
    EnvLenIs(w, u, a);
    EnvLenIs(w, u, b);
    hide IsTail, EnvLen, ValueStart, ValueWithTail, IsScrubbed, ValueLen, Run;
    var v := ValueStart(w, u);
    ValueSeen(u[v..], |a|, |b|);
  }

  lemma ValueSeen(y: string, s: nat, t: nat)
    requires s > 0 && t > 0
    ensures var m, n := ValueWithTail(y, s), ValueWithTail(y, t);
      (m <= |y| ==> n == m) && (m <= |y| || m == |y| + s)
  {
    hide ValueLen, Run;
  }

  /** A match ends before the tail or takes all of it, and if it ends before the tail it is the same match
      with a tail that reaches no further. */
  lemma MatchSeen(p: Pattern, w: bool, u: string, a: string, b: string)
    requires p in Patterns() && ReachesAsFar(a, b)
    ensures var m, n := LenWith(p, w, u, a), LenWith(p, w, u, b);
      (m <= |u| ==> n == m) && (m <= |u| || m == |u| + |a|)
  {
    hide KeyLen, StopsAtTail, EnvLen, BearerLen, ReachesAsFar;
    if p.KeyShape? {
      KeyPatternFits(p);
      hide KeyPatterns;
      KeySeen(p.prefixes, p.body, p.min, u, a, b);
    } else if p.BearerToken? {
      hide KeyPatterns;
      BearerSeen(u, a, b);
    } else {
      hide KeyPatterns;
      EnvSeen(w, u, a, b);
    }
  }

  /** A match ends before the tail or takes all of it. */
  lemma MatchIntoTail(p: Pattern, w: bool, u: string, a: string)
    requires p in Patterns() && IsTail(a)
    ensures MatchLen(p, w, u + a) <= |u| || MatchLen(p, w, u + a) == |u + a|
  {
    hide Patterns, IsTail, MatchLen;
    MatchSeen(p, w, u, a, a);
  }

  // ----- one pass -----

  /** What a match of length `n` at the front of `u` leaves for the pass, or 0 for none. */
  function Behind(u: string, n: nat): (rest: string)
    requires u != [] && n <= |u|
    ensures |rest| < |u|
  {
    u[if n == 0 then 1 else n..]
  }

  function WordBehind(u: string, n: nat): bool
    requires u != [] && n <= |u|
  {
    IsWord(u[if n == 0 then 0 else n - 1])
  }

  /** What the pass writes for it. */
  function Written(p: Pattern, u: string, a: string, n: nat): string
    requires u != []
  {
    if n == 0 then [u[0]] else Replacement(p, u + a)
  }

  /** Some match of `p` in `u` with the tail behind it reaches into the tail. */
  predicate Reaches(p: Pattern, w: bool, u: string, a: string)
    decreases |u|
  {
    u != [] &&
      var n := LenWith(p, w, u, a);
      n > |u| || Reaches(p, WordBehind(u, n), Behind(u, n), a)
  }

  /** What the pass makes of `u` with the tail behind it, up to the tail or to where it is swallowed. */
  function Kept(p: Pattern, w: bool, u: string, a: string): string
    decreases |u|
  {
    if u == [] then []
    else
      var n := LenWith(p, w, u, a);
      Written(p, u, a, n) + if n > |u| then [] else Kept(p, WordBehind(u, n), Behind(u, n), a)
  }

  lemma WrittenSeen(p: Pattern, u: string, a: string, b: string, n: nat)
    requires ReachesAsFar(a, b) && u != []
    ensures Written(p, u, a, n) == Written(p, u, b, n)
  {
    SameName(u, a, b);
    hide ReachesAsFar, Run;
  }

  lemma SameName(u: string, a: string, b: string)
    requires ReachesAsFar(a, b)
    ensures var r := Run(EnvName, u + a); Run(EnvName, u + b) == r && (u + a)[..r] == (u + b)[..r]
  {
    hide Run, IsTail, TailRun;
    RunWithTail(EnvName, u, a);
    RunWithTail(EnvName, u, b);
    EnvTailRun(|a|);
    EnvTailRun(|b|);
    TailParts(u, a);
    TailParts(u, b);
    SamePrefix(u + a, u + b, |u| + 1, Run(EnvName, u + a));
  }

  lemma SamePrefix(x: string, y: string, m: nat, n: nat)
    requires n <= m <= |x| && m <= |y| && forall i :: 0 <= i < m ==> x[i] == y[i]
    ensures x[..n] == y[..n]
  {
  }

  lemma {:induction false} PassKeepsTail(p: Pattern, w: bool, u: string, a: string)
    requires p in Patterns() && IsTail(a)
    ensures Replace(p, w, u + a) == Kept(p, w, u, a) + if Reaches(p, w, u, a) then [] else a
    decreases |u|
  {
    hide Replace, Patterns, LenWith, Written, Behind, WordBehind, IsTail;
    if u == [] {
      TailIsLeftAlone(p, w, a);
      assert u + a == a && [] + a == a;
    } else {
      var n := LenWith(p, w, u, a);
      var tail := if Reaches(p, w, u, a) then [] else a;
      MatchSeen(p, w, u, a, a);
      ReplaceUnfolds(p, w, u, a);
      if n <= |u| {
        PassKeepsTail(p, WordBehind(u, n), Behind(u, n), a);
        Regroup(Written(p, u, a, n), Kept(p, WordBehind(u, n), Behind(u, n), a), tail);
      } else {
        Regroup(Written(p, u, a, n), [], []);
      }
    }
  }

  lemma Regroup(x: string, y: string, z: string)
    ensures (x + y) + z == x + (y + z) && x + [] == x
  {
  }

  lemma ReplaceUnfolds(p: Pattern, w: bool, u: string, a: string)
    requires u != [] && (LenWith(p, w, u, a) <= |u| || LenWith(p, w, u, a) == |u| + |a|)
    ensures var n := LenWith(p, w, u, a);
      Replace(p, w, u + a) ==
        Written(p, u, a, n) + if n <= |u| then Replace(p, WordBehind(u, n), Behind(u, n) + a) else []
  {
    hide MatchLen, Replacement, IsWord;
    var n := LenWith(p, w, u, a);
    if n <= |u| {
      RestWithTail(u, a, if n == 0 then 1 else n);
    } else {
      assert (u + a)[n..] == [];
    }
  }

  lemma TailIsLeftAlone(p: Pattern, w: bool, a: string)
    requires p in Patterns() && IsTail(a)
    ensures Replace(p, w, a) == a
  {
    hide Patterns, IsInert;
    InertIsClean(p, w, a);
    ReplaceKeepsClean(p, w, a);
  }

  /** What reaches into a tail reaches into any that reaches as far. */
  lemma {:induction false} PassSeen(p: Pattern, w: bool, u: string, a: string, b: string)
    requires p in Patterns() && ReachesAsFar(a, b) && !Reaches(p, w, u, a)
    ensures !Reaches(p, w, u, b) && Kept(p, w, u, a) == Kept(p, w, u, b)
    decreases |u|
  {
    hide Patterns, LenWith, Written, Behind, WordBehind, ReachesAsFar;
    if u != [] {
      var n := LenWith(p, w, u, a);
      MatchSeen(p, w, u, a, b);
      WrittenSeen(p, u, a, b, n);
      PassSeen(p, WordBehind(u, n), Behind(u, n), a, b);
    }
  }

  lemma {:induction false} PassTwins(p: Pattern, w: bool, u: string, a: string, b: string)
    requires p in Patterns() && Twins(a, b)
    ensures Reaches(p, w, u, a) == Reaches(p, w, u, b) && Kept(p, w, u, a) == Kept(p, w, u, b)
    decreases |u|
  {
    TwinsAreTails(a, b);
    hide Patterns, LenWith, Written, Behind, WordBehind, ReachesAsFar, Twins, IsTail;
    if u != [] {
      var n := LenWith(p, w, u, a);
      MatchSeen(p, w, u, a, b);
      MatchSeen(p, w, u, b, a);
      WrittenSeen(p, u, a, b, n);
      if n <= |u| {
        PassTwins(p, WordBehind(u, n), Behind(u, n), a, b);
      } else {
        WrittenSeen(p, u, a, b, LenWith(p, w, u, b));
        WrittenOnce(p, u, a, n, LenWith(p, w, u, b));
      }
    }
  }

  lemma WrittenOnce(p: Pattern, u: string, a: string, m: nat, n: nat)
    requires u != [] && m > 0 && n > 0
    ensures Written(p, u, a, m) == Written(p, u, a, n)
  {
    hide Replacement;
  }

  // ----- all passes -----

  /** Some pass, on the text the passes before it left, swallows the tail. */
  predicate Swallowed(passes: seq<Pattern>, u: string, a: string)
    decreases |passes|
  {
    passes != [] &&
      (Reaches(passes[0], false, u, a) || Swallowed(passes[1..], Kept(passes[0], false, u, a), a))
  }

  /** The second scrub swallows the tail of a span id; computed from the trace id and the tail. */
  predicate TailSwallowed(traceId: string, a: string) {
    Swallowed(Patterns(), traceId, a)
  }

  ghost predicate EndsIn(s: string, a: string) {
    exists head: string :: s == head + a
  }

  /** A tail that no pass swallows is still there at the end. */
  lemma {:induction false} KeptTail(passes: seq<Pattern>, u: string, a: string)
    requires (forall i :: 0 <= i < |passes| ==> passes[i] in Patterns()) && IsTail(a) && !Swallowed(passes, u, a)
    ensures EndsIn(ScrubWith(passes, u + a), a)
    decreases |passes|
  {
    hide Replace, Reaches, Kept, Patterns, IsTail;
    if passes != [] {
      PassKeepsTail(passes[0], false, u, a);
      KeptTail(passes[1..], Kept(passes[0], false, u, a), a);
    }
  }

  /** Twins are scrubbed to the same text exactly when their tails are swallowed. */
  lemma {:induction false} ScrubTwinsIff(passes: seq<Pattern>, u: string, a: string, b: string)
    requires (forall i :: 0 <= i < |passes| ==> passes[i] in Patterns()) && Twins(a, b) && a != b
    ensures ScrubWith(passes, u + a) == ScrubWith(passes, u + b) <==> Swallowed(passes, u, a)
    ensures Swallowed(passes, u, a) == Swallowed(passes, u, b)
    decreases |passes|
  {
    TwinsAreTails(a, b);
    hide Replace, Reaches, Kept, Patterns, IsTail, Twins;
    if passes == [] {
      if u + a == u + b {
        TailsTell(u, a, u, b);
      }
    } else {
      PassKeepsTail(passes[0], false, u, a);
      PassKeepsTail(passes[0], false, u, b);
      PassTwins(passes[0], false, u, a, b);
      var kept := Kept(passes[0], false, u, a);
      if Reaches(passes[0], false, u, a) {
        assert kept + [] == kept;
      } else {
        ScrubTwinsIff(passes[1..], kept, a, b);
      }
    }
  }

  lemma TwinsAreTails(a: string, b: string)
    requires Twins(a, b)
    ensures IsTail(a) && IsTail(b) && ReachesAsFar(a, b) && ReachesAsFar(b, a)
  {
    hide IsTail;
  }

  /** A text tells its tail: it starts at the last underscore. */
  lemma TailsTell(x: string, a: string, y: string, b: string)
    requires IsTail(a) && IsTail(b) && x + a == y + b
    ensures a == b
  {
    var z := x + a;
    TailStart(x, a);
    TailStart(y, b);
    hide IsTail;
    assert |x| == |y|;
    assert a == z[|x|..] && b == z[|y|..];
  }

  lemma TailStart(x: string, a: string)
    requires IsTail(a)
    ensures |x| < |x + a| && (x + a)[|x|] == '_' && forall i :: |x| < i < |x + a| ==> (x + a)[i] != '_'
  {
    hide IsInert;
    assert forall i :: |x| < i < |x + a| ==> (x + a)[i] == a[i - |x|];
  }

  // ----- the ids of a session -----

  /** Root and chat get one and the same id exactly when the tail is swallowed. */
  lemma RootAndChatCollideIff(traceId: string)
    ensures Scrub(RootId(traceId)) == Scrub(ChatId(traceId)) <==> TailSwallowed(traceId, "_root")
    ensures TailSwallowed(traceId, "_root") == TailSwallowed(traceId, "_chat")
  {
    RootAndChatAreTwins();
    hide Swallowed, ScrubWith, Patterns, Twins;
    ScrubTwinsIff(Patterns(), traceId, "_root", "_chat");
  }

  function StepTail(k: nat): string {
    "_s" + Digits(k)
  }

  function ToolTail(k: nat): string {
    "_t" + Digits(k)
  }

  lemma IdsOf(traceId: string, k: nat)
    ensures StepId(traceId, k) == traceId + StepTail(k) && ToolId(traceId, k) == traceId + ToolTail(k)
    ensures StepTail(k) != ToolTail(k)
  {
    hide Digits;
    assert StepTail(k)[1] == 's' && ToolTail(k)[1] == 't';
  }

  /** So do the model call and the tool call of one number. */
  lemma StepAndToolCollideIff(traceId: string, k: nat)
    ensures Scrub(StepId(traceId, k)) == Scrub(ToolId(traceId, k)) <==> TailSwallowed(traceId, StepTail(k))
    ensures TailSwallowed(traceId, StepTail(k)) == TailSwallowed(traceId, ToolTail(k))
  {
    StepAndToolAreTwins(k);
    IdsOf(traceId, k);
    hide Swallowed, ScrubWith, Patterns, Twins, StepId, ToolId, Digits;
    ScrubTwinsIff(Patterns(), traceId, StepTail(k), ToolTail(k));
  }

  // ----- whole sessions -----

  function TailOf(key: Key): string {
    match key
    case StepKey(k) => StepTail(k)
    case ToolKey(k) => ToolTail(k)
  }

  /** The tail of the `i`-th span: root, body, chat. */
  function TailAt(keys: seq<Key>, i: nat): string {
    if i == 0 then "_root" else if i <= |keys| then TailOf(keys[i - 1]) else "_chat"
  }

  lemma IdAt(records: seq<Record>, traceId: string, i: nat)
    requires i < |RawSpans(records, traceId)|
    ensures RawSpans(records, traceId)[i].spanId == traceId + TailAt(BodyKeys(records), i)
    ensures IsTail(TailAt(BodyKeys(records), i))
    ensures |RawSpans(records, traceId)| == |BodyKeys(records)| + 2
  {
    RawIdShape(records, traceId);
    RootAndChatAreTwins();
    var keys := BodyKeys(records);
    hide RawSpans, BodyKeys, Digits, IsTail;
    assert Ids(RawSpans(records, traceId))[i] == RawSpans(records, traceId)[i].spanId;
    TwinsAreTails("_root", "_chat");
    if 1 <= i <= |keys| {
      var k := keys[i - 1].k;
      IdsOf(traceId, k);
      StepAndToolAreTwins(k);
      TwinsAreTails(StepTail(k), ToolTail(k));
    }
  }

  /** No span of the session has its tail swallowed. */
  ghost predicate NoneSwallowed(records: seq<Record>, traceId: string) {
    forall i :: 0 <= i < |BodyKeys(records)| + 2 ==> !TailSwallowed(traceId, TailAt(BodyKeys(records), i))
  }

  lemma ScrubKeepsTail(traceId: string, a: string)
    requires IsTail(a) && !TailSwallowed(traceId, a)
    ensures EndsIn(Scrub(traceId + a), a)
  {
    hide Swallowed, ScrubWith, Patterns, IsTail, EndsIn;
    KeptTail(Patterns(), traceId, a);
  }

  lemma EndsInTells(s: string, a: string, b: string)
    requires IsTail(a) && IsTail(b) && EndsIn(s, a) && EndsIn(s, b)
    ensures a == b
  {
    hide IsTail;
    var x: string :| s == x + a;
    var y: string :| s == y + b;
    TailsTell(x, a, y, b);
  }

  /** The emitted ids of a session differ as long as no tail of theirs is swallowed. */
  lemma EmittedIdsDistinctUnlessSwallowed(records: seq<Record>, traceId: string)
    requires NoneSwallowed(records, traceId)
    ensures NoDuplicates(Ids(ScrubSpans(RawSpans(records, traceId))))
  {
    var raw, keys := RawSpans(records, traceId), BodyKeys(records);
    RawIdsDistinct(records, traceId);
    hide RawSpans, BodyKeys, Scrub, TailAt, TailSwallowed, IsTail, EndsIn;
    forall i, j | 0 <= i < j < |raw| ensures Scrub(raw[i].spanId) != Scrub(raw[j].spanId) {
      IdAt(records, traceId, i);
      IdAt(records, traceId, j);
      ScrubKeepsTail(traceId, TailAt(keys, i));
      ScrubKeepsTail(traceId, TailAt(keys, j));
      assert Ids(raw)[i] != Ids(raw)[j];
      if Scrub(raw[i].spanId) == Scrub(raw[j].spanId) {
        EndsInTells(Scrub(raw[i].spanId), TailAt(keys, i), TailAt(keys, j));
      }
    }
  }

  /** A tail that is swallowed takes every tail with it that reaches as far. */
  lemma {:induction false} SwallowedSeen(passes: seq<Pattern>, u: string, a: string, b: string)
    requires (forall i :: 0 <= i < |passes| ==> passes[i] in Patterns()) && ReachesAsFar(a, b)
    requires Swallowed(passes, u, b)
    ensures Swallowed(passes, u, a)
    decreases |passes|
  {
    hide Reaches, Kept, Patterns, ReachesAsFar;
    if !Reaches(passes[0], false, u, a) {
      PassSeen(passes[0], false, u, a, b);
      SwallowedSeen(passes[1..], Kept(passes[0], false, u, a), a, b);
    }
  }

  lemma TailSwallowedSeen(traceId: string, a: string, b: string)
    requires ReachesAsFar(a, b) && TailSwallowed(traceId, b)
    ensures TailSwallowed(traceId, a)
  {
    hide Swallowed, Patterns, ReachesAsFar;
    SwallowedSeen(Patterns(), traceId, a, b);
  }

  lemma {:induction false} DigitsOfPow10(e: nat)
    ensures Pow10(e) > 0 && |Digits(Pow10(e))| == e + 1
  {
    if e > 0 {
      DigitsOfPow10(e - 1);
    }
  }

  /** The number of the first model call whose tail is long enough for every pattern. */
  function LongNumber(): nat {
    Pow10(18)
  }

  /** The trace id keeps even a long tail. One evaluation answers it. */
  predicate NeverSwallowed(traceId: string) {
    !TailSwallowed(traceId, StepTail(LongNumber()))
  }

  lemma LongTail()
    ensures LongNumber() > 0 && |StepTail(LongNumber())| == 21 && IsTail(StepTail(LongNumber()))
  {
    DigitsOfPow10(18);
    StepAndToolAreTwins(LongNumber());
    hide Digits, Pow10, IsTail;
  }

  lemma TailsAreTails(records: seq<Record>, i: nat)
    requires i < |BodyKeys(records)| + 2
    ensures IsTail(TailAt(BodyKeys(records), i))
  {
    RawIdShape(records, "");
    IdAt(records, "", i);
  }

  lemma NeverSwallowedAt(records: seq<Record>, traceId: string)
    requires NeverSwallowed(traceId)
    ensures NoneSwallowed(records, traceId)
  {
    LongTail();
    hide BodyKeys, TailSwallowed, StepTail, IsTail, TailAt, LongNumber;
    forall i | 0 <= i < |BodyKeys(records)| + 2 ensures !TailSwallowed(traceId, TailAt(BodyKeys(records), i)) {
      TailsAreTails(records, i);
      if TailSwallowed(traceId, TailAt(BodyKeys(records), i)) {
        TailSwallowedSeen(traceId, StepTail(LongNumber()), TailAt(BodyKeys(records), i));
      }
    }
  }

  /** A session of `k` records that each say something and call a tool. */
  function Busy(k: nat): (records: seq<Record>)
    ensures |records| == k
  {
    if k == 0 then [] else Busy(k - 1) + [Record("assistant", None, None, Blocks([TextBlock("x"), ToolUse(None, "t", "")]), 0, 0)]
  }

  lemma BusyRecord(r: Record)
    requires r == Record("assistant", None, None, Blocks([TextBlock("x"), ToolUse(None, "t", "")]), 0, 0)
    ensures IsStep(r) && |ToolUses(r.content.blocks)| == 1
  {
    var blocks := r.content.blocks;
    assert blocks[0].TextBlock? && blocks[1..] == [blocks[1]] && Texts([blocks[1]]) == [];
    assert Texts(blocks) == ["x"];
    assert AsText(r.content) == "x" && "x"[0] == 'x';
    assert Init(blocks) == [blocks[0]] && Init([blocks[0]]) == [];
    assert ToolUses([blocks[0]]) == [];
  }

  lemma {:induction false} BusyKeys(k: nat)
    ensures |Steps(Busy(k))| == k && |ToolCalls(Busy(k))| == k
    ensures k > 0 ==> BodyKeys(Busy(k)) == BodyKeys(Busy(k - 1)) + [StepKey(k), ToolKey(k)]
  {
    if k > 0 {
      BusyKeys(k - 1);
      var r := Last(Busy(k));
      assert Init(Busy(k)) == Busy(k - 1);
      BusyRecord(r);
      hide IsStep, ToolUses, Busy;
      assert RecordKeys(r, k - 1, k - 1) == [StepKey(k), ToolKey(k)];
    }
  }

  lemma SwallowedStepCollides(traceId: string, k: nat)
    requires k > 0 && TailSwallowed(traceId, StepTail(k))
    ensures !NoDuplicates(Ids(ScrubSpans(RawSpans(Busy(k), traceId))))
  {
    BusyKeys(k);
    StepAndToolCollideIff(traceId, k);
    RawIdShape(Busy(k), traceId);
    var keys, raw := BodyKeys(Busy(k)), RawSpans(Busy(k), traceId);
    hide BodyKeys, Busy, RawSpans, Scrub, Digits, TailSwallowed, Steps, ToolCalls;
    var n := |keys|;
    assert keys[n - 2] == StepKey(k) && keys[n - 1] == ToolKey(k);
    assert Ids(raw)[n - 1] == KeyId(traceId, keys[n - 2]) && Ids(raw)[n] == KeyId(traceId, keys[n - 1]);
    assert Ids(ScrubSpans(raw))[n - 1] == Ids(ScrubSpans(raw))[n];
  }

  lemma SwallowedRootCollides(records: seq<Record>, traceId: string)
    requires TailSwallowed(traceId, "_root")
    ensures !NoDuplicates(Ids(ScrubSpans(RawSpans(records, traceId))))
  {
    RootAndChatCollideIff(traceId);
    RawIdShape(records, traceId);
    var n, raw := |BodyKeys(records)| + 1, RawSpans(records, traceId);
    hide BodyKeys, RawSpans, Scrub, TailSwallowed, RootId, ChatId;
    assert Ids(raw)[0] == RootId(traceId) && Ids(raw)[n] == ChatId(traceId);
    assert Ids(ScrubSpans(raw))[0] == Ids(ScrubSpans(raw))[n];
  }

  /** The emitted ids of every session differ exactly when the trace id keeps a long tail. */
  lemma EmittedIdsDistinctIff(traceId: string)
    ensures (forall records :: NoDuplicates(Ids(ScrubSpans(RawSpans(records, traceId))))) <==> NeverSwallowed(traceId)
  {
    hide RawSpans, ScrubSpans, TailSwallowed, NoDuplicates, Digits, StepTail;
    if NeverSwallowed(traceId) {
      forall records ensures NoDuplicates(Ids(ScrubSpans(RawSpans(records, traceId)))) {
        NeverSwallowedAt(records, traceId);
        EmittedIdsDistinctUnlessSwallowed(records, traceId);
      }
    } else {
      LongTail();
      hide LongNumber, IsTail;
      SwallowedStepCollides(traceId, LongNumber());
    }
  }

  /** The ids of a session with fewer than a thousand model calls and tool calls differ exactly when the
      tail of its root is kept: no tail of it is longer. */
  lemma ShortSessionIdsDistinctIff(records: seq<Record>, traceId: string)
    requires |Steps(records)| < 1000 && |ToolCalls(records)| < 1000
    ensures NoDuplicates(Ids(ScrubSpans(RawSpans(records, traceId)))) <==> !TailSwallowed(traceId, "_root")
  {
    hide Steps, ToolCalls, BodyKeys, RawSpans, ScrubSpans, TailSwallowed, NoDuplicates, TailAt, IsTail;
    if TailSwallowed(traceId, "_root") {
      SwallowedRootCollides(records, traceId);
    } else {
      forall i | 0 <= i < |BodyKeys(records)| + 2 ensures !TailSwallowed(traceId, TailAt(BodyKeys(records), i)) {
        ShortTail(records, i);
        if TailSwallowed(traceId, TailAt(BodyKeys(records), i)) {
          TailSwallowedSeen(traceId, "_root", TailAt(BodyKeys(records), i));
        }
      }
      EmittedIdsDistinctUnlessSwallowed(records, traceId);
    }
  }

  lemma ShortTail(records: seq<Record>, i: nat)
    requires |Steps(records)| < 1000 && |ToolCalls(records)| < 1000 && i < |BodyKeys(records)| + 2
    ensures ReachesAsFar("_root", TailAt(BodyKeys(records), i))
  {
    TailsAreTails(records, i);
    BodyKeysDistinct(records);
    RootAndChatAreTwins();
    TwinsAreTails("_root", "_chat");
    hide Steps, ToolCalls, BodyKeys, Digits, IsTail;
    if 1 <= i <= |BodyKeys(records)| {
      assert Pow10(3) == 1000;
      DigitsCount(BodyKeys(records)[i - 1].k, 3);
    }
  }

  /** A trace id that stays inert with an underscore behind it, as those made from file names do, is such. */
  lemma InertIsNeverSwallowed(traceId: string)
    requires IsInert(traceId + "_")
    ensures NeverSwallowed(traceId)
  {
    hide IsInert, TailSwallowed, Scrub, Digits, StepTail, RawSpans, ScrubSpans;
    forall records ensures NoDuplicates(Ids(ScrubSpans(RawSpans(records, traceId)))) {
      EmittedIdsDistinct(records, traceId);
    }
    EmittedIdsDistinctIff(traceId);
  }

  /** Trace ids of the shape of a Potion key, `pk` among them, lose the tails of root and chat. */
  lemma KeyShapedTraceIdIsSwallowed(traceId: string)
    requires "pk_" <= traceId + "_" && forall i :: 0 <= i < |traceId| ==> IsWord(traceId[i])
    ensures TailSwallowed(traceId, "_root") && !NeverSwallowed(traceId)
  {
    KeyShapedTraceIdCollides(traceId);
    hide Scrub, TailSwallowed, StepTail, LongNumber;
    RootAndChatCollideIff(traceId);
    LongReachesRoot();
    TailSwallowedSeen(traceId, StepTail(LongNumber()), "_root");
  }

  lemma LongReachesRoot()
    ensures ReachesAsFar(StepTail(LongNumber()), "_root")
  {
    LongTail();
    RootAndChatAreTwins();
    TwinsAreTails("_root", "_chat");
    hide IsTail, StepTail, LongNumber;
  }
}
