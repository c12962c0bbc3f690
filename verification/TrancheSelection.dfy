/** Picking a tranche: the newest candidate of every vendor and class, then the newest few of each
    class. */
module TrancheSelection {

  datatype Class = Cheap | Mid | Strong | Judge

  datatype Cand = Cand(id: string, vendor: string, cls: Class, created: int, tools: bool)

  function ClassName(cls: Class): string {
    match cls
    case Cheap => "cheap"
    case Mid => "mid"
    case Strong => "strong"
    case Judge => "judge"
  }

  /** The key of the map. */
  function Key(c: Cand): string {
    c.vendor + "|" + ClassName(c.cls)
  }

  predicate SameGroup(a: Cand, b: Cand) {
    Key(a) == Key(b)
  }

  /** Newer, or of the same day and the only one of the two with tools. */
  predicate Beats(a: Cand, b: Cand) {
    a.created > b.created || (a.created == b.created && a.tools && !b.tools)
  }

  // ----- the fold -----

  /** Where a group stands among its representatives; a `Map` keeps the order of first insertion. */
  function IndexOf(best: seq<Cand>, c: Cand): (i: nat)
    ensures i <= |best|
    ensures i < |best| ==> SameGroup(best[i], c)
    ensures forall j :: 0 <= j < i ==> !SameGroup(best[j], c)
  {
    if best == [] || SameGroup(best[0], c) then 0 else 1 + IndexOf(best[1..], c)
  }

  function Add(best: seq<Cand>, c: Cand): seq<Cand> {
    var i := IndexOf(best, c);
    if i == |best| then best + [c] else if Beats(c, best[i]) then best[i := c] else best
  }

  function Representatives(cands: seq<Cand>): seq<Cand> {
    if cands == [] then [] else Add(Representatives(cands[..|cands| - 1]), cands[|cands| - 1])
  }

  /** No candidate of the group of `cands[i]` beats it, and it beats every one before it. */
  ghost predicate IsFirstMaximal(cands: seq<Cand>, i: nat) {
    && i < |cands|
    && (forall j :: 0 <= j < |cands| && SameGroup(cands[j], cands[i]) ==> !Beats(cands[j], cands[i]))
    && (forall j :: 0 <= j < i && SameGroup(cands[j], cands[i]) ==> Beats(cands[i], cands[j]))
  }

  ghost predicate OnePerGroup(best: seq<Cand>) {
    forall i, j :: 0 <= i < j < |best| ==> !SameGroup(best[i], best[j])
  }

  ghost predicate FromFirstMaximal(cands: seq<Cand>, c: Cand) {
    exists i: nat :: IsFirstMaximal(cands, i) && cands[i] == c
  }

  lemma {:induction false} RepresentativesAre(cands: seq<Cand>)
    ensures OnePerGroup(Representatives(cands))
    ensures forall r :: r in Representatives(cands) ==> FromFirstMaximal(cands, r)
    ensures forall c :: c in cands ==> IndexOf(Representatives(cands), c) < |Representatives(cands)|
    decreases |cands|
  {
    if cands != [] {
      var n := |cands| - 1;
      var before, c := cands[..n], cands[n];
      RepresentativesAre(before);
      AddStep(before, c, Representatives(before));
      assert before + [c] == cands;
    }
  }

  lemma AddStep(before: seq<Cand>, c: Cand, best: seq<Cand>)
    requires OnePerGroup(best)
    requires forall r :: r in best ==> FromFirstMaximal(before, r)
    requires forall d :: d in before ==> IndexOf(best, d) < |best|
    ensures OnePerGroup(Add(best, c))
    ensures forall r :: r in Add(best, c) ==> FromFirstMaximal(before + [c], r)
    ensures forall d :: d in before + [c] ==> IndexOf(Add(best, c), d) < |Add(best, c)|
  {
    hide FromFirstMaximal;
    var after := Add(best, c);
    var k := IndexOf(best, c);
    forall r | r in after ensures FromFirstMaximal(before + [c], r) {
      if r in best && !(SameGroup(r, c) && Beats(c, r)) {
        StillMaximal(before, c, r);
      } else {
        NewMaximal(before, c, best, k);
      }
    }
    forall d | d in before + [c] ensures IndexOf(after, d) < |after| {
      GroupStays(best, c, d);
    }
  }

  lemma GroupStays(best: seq<Cand>, c: Cand, d: Cand)
    requires IndexOf(best, d) < |best| || d == c
    ensures IndexOf(Add(best, c), d) < |Add(best, c)|
  {
    var i := IndexOf(if d == c then Add(best, c) else best, d);
    var after := Add(best, c);
    if IndexOf(best, d) < |best| {
      assert SameGroup(after[IndexOf(best, d)], d);
    } else {
      assert SameGroup(after[|best|], d);
    }
  }

  lemma StillMaximal(before: seq<Cand>, c: Cand, r: Cand)
    requires FromFirstMaximal(before, r) && !(SameGroup(r, c) && Beats(c, r))
    ensures FromFirstMaximal(before + [c], r)
  {
    hide Beats, SameGroup;
    var i: nat :| IsFirstMaximal(before, i) && before[i] == r;
    var all := before + [c];
    SameGroupCommutes(r, c);
    forall j | 0 <= j < |all| && SameGroup(all[j], all[i]) ensures !Beats(all[j], all[i]) {
      if j < |before| {
        assert all[j] == before[j];
      }
    }
    assert IsFirstMaximal(all, i);
  }

  lemma SameGroupCommutes(a: Cand, b: Cand)
    ensures SameGroup(a, b) == SameGroup(b, a)
  {
  }

  lemma NewMaximal(before: seq<Cand>, c: Cand, best: seq<Cand>, k: nat)
    requires forall r :: r in best ==> FromFirstMaximal(before, r)
    requires forall d :: d in before ==> IndexOf(best, d) < |best|
    requires OnePerGroup(best)
    requires k == IndexOf(best, c) && (k < |best| ==> Beats(c, best[k]))
    ensures FromFirstMaximal(before + [c], c)
  {
    hide FromFirstMaximal, IndexOf, OnePerGroup;
    forall d | d in before && SameGroup(d, c) ensures Beats(c, d) {
      EarlierIsBeaten(before, c, best, d);
    }
    LastIsFirstMaximal(before, c);
  }

  lemma LastIsFirstMaximal(before: seq<Cand>, c: Cand)
    requires forall d :: d in before && SameGroup(d, c) ==> Beats(c, d)
    ensures FromFirstMaximal(before + [c], c)
  {
    var all := before + [c];
    forall j | 0 <= j < |before| ensures all[j] in before {
    }
    assert IsFirstMaximal(all, |before|);
  }

  lemma EarlierIsBeaten(before: seq<Cand>, c: Cand, best: seq<Cand>, d: Cand)
    requires forall r :: r in best ==> FromFirstMaximal(before, r)
    requires IndexOf(best, d) < |best| && OnePerGroup(best)
    requires var k := IndexOf(best, c); k < |best| ==> Beats(c, best[k])
    requires d in before && SameGroup(d, c)
    ensures Beats(c, d)
  {
    SameIndex(best, c, d);
    var r := best[IndexOf(best, d)];
    assert r in best;
    var i: nat :| IsFirstMaximal(before, i) && before[i] == r;
    var j :| 0 <= j < |before| && before[j] == d;
    assert !Beats(before[j], before[i]);
  }

  lemma {:induction false} SameIndex(best: seq<Cand>, c: Cand, d: Cand)
    requires SameGroup(c, d)
    ensures IndexOf(best, c) == IndexOf(best, d)
  {
    if best != [] {
      SameIndex(best[1..], c, d);
    }
  }

  /** The representatives are exactly the first maximal candidates, one of every group. */
  lemma RepresentativesAreExactly(cands: seq<Cand>, c: Cand)
    ensures OnePerGroup(Representatives(cands))
    ensures c in Representatives(cands) <==> FromFirstMaximal(cands, c)
  {
    hide Representatives;
    RepresentativesAre(cands);
    if FromFirstMaximal(cands, c) {
      var i: nat :| IsFirstMaximal(cands, i) && cands[i] == c;
      var best := Representatives(cands);
      assert c in cands;
      var r := best[IndexOf(best, c)];
      assert r in best;
      var j: nat :| IsFirstMaximal(cands, j) && cands[j] == r;
      FirstMaximalUnique(cands, i, j);
    }
  }

  lemma FirstMaximalUnique(cands: seq<Cand>, i: nat, j: nat)
    requires IsFirstMaximal(cands, i) && IsFirstMaximal(cands, j) && SameGroup(cands[i], cands[j])
    ensures i == j
  {
    SameGroupCommutes(cands[i], cands[j]);
  }

  // ----- the candidates themselves -----

  predicate Alike(a: Cand, b: Cand) {
    a.vendor == b.vendor && a.cls == b.cls
  }

  /** A key tells vendor and class apart, whatever the vendor is called. */
  lemma SameGroupIff(a: Cand, b: Cand)
    ensures SameGroup(a, b) <==> Alike(a, b)
  {
    if SameGroup(a, b) {
      LastBar(a);
      LastBar(b);
      hide ClassName;
      assert |a.vendor| == |b.vendor|;
      assert a.vendor == Key(a)[..|a.vendor|] && b.vendor == Key(b)[..|b.vendor|];
      assert ClassName(a.cls) == Key(a)[|a.vendor| + 1..] && ClassName(b.cls) == Key(b)[|b.vendor| + 1..];
      NamesDiffer(a.cls, b.cls);
    }
  }

  lemma NamesDiffer(a: Class, b: Class)
    requires ClassName(a) == ClassName(b)
    ensures a == b
  {
    assert ClassName(a)[0] == ClassName(b)[0];
  }

  lemma LastBar(c: Cand)
    ensures |c.vendor| < |Key(c)| && Key(c)[|c.vendor|] == '|' && forall i :: |c.vendor| < i < |Key(c)| ==> Key(c)[i] != '|'
  {
    var name := ClassName(c.cls);
    assert forall i :: 0 <= i < |name| ==> name[i] != '|';
    hide ClassName;
    forall i | |c.vendor| < i < |Key(c)| ensures Key(c)[i] != '|' {
      assert Key(c)[i] == name[i - |c.vendor| - 1];
    }
  }

  /** The `i`-th candidate is the one its vendor has in its class: none there is newer, or as new and the
      only one of the two with tools; and each before it is older, or as new without the tools it has. */
  ghost predicate IsNewest(cands: seq<Cand>, i: nat) {
    && i < |cands|
    && (forall j :: 0 <= j < |cands| && Alike(cands[j], cands[i]) ==>
          cands[j].created < cands[i].created || (cands[j].created == cands[i].created && (cands[j].tools ==> cands[i].tools)))
    && (forall j :: 0 <= j < i && Alike(cands[j], cands[i]) ==>
          cands[j].created < cands[i].created || (cands[j].created == cands[i].created && cands[i].tools && !cands[j].tools))
  }

  ghost predicate IsOneOfNewest(cands: seq<Cand>, c: Cand) {
    exists i: nat :: IsNewest(cands, i) && cands[i] == c
  }

  lemma NewestIff(cands: seq<Cand>, c: Cand)
    ensures FromFirstMaximal(cands, c) <==> IsOneOfNewest(cands, c)
  {
    forall a, b ensures SameGroup(a, b) <==> Alike(a, b) {
      SameGroupIff(a, b);
    }
    hide SameGroup;
    forall i: nat ensures IsFirstMaximal(cands, i) <==> IsNewest(cands, i) {
    }
  }

  /** A candidate like `a` was listed before any like `b`. */
  ghost predicate ListedBefore(cands: seq<Cand>, a: Cand, b: Cand) {
    exists k :: 0 <= k < |cands| && Alike(cands[k], a) && forall j :: 0 <= j <= k ==> !Alike(cands[j], b)
  }

  /** Newer, or as new and of a vendor and class that was listed earlier. */
  ghost predicate ComesBefore(cands: seq<Cand>, a: Cand, b: Cand) {
    a.created > b.created || (a.created == b.created && ListedBefore(cands, a, b))
  }

  ghost predicate InListOrder(cands: seq<Cand>, s: seq<Cand>) {
    forall i, j :: 0 <= i < j < |s| ==> ListedBefore(cands, s[i], s[j])
  }

  lemma ListedStays(before: seq<Cand>, c: Cand, a: Cand, b: Cand)
    requires ListedBefore(before, a, b)
    ensures ListedBefore(before + [c], a, b)
  {
    var k :| 0 <= k < |before| && Alike(before[k], a) && forall j :: 0 <= j <= k ==> !Alike(before[j], b);
    assert (before + [c])[k] == before[k] && forall j :: 0 <= j <= k ==> (before + [c])[j] == before[j];
  }

  lemma ListedBeforeLast(before: seq<Cand>, c: Cand, a: Cand)
    requires a in before && forall j :: 0 <= j < |before| ==> !Alike(before[j], c)
    ensures ListedBefore(before + [c], a, c)
  {
    var k :| 0 <= k < |before| && before[k] == a;
    assert (before + [c])[k] == before[k] && forall j :: 0 <= j <= k ==> (before + [c])[j] == before[j];
  }

  /** The fold keeps its groups in the order they were first listed. */
  lemma {:induction false} RepresentativesInListOrder(cands: seq<Cand>)
    ensures InListOrder(cands, Representatives(cands))
    decreases |cands|
  {
    if cands != [] {
      var n := |cands| - 1;
      var before, c, best := cands[..n], cands[n], Representatives(cands[..n]);
      RepresentativesInListOrder(before);
      RepresentativesAre(before);
      assert before + [c] == cands;
      hide Representatives, FromFirstMaximal;
      forall r | r in best ensures r in before {
        FromIsIn(before, r);
      }
      AddKeepsListOrder(before, c, best);
    }
  }

  lemma FromIsIn(cands: seq<Cand>, r: Cand)
    requires FromFirstMaximal(cands, r)
    ensures r in cands
  {
  }

  lemma AddKeepsListOrder(before: seq<Cand>, c: Cand, best: seq<Cand>)
    requires InListOrder(before, best) && forall r :: r in best ==> r in before
    requires forall d :: d in before ==> IndexOf(best, d) < |best|
    ensures InListOrder(before + [c], Add(best, c))
  {
    hide Key, SameGroup, Alike;
    var all, k := before + [c], IndexOf(best, c);
    forall i, j | 0 <= i < j < |best| ensures ListedBefore(all, best[i], best[j]) {
      ListedStays(before, c, best[i], best[j]);
    }
    if k == |best| {
      forall j | 0 <= j < |before| ensures !Alike(before[j], c) {
        assert before[j] in before;
        NotIndexed(best, before[j], c);
      }
      forall i | 0 <= i < |best| ensures ListedBefore(all, best[i], c) {
        assert best[i] in best;
        ListedBeforeLast(before, c, best[i]);
      }
      hide ListedBefore, IndexOf;
      assert InListOrder(all, best + [c]);
    } else {
      hide ListedBefore, IndexOf;
      OneChanged(all, best, k, c);
    }
  }

  lemma OneChanged(cands: seq<Cand>, best: seq<Cand>, k: nat, c: Cand)
    requires InListOrder(cands, best) && k < |best| && SameGroup(best[k], c)
    ensures InListOrder(cands, best[k := c])
  {
    SameGroupIff(best[k], c);
    hide ListedBefore, SameGroup;
    var after := best[k := c];
    forall i, j | 0 <= i < j < |after| ensures ListedBefore(cands, after[i], after[j]) {
      SameListing(cands, best[i], best[j], after[i], after[j]);
    }
  }

  lemma NotIndexed(best: seq<Cand>, d: Cand, c: Cand)
    requires IndexOf(best, d) < |best| && IndexOf(best, c) == |best|
    ensures !Alike(d, c)
  {
    SameGroupIff(c, d);
    if SameGroup(c, d) {
      SameIndex(best, c, d);
    }
  }

  lemma SameListing(cands: seq<Cand>, a: Cand, b: Cand, a': Cand, b': Cand)
    requires ListedBefore(cands, a, b) && Alike(a, a') && Alike(b, b')
    ensures ListedBefore(cands, a', b')
  {
    var k :| 0 <= k < |cands| && Alike(cands[k], a) && forall j :: 0 <= j <= k ==> !Alike(cands[j], b);
    assert Alike(cands[k], a');
    assert forall j :: 0 <= j <= k ==> !Alike(cands[j], b');
  }

  // ----- the pick -----

  function OfClass(best: seq<Cand>, cls: Class): (pool: seq<Cand>)
    ensures forall c :: c in pool <==> c in best && c.cls == cls
  {
    if best == [] then []
    else
      assert best == [best[0]] + best[1..];
      (if best[0].cls == cls then [best[0]] else []) + OfClass(best[1..], cls)
  }

  /** One step of a stable sort, newest first. */
  function InsertNewest(c: Cand, s: seq<Cand>): (t: seq<Cand>)
    ensures multiset(t) == multiset(s) + multiset{c}
  {
    if s == [] || c.created >= s[0].created then [c] + s
    else
      assert s == [s[0]] + s[1..];
      [s[0]] + InsertNewest(c, s[1..])
  }

  function SortNewest(s: seq<Cand>): (t: seq<Cand>)
    ensures multiset(t) == multiset(s)
  {
    if s == [] then []
    else
      assert s == [s[0]] + s[1..];
      InsertNewest(s[0], SortNewest(s[1..]))
  }

  ghost predicate Ordered(cands: seq<Cand>, s: seq<Cand>) {
    forall i, j :: 0 <= i < j < |s| ==> ComesBefore(cands, s[i], s[j])
  }

  /** The sort is by day, newest first, and stable. */
  lemma {:induction false} SortedIsOrdered(cands: seq<Cand>, s: seq<Cand>)
    requires InListOrder(cands, s)
    ensures Ordered(cands, SortNewest(s))
  {
    if s != [] {
      SortedIsOrdered(cands, s[1..]);
      SortHasSame(s[1..]);
      forall d | d in SortNewest(s[1..]) ensures ListedBefore(cands, s[0], d) {
        assert d in s[1..];
        var k :| 0 <= k < |s[1..]| && s[1..][k] == d;
        assert s[k + 1] == d;
      }
      InsertKeepsOrder(cands, s[0], SortNewest(s[1..]));
    }
  }

  lemma {:induction false} InsertKeepsOrder(cands: seq<Cand>, c: Cand, s: seq<Cand>)
    requires Ordered(cands, s) && forall d :: d in s ==> ListedBefore(cands, c, d)
    ensures Ordered(cands, InsertNewest(c, s))
    decreases |s|
  {
    hide ListedBefore;
    if s != [] && c.created < s[0].created {
      InsertKeepsOrder(cands, c, s[1..]);
      var rest := InsertNewest(c, s[1..]);
      forall j | 0 <= j < |rest| ensures ComesBefore(cands, s[0], rest[j]) {
        assert rest[j] in multiset(rest);
        assert rest[j] in s[1..] || rest[j] == c;
        if rest[j] in s[1..] {
          var k :| 0 <= k < |s[1..]| && s[1..][k] == rest[j];
          assert s[k + 1] == rest[j];
        }
      }
    } else {
      forall j | 0 <= j < |s| ensures ComesBefore(cands, c, s[j]) {
        assert s[j] in s;
        assert j > 0 ==> ComesBefore(cands, s[0], s[j]);
      }
    }
  }

  lemma {:induction false} OfClassInListOrder(cands: seq<Cand>, best: seq<Cand>, cls: Class)
    requires InListOrder(cands, best)
    ensures InListOrder(cands, OfClass(best, cls))
    decreases |best|
  {
    hide ListedBefore;
    if best != [] {
      OfClassInListOrder(cands, best[1..], cls);
      var rest := OfClass(best[1..], cls);
      forall j | 0 <= j < |rest| ensures ListedBefore(cands, best[0], rest[j]) {
        assert rest[j] in best[1..];
        var k :| 0 <= k < |best[1..]| && best[1..][k] == rest[j];
        assert best[k + 1] == rest[j];
      }
    }
  }

  function PickClass(best: seq<Cand>, cls: Class, perClass: nat): seq<Cand> {
    var pool := SortNewest(OfClass(best, cls));
    if |pool| <= perClass then pool else pool[..perClass]
  }

  function Pick(best: seq<Cand>, perClass: nat): seq<Cand> {
    PickClass(best, Cheap, perClass) + PickClass(best, Mid, perClass) + PickClass(best, Strong, perClass)
  }

  /** What one class contributes: at most `perClass` of those that are the newest of their vendor there, the
      newest first and those of a day in the order of the list; one that is left out leaves a full class
      whose members all come before it. */
  ghost predicate IsPick(cands: seq<Cand>, cls: Class, perClass: nat, picked: seq<Cand>) {
    && |picked| <= perClass
    && (forall c :: c in picked ==> c.cls == cls && IsOneOfNewest(cands, c))
    && (forall i, j :: 0 <= i < j < |picked| ==> picked[i].vendor != picked[j].vendor && ComesBefore(cands, picked[i], picked[j]))
    && (forall c: Cand :: c.cls == cls && IsOneOfNewest(cands, c) && c !in picked ==>
          |picked| == perClass && forall p :: p in picked ==> ComesBefore(cands, p, c))
  }

  /** The cheap ones, then those in the middle, then the strong ones; judges are not picked. */
  ghost predicate IsTranche(cands: seq<Cand>, perClass: nat, picked: seq<Cand>) {
    exists cheap, mid, strong ::
      && IsPick(cands, Cheap, perClass, cheap) && IsPick(cands, Mid, perClass, mid) && IsPick(cands, Strong, perClass, strong)
      && picked == cheap + mid + strong
  }

  lemma PickIsTranche(cands: seq<Cand>, perClass: nat)
    ensures IsTranche(cands, perClass, Pick(Representatives(cands), perClass))
  {
    var best := Representatives(cands);
    PickedAre(cands, Cheap, perClass);
    PickedAre(cands, Mid, perClass);
    PickedAre(cands, Strong, perClass);
    hide IsPick, PickClass, Representatives;
  }

  /** The selection: the fold over the candidates, then the pick over its values. */
  method SelectTranche(cands: seq<Cand>, perClass: nat) returns (picked: seq<Cand>)
    ensures picked == Pick(Representatives(cands), perClass)
    ensures IsTranche(cands, perClass, picked)
  {
    PickIsTranche(cands, perClass);
    hide SortNewest, OfClass, IsTranche, Key, SameGroup, Beats;
    var best: seq<Cand> := [];
    for n := 0 to |cands|
      invariant best == Representatives(cands[..n])
    {
      assert cands[..n + 1][..n] == cands[..n];
      var i := IndexOf(best, cands[n]);
      if i == |best| {
        best := best + [cands[n]];
      } else if Beats(cands[n], best[i]) {
        best := best[i := cands[n]];
      }
    }
    assert cands[..|cands|] == cands;
    picked := [];
    var classes := [Cheap, Mid, Strong];
    for k := 0 to 3
      invariant picked ==
        (if k > 0 then PickClass(best, Cheap, perClass) else []) + (if k > 1 then PickClass(best, Mid, perClass) else [])
        + (if k > 2 then PickClass(best, Strong, perClass) else [])
    {
      var pool := SortNewest(OfClass(best, classes[k]));
      picked := picked + if |pool| <= perClass then pool else pool[..perClass];
    }
  }

  lemma PickedAre(cands: seq<Cand>, cls: Class, perClass: nat)
    ensures IsPick(cands, cls, perClass, PickClass(Representatives(cands), cls, perClass))
  {
    hide SortNewest, FromFirstMaximal, Representatives, OfClass, OnePerGroup, IsOneOfNewest, ComesBefore, InListOrder;
    var best := Representatives(cands);
    forall c ensures c in best <==> IsOneOfNewest(cands, c) {
      RepresentativesAreExactly(cands, c);
      NewestIff(cands, c);
    }
    RepresentativesAre(cands);
    RepresentativesInListOrder(cands);
    var pool := OfClass(best, cls);
    var sorted := SortNewest(pool);
    OfClassInListOrder(cands, best, cls);
    SortedIsOrdered(cands, pool);
    SortHasSame(pool);
    OfClassOnePerGroup(best, cls);
    SortOnePerGroup(pool);
    var picked := if |sorted| <= perClass then sorted else sorted[..perClass];
    forall c | c in picked ensures c in sorted {
    }
    forall i, j | 0 <= i < j < |picked| ensures picked[i].vendor != picked[j].vendor && ComesBefore(cands, picked[i], picked[j]) {
      assert picked[i] == sorted[i] && picked[j] == sorted[j] && picked[i] in picked && picked[j] in picked;
      OnlyOne(sorted, i, j);
      SameGroupIff(sorted[i], sorted[j]);
    }
    forall c: Cand | c.cls == cls && IsOneOfNewest(cands, c) && c !in picked
      ensures |picked| == perClass && forall p :: p in picked ==> ComesBefore(cands, p, c)
    {
      assert c in sorted;
      LeftOutComesLater(cands, sorted, perClass, c);
    }
  }

  lemma OnlyOne(s: seq<Cand>, i: nat, j: nat)
    requires OnePerGroup(s) && i < j < |s|
    ensures !SameGroup(s[i], s[j])
  {
  }

  lemma LeftOutComesLater(cands: seq<Cand>, sorted: seq<Cand>, perClass: nat, c: Cand)
    requires Ordered(cands, sorted) && c in sorted
    requires |sorted| > perClass ==> c !in sorted[..perClass]
    requires |sorted| <= perClass ==> c !in sorted
    ensures |sorted| > perClass && forall p :: p in sorted[..perClass] ==> ComesBefore(cands, p, c)
  {
    hide ComesBefore;
    var k :| 0 <= k < |sorted| && sorted[k] == c;
    assert forall q :: 0 <= q < perClass ==> sorted[..perClass][q] == sorted[q];
    forall p | p in sorted[..perClass] ensures ComesBefore(cands, p, c) {
      var i :| 0 <= i < perClass && sorted[..perClass][i] == p;
    }
  }

  lemma SortHasSame(s: seq<Cand>)
    ensures forall c :: c in SortNewest(s) <==> c in s
  {
    hide SortNewest;
    forall c ensures c in SortNewest(s) <==> c in s {
      assert c in multiset(SortNewest(s)) <==> c in multiset(s);
    }
  }

  lemma {:induction false} OfClassOnePerGroup(best: seq<Cand>, cls: Class)
    requires OnePerGroup(best)
    ensures OnePerGroup(OfClass(best, cls))
  {
    if best != [] {
      OfClassOnePerGroup(best[1..], cls);
      var rest := OfClass(best[1..], cls);
      forall j | 0 <= j < |rest| ensures !SameGroup(best[0], rest[j]) {
        assert rest[j] in best[1..];
      }
    }
  }

  lemma {:induction false} SortOnePerGroup(s: seq<Cand>)
    requires OnePerGroup(s)
    ensures OnePerGroup(SortNewest(s))
  {
    if s != [] {
      SortOnePerGroup(s[1..]);
      SortHasSame(s[1..]);
      forall d | d in SortNewest(s[1..]) ensures !SameGroup(s[0], d) {
        assert d in s[1..];
      }
      InsertOnePerGroup(s[0], SortNewest(s[1..]));
    }
  }

  lemma {:induction false} InsertOnePerGroup(c: Cand, s: seq<Cand>)
    requires OnePerGroup(s) && forall d :: d in s ==> !SameGroup(c, d)
    ensures OnePerGroup(InsertNewest(c, s))
  {
    if s != [] && c.created < s[0].created {
      InsertOnePerGroup(c, s[1..]);
      var rest := InsertNewest(c, s[1..]);
      forall j | 0 <= j < |rest| ensures !SameGroup(s[0], rest[j]) {
        assert rest[j] in multiset(rest);
        assert rest[j] in s[1..] || rest[j] == c;
        SameGroupCommutes(c, s[0]);
      }
    }
  }
}
