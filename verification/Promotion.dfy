/** The refusals between a measured frontier and the chain that serves, and what every run of
    imports keeps. */
module Promotion {
  import opened Strings
  import opened EvidenceSignature
  import opened Wrappers

  /** A chain of versions serves one instrument of one cluster. */
  datatype ChainKey = ChainKey(clusterId: string, instrument: string)

  datatype Doc = Doc(key: ChainKey, pricesVersion: string, points: seq<Point>)

  datatype Frontier = Frontier(version: nat, pricesVersion: string, points: seq<Point>)

  /** The two override variables of an invocation; only the value "1" overrides. */
  datatype Env = Env(acceptPricesChange: Option<string>, acceptProfileLoss: Option<string>)

  datatype Refusal =
    | NotLive(hashes: seq<string>, of: nat)
    | IdenticalEvidence(version: nat)
    | PricesBasis(version: nat, serving: string, offered: string)
    | ProfileLoss(version: nat, had: nat, has: nat, of: nat)

  function Overrides(variable: Option<string>): bool {
    variable == Some("1")
  }

  predicate IsLive(p: Point) {
    p.providerMode == Some("live")
  }

  /** The first eight characters of the hashes of the points that are not live. */
  function NotLiveHashes(points: seq<Point>): (hashes: seq<string>)
    ensures hashes == [] <==> forall i :: 0 <= i < |points| ==> IsLive(points[i])
  {
    if points == [] then []
    else
      var rest := NotLiveHashes(points[1..]);
      if IsLive(points[0]) then
        assert forall i :: 1 <= i < |points| ==> points[i] == points[1..][i - 1];
        rest
      else [Shown(points[0].strategyHash)] + rest
  }

  function Shown(hash: string): string {
    if |hash| <= 8 then hash else hash[..8]
  }

  function NotLiveRefusal(doc: Doc): Option<Refusal> {
    var hashes := NotLiveHashes(doc.points);
    if hashes == [] then None else Some(NotLive(hashes, |doc.points|))
  }

  function IdenticalEvidenceRefusal(current: Option<Frontier>, doc: Doc): Option<Refusal> {
    if current.None? || Signature(current.value.points) != Signature(doc.points) then None
    else Some(IdenticalEvidence(current.value.version))
  }

  function PricesBasisRefusal(current: Option<Frontier>, doc: Doc, env: Env): Option<Refusal> {
    if current.None? || current.value.pricesVersion == doc.pricesVersion || Overrides(env.acceptPricesChange) then None
    else Some(PricesBasis(current.value.version, current.value.pricesVersion, doc.pricesVersion))
  }

  /** How many points carry a token profile. */
  function Coverage(points: seq<Point>): (n: nat)
    ensures n <= |points|
    ensures n == |points| <==> forall i :: 0 <= i < |points| ==> points[i].profiled
  {
    if points == [] then 0
    else
      var rest := Coverage(points[1..]);
      assert forall i :: 1 <= i < |points| ==> points[i] == points[1..][i - 1];
      if points[0].profiled then rest + 1 else rest
  }

  function TokenProfileRefusal(current: Option<Frontier>, doc: Doc, env: Env): Option<Refusal> {
    if current.None? then None
    else
      var had := Coverage(current.value.points);
      var has := Coverage(doc.points);
      if had < |current.value.points| || has == |doc.points| || Overrides(env.acceptProfileLoss) then None
      else Some(ProfileLoss(current.value.version, had, has, |doc.points|))
  }

  function OrElse<T>(first: Option<T>, second: Option<T>): Option<T> {
    if first.Some? then first else second
  }

  /** Every refusal in order; the first hit wins. */
  function PromotionRefusal(current: Option<Frontier>, doc: Doc, env: Env): Option<Refusal> {
    OrElse(NotLiveRefusal(doc),
      OrElse(IdenticalEvidenceRefusal(current, doc),
        OrElse(PricesBasisRefusal(current, doc, env), TokenProfileRefusal(current, doc, env))))
  }

  // ----- what an accepted import means -----

  ghost predicate AllLive(points: seq<Point>) {
    forall i :: 0 <= i < |points| ==> points[i].providerMode == Some("live")
  }

  ghost predicate FullyProfiled(points: seq<Point>) {
    forall i :: 0 <= i < |points| ==> points[i].profiled
  }

  /** What an import must meet over a serving frontier, the evidence apart. */
  ghost predicate KeepsBasisAndProfiles(current: Frontier, doc: Doc, env: Env) {
    && (current.pricesVersion == doc.pricesVersion || env.acceptPricesChange == Some("1"))
    && (FullyProfiled(current.points) && !FullyProfiled(doc.points) ==> env.acceptProfileLoss == Some("1"))
  }

  /** An import goes through exactly when every point is live and, over a serving frontier, the signature
      is another, the prices basis is the same or its change is accepted by name, and full profile coverage
      is kept or its loss is accepted by name. For points whose parts hold no delimiter, another signature
      means that the evidence is a different multiset. */
  lemma AcceptedIff(current: Option<Frontier>, doc: Doc, env: Env)
    ensures PromotionRefusal(current, doc, env) == None <==>
      && AllLive(doc.points)
      && (current.Some? ==>
            Signature(current.value.points) != Signature(doc.points) && KeepsBasisAndProfiles(current.value, doc, env))
    ensures AllClean(doc.points) && (current.Some? ==> AllClean(current.value.points)) ==>
      (PromotionRefusal(current, doc, env) == None <==>
        && AllLive(doc.points)
        && (current.Some? ==>
              && multiset(AllEvidence(current.value.points)) != multiset(AllEvidence(doc.points))
              && KeepsBasisAndProfiles(current.value, doc, env)))
  {
    hide Signature, AllEvidence, AllClean;
    if current.Some? && AllClean(doc.points) && AllClean(current.value.points) {
      SignatureDecidesEvidence(current.value.points, doc.points);
    }
  }

  // ----- which refusal is reported -----

  /** The positions, in order, of the points that are not live. */
  ghost predicate AreNotLive(points: seq<Point>, at: seq<nat>) {
    && (forall k, l :: 0 <= k < l < |at| ==> at[k] < at[l])
    && (forall i: nat :: i in at <==> i < |points| && points[i].providerMode != Some("live"))
  }

  /** The first eight characters of each, or all there are. */
  predicate AreShown(points: seq<Point>, at: seq<nat>, hashes: seq<string>)
    requires forall k :: 0 <= k < |at| ==> at[k] < |points|
  {
    && |hashes| == |at|
    && (forall k :: 0 <= k < |at| ==> hashes[k] <= points[at[k]].strategyHash)
    && (forall k :: 0 <= k < |at| ==> |hashes[k]| == 8 || (|hashes[k]| < 8 && hashes[k] == points[at[k]].strategyHash))
  }

  /** The refusal lists each point that is not live once, by the start of its hash, in the order of the file. */
  ghost predicate ListsNotLive(points: seq<Point>, hashes: seq<string>) {
    exists at :: ListedAt(points, hashes, at)
  }

  ghost predicate ListedAt(points: seq<Point>, hashes: seq<string>, at: seq<nat>) {
    AreNotLive(points, at) && (forall k :: 0 <= k < |at| ==> at[k] < |points|) && AreShown(points, at, hashes)
  }

  lemma {:induction false} NotLiveLast(points: seq<Point>)
    requires points != []
    ensures var n := |points| - 1;
      NotLiveHashes(points) == NotLiveHashes(points[..n]) + if IsLive(points[n]) then [] else [Shown(points[n].strategyHash)]
    decreases |points|
  {
    hide IsLive, Shown;
    var n := |points| - 1;
    if n == 0 {
      assert points[..0] == [] && points[1..] == [];
    } else {
      NotLiveLast(points[1..]);
      assert points[1..][..n - 1] == points[..n][1..];
    }
  }

  lemma {:induction false} NotLiveHashesAre(points: seq<Point>)
    ensures ListsNotLive(points, NotLiveHashes(points))
    decreases |points|
  {
    if points == [] {
      assert ListedAt(points, [], []);
    } else {
      var n := |points| - 1;
      NotLiveHashesAre(points[..n]);
      NotLiveLast(points);
      hide NotLiveHashes;
      assert points == points[..n] + [points[n]];
      ListsNext(points[..n], points[n], NotLiveHashes(points[..n]));
    }
  }

  lemma ListsNext(front: seq<Point>, p: Point, hashes: seq<string>)
    requires ListsNotLive(front, hashes)
    ensures ListsNotLive(front + [p], hashes + if IsLive(p) then [] else [Shown(p.strategyHash)])
  {
    var at :| ListedAt(front, hashes, at);
    ListedNext(front, p, hashes, at);
    hide ListedAt, Shown;
  }

  lemma ListedNext(front: seq<Point>, p: Point, hashes: seq<string>, at: seq<nat>)
    requires ListedAt(front, hashes, at)
    ensures if IsLive(p) then ListedAt(front + [p], hashes + [], at)
      else ListedAt(front + [p], hashes + [Shown(p.strategyHash)], at + [|front|])
  {
    LiveNext(front, p, at);
    ShownNext(front, p, at, hashes);
    hide AreNotLive, IsLive, Shown, AreShown;
  }

  lemma LiveNext(front: seq<Point>, p: Point, at: seq<nat>)
    requires AreNotLive(front, at) && forall k :: 0 <= k < |at| ==> at[k] < |front|
    ensures AreNotLive(front + [p], if IsLive(p) then at else at + [|front|])
  {
    var all := if IsLive(p) then at else at + [|front|];
    forall i: nat ensures i in all <==> i < |front| + 1 && (front + [p])[i].providerMode != Some("live") {
      assert i in all <==> i in at || (i == |front| && !IsLive(p));
    }
  }

  lemma ShownNext(front: seq<Point>, p: Point, at: seq<nat>, hashes: seq<string>)
    requires (forall k :: 0 <= k < |at| ==> at[k] < |front|) && AreShown(front, at, hashes)
    ensures AreShown(front + [p], at + [|front|], hashes + [Shown(p.strategyHash)]) && AreShown(front + [p], at, hashes + [])
  {
  }

  lemma {:induction false} CoverageLast(points: seq<Point>)
    requires points != []
    ensures var n := |points| - 1; Coverage(points) == Coverage(points[..n]) + if points[n].profiled then 1 else 0
    decreases |points|
  {
    var n := |points| - 1;
    if n == 0 {
      assert points[..0] == [] && points[1..] == [];
    } else {
      CoverageLast(points[1..]);
      assert points[1..][..n - 1] == points[..n][1..];
    }
  }

  function Profiled(points: seq<Point>): set<int> {
    set i | 0 <= i < |points| && points[i].profiled
  }

  lemma ProfiledLast(points: seq<Point>)
    requires points != []
    ensures var n := |points| - 1;
      |Profiled(points)| == |Profiled(points[..n])| + if points[n].profiled then 1 else 0
  {
    var n := |points| - 1;
    assert Profiled(points) == Profiled(points[..n]) + if points[n].profiled then {n} else {};
    assert n !in Profiled(points[..n]);
  }

  lemma {:induction false} CoverageIs(points: seq<Point>)
    ensures Coverage(points) == |Profiled(points)|
    decreases |points|
  {
    hide Profiled, Coverage;
    if points == [] {
      assert Profiled([]) == {} && Coverage([]) == 0 by {
        NoneProfiled();
      }
    } else {
      CoverageIs(points[..|points| - 1]);
      CoverageLast(points);
      ProfiledLast(points);
    }
  }

  lemma NoneProfiled()
    ensures Profiled([]) == {} && Coverage([]) == 0
  {
  }

  /** Which refusal an import meets, and what it says: the first that applies of points that are not live,
      identical evidence, a changed prices basis, and a lost token profile. */
  lemma RefusalIs(current: Option<Frontier>, doc: Doc, env: Env)
    ensures var refusal, points := PromotionRefusal(current, doc, env), doc.points;
      var identical := current.Some? && Signature(current.value.points) == Signature(points);
      var changed := current.Some? && current.value.pricesVersion != doc.pricesVersion && env.acceptPricesChange != Some("1");
      var lost := current.Some? && FullyProfiled(current.value.points) && !FullyProfiled(points) && env.acceptProfileLoss != Some("1");
      if !AllLive(points) then
        refusal.Some? && refusal.value.NotLive? && ListsNotLive(points, refusal.value.hashes) && refusal.value.of == |points|
      else if identical then refusal == Some(IdenticalEvidence(current.value.version))
      else if changed then
        refusal == Some(PricesBasis(current.value.version, current.value.pricesVersion, doc.pricesVersion))
      else if lost then
        refusal == Some(ProfileLoss(current.value.version, |current.value.points|,
                                    |Profiled(points)|, |points|))
      else refusal == None
  {
    NotLiveHashesAre(doc.points);
    CoverageIs(doc.points);
    hide Signature, ListsNotLive;
  }

  // ----- the chains -----

  /** The serving store: the versions of each chain, oldest first. */
  type Store = map<ChainKey, seq<Frontier>>

  function Chain(store: Store, key: ChainKey): seq<Frontier> {
    if key in store then store[key] else []
  }

  function Latest(store: Store, key: ChainKey): Option<Frontier> {
    var chain := Chain(store, key);
    if chain == [] then None else Some(chain[|chain| - 1])
  }

  /** The points are stored as they are, under the next version of their chain. */
  function Save(store: Store, key: ChainKey, pricesVersion: string, points: seq<Point>): Store {
    var version := if Latest(store, key).Some? then Latest(store, key).value.version + 1 else 1;
    store[key := Chain(store, key) + [Frontier(version, pricesVersion, points)]]
  }

  datatype Imported = Promoted(store: Store) | Refused(refusal: Refusal)

  function Import(store: Store, doc: Doc, env: Env): Imported {
    var refusal := PromotionRefusal(Latest(store, doc.key), doc, env);
    if refusal.Some? then Refused(refusal.value) else Promoted(Save(store, doc.key, doc.pricesVersion, doc.points))
  }

  datatype ExportError = NoFrontier | ZeroPoints
  datatype Exported = File(doc: Doc) | Failed(error: ExportError)

  function Export(store: Store, key: ChainKey): Exported {
    var latest := Latest(store, key);
    if latest.None? then Failed(NoFrontier)
    else if latest.value.points == [] then Failed(ZeroPoints)
    else File(Doc(key, latest.value.pricesVersion, latest.value.points))
  }

  /** An import that no guard refuses over the last version of its chain adds the next one behind it, with
      the points as they are, and touches no other chain. */
  lemma ImportIs(store: Store, doc: Doc, env: Env)
    ensures var chain := if doc.key in store then store[doc.key] else [];
      var refusal := PromotionRefusal(if chain == [] then None else Some(chain[|chain| - 1]), doc, env);
      var version := if chain == [] then 1 else chain[|chain| - 1].version + 1;
      Import(store, doc, env) ==
        if refusal.Some? then Refused(refusal.value)
        else Promoted(store[doc.key := chain + [Frontier(version, doc.pricesVersion, doc.points)]])
  {
    hide PromotionRefusal;
  }

  /** What is exported is the last version of a chain, unless there is none or it has no points. */
  lemma ExportIs(store: Store, key: ChainKey)
    ensures Export(store, key) == Failed(NoFrontier) <==> key !in store || store[key] == []
    ensures key in store && store[key] != [] ==>
      var last := store[key][|store[key]| - 1];
      Export(store, key) == if |last.points| > 0 then File(Doc(key, last.pricesVersion, last.points)) else Failed(ZeroPoints)
  {
  }

  datatype Request = Request(doc: Doc, env: Env)

  /** A run of imports; a refused one leaves the store alone. */
  function RunImports(store: Store, requests: seq<Request>): Store {
    if requests == [] then store
    else
      var before := RunImports(store, requests[..|requests| - 1]);
      var last := requests[|requests| - 1];
      var imported := Import(before, last.doc, last.env);
      if imported.Promoted? then imported.store else before
  }

  // ----- what every run keeps -----

  /** One more version on a chain, as an import without overrides may add it. */
  ghost predicate GoodStep(before: Frontier, after: Frontier, pricesOverridden: bool, profilesOverridden: bool) {
    && after.version == before.version + 1
    && Signature(before.points) != Signature(after.points)
    && (pricesOverridden || after.pricesVersion == before.pricesVersion)
    && (profilesOverridden || (FullyProfiled(before.points) ==> FullyProfiled(after.points)))
  }

  /** A chain grew from `n` versions on: every new version is live and a good step from the one before. */
  ghost predicate GrewWell(chain: seq<Frontier>, n: nat, pricesOverridden: bool, profilesOverridden: bool) {
    && n <= |chain|
    && (forall i :: n <= i < |chain| ==> AllLive(chain[i].points))
    && (forall i :: n <= i < |chain| && i > 0 ==> GoodStep(chain[i - 1], chain[i], pricesOverridden, profilesOverridden))
    && (n == 0 && |chain| > 0 ==> chain[0].version == 1)
  }

  ghost predicate SomeOverride(requests: seq<Request>, key: ChainKey, variable: Env -> Option<string>) {
    exists i :: 0 <= i < |requests| && requests[i].doc.key == key && Overrides(variable(requests[i].env))
  }

  const PRICES := (env: Env) => env.acceptPricesChange
  const PROFILES := (env: Env) => env.acceptProfileLoss

  /** One import touches one chain, and adds to it one good step or nothing. */
  lemma ImportKeeps(store: Store, doc: Doc, env: Env, key: ChainKey)
    requires Import(store, doc, env).Promoted?
    ensures var after := Import(store, doc, env).store;
      && (key != doc.key ==> Chain(after, key) == Chain(store, key))
      && |Chain(after, doc.key)| == |Chain(store, doc.key)| + 1
      && Chain(store, doc.key) <= Chain(after, doc.key)
      && GrewWell(Chain(after, doc.key), |Chain(store, doc.key)|, Overrides(env.acceptPricesChange), Overrides(env.acceptProfileLoss))
  {
    hide Signature;
  }

  lemma GrewWellExtends(chain: seq<Frontier>, more: seq<Frontier>, n: nat, p: bool, q: bool, p': bool, q': bool)
    requires GrewWell(chain, n, p, q)
    requires chain <= more && GrewWell(more, |chain|, p', q')
    ensures GrewWell(more, n, p || p', q || q')
  {
    hide Signature, AllLive, FullyProfiled;
    forall i | n <= i < |more|
      ensures AllLive(more[i].points)
      ensures i > 0 ==> GoodStep(more[i - 1], more[i], p || p', q || q')
    {
      if i < |chain| {
        assert more[i] == chain[i] && (i > 0 ==> more[i - 1] == chain[i - 1]);
      }
    }
  }

  /** Over every run of imports, on every chain: versions are only added, each with the next number and
      only live points; the evidence never repeats the version before; and as long as no import on the
      chain overrides the guard, the prices basis does not move and full profile coverage is not lost. */
  lemma {:induction false} RunKeeps(store: Store, requests: seq<Request>, key: ChainKey)
    ensures var before, after := Chain(store, key), Chain(RunImports(store, requests), key);
      && before <= after
      && GrewWell(after, |before|, SomeOverride(requests, key, PRICES), SomeOverride(requests, key, PROFILES))
    decreases |requests|
  {
    var first := Chain(store, key);
    if requests != [] {
      var n := |requests| - 1;
      var last := requests[n];
      RunKeeps(store, requests[..n], key);
      var before := RunImports(store, requests[..n]);
      OverridesGrow(requests, key, PRICES);
      OverridesGrow(requests, key, PROFILES);
      RunStep(first, before, last, key,
        SomeOverride(requests[..n], key, PRICES), SomeOverride(requests[..n], key, PROFILES));
    }
  }

  lemma OverridesGrow(requests: seq<Request>, key: ChainKey, variable: Env -> Option<string>)
    requires requests != []
    ensures SomeOverride(requests, key, variable) <==>
      || SomeOverride(requests[..|requests| - 1], key, variable)
      || (requests[|requests| - 1].doc.key == key && Overrides(variable(requests[|requests| - 1].env)))
  {
    var rest := requests[..|requests| - 1];
    if SomeOverride(requests, key, variable) {
      var i :| 0 <= i < |requests| && requests[i].doc.key == key && Overrides(variable(requests[i].env));
      assert i < |rest| ==> rest[i] == requests[i];
    }
    if SomeOverride(rest, key, variable) {
      var i :| 0 <= i < |rest| && rest[i].doc.key == key && Overrides(variable(rest[i].env));
      assert requests[i] == rest[i];
    }
  }

  lemma RunStep(first: seq<Frontier>, before: Store, last: Request, key: ChainKey, p: bool, q: bool)
    requires first <= Chain(before, key) && GrewWell(Chain(before, key), |first|, p, q)
    ensures var imported := Import(before, last.doc, last.env);
      var after := Chain(if imported.Promoted? then imported.store else before, key);
      && first <= after
      && GrewWell(after, |first|,
          p || (last.doc.key == key && Overrides(last.env.acceptPricesChange)),
          q || (last.doc.key == key && Overrides(last.env.acceptProfileLoss)))
  {
    hide Import, GoodStep, AllLive;
    var imported := Import(before, last.doc, last.env);
    if imported.Promoted? {
      ImportKeeps(before, last.doc, last.env, key);
      if key == last.doc.key {
        GrewWellExtends(Chain(before, key), Chain(imported.store, key), |first|, p, q,
          Overrides(last.env.acceptPricesChange), Overrides(last.env.acceptProfileLoss));
      }
    }
    GrewWellWeaker(Chain(before, key), |first|, p, q);
  }

  lemma GrewWellWeaker(chain: seq<Frontier>, n: nat, p: bool, q: bool)
    requires GrewWell(chain, n, p, q)
    ensures GrewWell(chain, n, true, q) && GrewWell(chain, n, p, true) && GrewWell(chain, n, true, true)
  {
    hide Signature, AllLive, FullyProfiled;
  }

  /** Without an override, a chain that serves keeps its prices basis over any run. */
  lemma {:induction false} PricesNeverMove(chain: seq<Frontier>, n: nat, q: bool, i: nat)
    requires 0 < n && GrewWell(chain, n, false, q) && n - 1 <= i < |chain|
    ensures chain[i].pricesVersion == chain[n - 1].pricesVersion
  {
    if i >= n {
      PricesNeverMove(chain, n, q, i - 1);
      assert GoodStep(chain[i - 1], chain[i], false, q);
    }
  }

  /** Without an override, once a version is fully profiled, all later ones are. */
  lemma {:induction false} CoverageNeverLost(chain: seq<Frontier>, n: nat, p: bool, i: nat, j: nat)
    requires 0 < n && GrewWell(chain, n, p, false)
    requires n - 1 <= i <= j < |chain| && FullyProfiled(chain[i].points)
    ensures FullyProfiled(chain[j].points)
  {
    if i < j {
      CoverageNeverLost(chain, n, p, i, j - 1);
      assert GoodStep(chain[j - 1], chain[j], p, false);
    }
  }

  /** The same over the store: a run of imports that overrides nothing on a serving chain leaves every
      served version of it on one prices basis, and fully profiled from the first one that is. */
  lemma UnoverriddenRun(store: Store, requests: seq<Request>, key: ChainKey, i: nat, j: nat)
    requires Latest(store, key).Some?
    requires !SomeOverride(requests, key, PRICES) && !SomeOverride(requests, key, PROFILES)
    requires |Chain(store, key)| - 1 <= i <= j < |Chain(RunImports(store, requests), key)|
    ensures var chain := Chain(RunImports(store, requests), key);
      && chain[j].pricesVersion == Latest(store, key).value.pricesVersion
      && (FullyProfiled(chain[i].points) ==> FullyProfiled(chain[j].points))
      && (i < j ==> AllLive(chain[j].points) && chain[j].version == chain[i].version + (j - i))
  {
    hide GoodStep, AllLive, FullyProfiled, RunImports, SomeOverride;
    RunKeeps(store, requests, key);
    var chain := Chain(RunImports(store, requests), key);
    var n := |Chain(store, key)|;
    PricesNeverMove(chain, n, false, j);
    if FullyProfiled(chain[i].points) {
      CoverageNeverLost(chain, n, false, i, j);
    }
    VersionsCount(chain, n, i, j);
  }

  lemma {:induction false} VersionsCount(chain: seq<Frontier>, n: nat, i: nat, j: nat)
    requires 0 < n && GrewWell(chain, n, false, false) && n - 1 <= i <= j < |chain|
    ensures chain[j].version == chain[i].version + (j - i)
  {
    if i < j {
      VersionsCount(chain, n, i, j - 1);
      assert GoodStep(chain[j - 1], chain[j], false, false);
    }
  }

  /** Importing again what was just promoted is refused as identical, whatever the overrides and however
      its points and run ids are reordered. */
  lemma ReimportRefused(store: Store, doc: Doc, env: Env, again: Doc, env': Env)
    requires Import(store, doc, env).Promoted?
    requires again.key == doc.key && AllLive(again.points)
    requires multiset(AllEvidence(again.points)) == multiset(AllEvidence(doc.points))
    ensures var after := Import(store, doc, env).store;
      Import(after, again, env') == Refused(IdenticalEvidence(Latest(after, doc.key).value.version))
  {
    hide Signature, Coverage;
    SameEvidenceSameSignature(again.points, doc.points);
  }

  /** A served frontier whose points are live travels unchanged to an empty target, as version 1. */
  lemma ExportThenImport(source: Store, target: Store, key: ChainKey, env: Env)
    requires Export(source, key).File? && Latest(target, key).None?
    ensures var doc := Export(source, key).doc;
      var imported := Import(target, doc, env);
      && (imported.Promoted? <==> AllLive(doc.points))
      && (imported.Promoted? ==>
        && Latest(imported.store, key) == Some(Latest(source, key).value.(version := 1))
        && Export(imported.store, key) == Export(source, key))
  {
    hide Signature, Coverage;
  }

  // ----- what the guards let through -----

  /** An empty file passes every guard over a fully profiled frontier, without an override: it has no
      point that is not live and none without a profile. */
  lemma EmptyDocAccepted(store: Store, key: ChainKey, env: Env)
    requires Latest(store, key).Some? && Latest(store, key).value.points != []
    requires FullyProfiled(Latest(store, key).value.points)
    ensures var imported := Import(store, Doc(key, Latest(store, key).value.pricesVersion, []), env);
      imported.Promoted? && Latest(imported.store, key).value.points == []
  {
    var points := Latest(store, key).value.points;
    EncodingsNeverVanish(points);
    assert Signature([]) == "";
  }

  lemma EncodingsNeverVanish(points: seq<Point>)
    requires points != []
    ensures Signature(points) != ""
  {
    hide Sort, Encoding, Join;
    var texts := Sort(Encodings(points));
    assert texts[0] in multiset(texts);
    assert texts[0] in Encodings(points);
    var k :| 0 <= k < |points| && Encodings(points)[k] == texts[0];
    EncodingNeverEmpty(points[k]);
    JoinNonEmpty(texts, '|');
  }

  lemma EncodingNeverEmpty(p: Point)
    ensures Encoding(p) != ""
  {
    assert |Encoding(p)| >= |p.strategyHash| + 2;
  }

  /** The guard against a no-op version looks at the serving version only: evidence that was replaced
      can come back as a new version two imports later. */
  lemma ReplacedEvidenceReturns(store: Store, a: Doc, b: Doc, env: Env)
    requires a.key == b.key && a.pricesVersion == b.pricesVersion
    requires AllLive(a.points) && AllLive(b.points) && FullyProfiled(a.points) && FullyProfiled(b.points)
    requires Signature(a.points) != Signature(b.points)
    requires Latest(store, a.key).None?
    ensures var chain := Chain(RunImports(store, [Request(a, env), Request(b, env), Request(a, env)]), a.key);
      && |chain| == 3
      && chain[2] == chain[0].(version := 3)
  {
    hide Signature, Coverage, RunImports;
    var first, second := Request(a, env), Request(b, env);
    var one := NextRun(store, [], first);
    EmptyRun(store);
    assert Chain(one, a.key) == [Frontier(1, a.pricesVersion, a.points)];
    var two := NextRun(store, [] + [first], second);
    assert Chain(two, a.key) == [Frontier(1, a.pricesVersion, a.points), Frontier(2, b.pricesVersion, b.points)];
    var three := NextRun(store, [] + [first] + [second], first);
    assert [] + [first] + [second] + [first] == [first, second, first];
  }

  lemma EmptyRun(store: Store)
    ensures RunImports(store, []) == store
  {
  }

  lemma NextRun(store: Store, requests: seq<Request>, last: Request) returns (after: Store)
    ensures after == RunImports(store, requests + [last])
    ensures var before := RunImports(store, requests);
      var imported := Import(before, last.doc, last.env);
      after == if imported.Promoted? then imported.store else before
  {
    hide Import;
    assert (requests + [last])[..|requests|] == requests;
    after := RunImports(store, requests + [last]);
  }

  // ----- imports that overlap -----

  /** The guards read the serving version, and the save reads it again to pick the next number: between
      the two another import can save. `waiting` holds the imports that passed their guards. */
  datatype World = World(store: Store, waiting: seq<Request>)

  datatype Event = Check(request: Request) | Commit(k: nat)

  predicate Able(w: World, e: Event) {
    e.Commit? ==> e.k < |w.waiting|
  }

  function Happen(w: World, e: Event): World
    requires Able(w, e)
  {
    match e
    case Check(r) =>
      if PromotionRefusal(Latest(w.store, r.doc.key), r.doc, r.env) == None then w.(waiting := w.waiting + [r]) else w
    case Commit(k) =>
      var doc := w.waiting[k].doc;
      World(Save(w.store, doc.key, doc.pricesVersion, doc.points), w.waiting[..k] + w.waiting[k + 1..])
  }

  /** A check with its commit right behind it is an import. */
  lemma CheckThenCommitIsImport(w: World, r: Request)
    requires Import(w.store, r.doc, r.env).Promoted?
    ensures var checked := Happen(w, Check(r));
      Able(checked, Commit(|w.waiting|)) &&
      Happen(checked, Commit(|w.waiting|)) == World(Import(w.store, r.doc, r.env).store, w.waiting)
  {
    hide PromotionRefusal, Save;
    assert (w.waiting + [r])[..|w.waiting|] + (w.waiting + [r])[|w.waiting| + 1..] == w.waiting;
  }

  /** The version a commit adds is a good step over the one that serves then. */
  ghost predicate CommitIsGood(w: World, e: Event)
    requires Able(w, e)
  {
    e.Commit? ==>
      var r := w.waiting[e.k];
      var before, after := Latest(w.store, r.doc.key), Latest(Happen(w, e).store, r.doc.key);
      before.Some? ==>
        after.Some? && GoodStep(before.value, after.value, Overrides(r.env.acceptPricesChange), Overrides(r.env.acceptProfileLoss))
  }

  /** The guards would still let the import through when it commits. */
  predicate StillAccepted(w: World, e: Event)
    requires Able(w, e)
  {
    e.Commit? ==> var r := w.waiting[e.k]; PromotionRefusal(Latest(w.store, r.doc.key), r.doc, r.env) == None
  }

  ghost predicate WaitingAreLive(w: World) {
    forall k :: 0 <= k < |w.waiting| ==> AllLive(w.waiting[k].doc.points)
  }

  lemma CommitIsGoodIff(w: World, e: Event)
    requires WaitingAreLive(w) && Able(w, e)
    ensures CommitIsGood(w, e) <==> StillAccepted(w, e)
  {
    hide Signature;
  }

  lemma HappenKeepsLive(w: World, e: Event)
    requires WaitingAreLive(w) && Able(w, e)
    ensures WaitingAreLive(Happen(w, e))
  {
    hide IdenticalEvidenceRefusal, PricesBasisRefusal, TokenProfileRefusal, Save;
  }

  ghost predicate IsInterleaving(w: World, events: seq<Event>)
    decreases |events|
  {
    events != [] ==> Able(w, events[0]) && IsInterleaving(Happen(w, events[0]), events[1..])
  }

  ghost predicate AllGood(w: World, events: seq<Event>)
    requires IsInterleaving(w, events)
    decreases |events|
  {
    events != [] ==> CommitIsGood(w, events[0]) && AllGood(Happen(w, events[0]), events[1..])
  }

  ghost predicate AllStillAccepted(w: World, events: seq<Event>)
    requires IsInterleaving(w, events)
    decreases |events|
  {
    events != [] ==> StillAccepted(w, events[0]) && AllStillAccepted(Happen(w, events[0]), events[1..])
  }

  /** Over every interleaving of checks and commits, the chains grow by good steps exactly when every
      import would pass its guards again at the moment it commits. */
  lemma {:induction false} InterleavingIsGoodIff(w: World, events: seq<Event>)
    requires WaitingAreLive(w) && IsInterleaving(w, events)
    ensures AllGood(w, events) <==> AllStillAccepted(w, events)
    decreases |events|
  {
    hide WaitingAreLive, Able, Happen, CommitIsGood, StillAccepted;
    if events != [] {
      CommitIsGoodIff(w, events[0]);
      HappenKeepsLive(w, events[0]);
      InterleavingIsGoodIff(Happen(w, events[0]), events[1..]);
    }
  }

  /** Two imports on one chain that both pass before either commits: the second version is a good step
      over the first exactly when their evidence differs, the prices basis is the same or overridden, and
      full coverage is kept or its loss overridden. */
  lemma OverlappingImportsGoodIff(w: World, a: Request, b: Request)
    requires a.doc.key == b.doc.key
    requires PromotionRefusal(Latest(w.store, a.doc.key), a.doc, a.env) == None
    requires PromotionRefusal(Latest(w.store, b.doc.key), b.doc, b.env) == None
    ensures var events := [Check(a), Check(b), Commit(|w.waiting|), Commit(|w.waiting|)];
      && IsInterleaving(w, events)
      && var chain := Chain(AfterEvents(w, events).store, a.doc.key); var n := |Chain(w.store, a.doc.key)|;
      && |chain| == n + 2 && chain[..n] == Chain(w.store, a.doc.key)
      && chain[n].points == a.doc.points && chain[n + 1].points == b.doc.points
      && (GoodStep(chain[n], chain[n + 1], Overrides(b.env.acceptPricesChange), Overrides(b.env.acceptProfileLoss)) <==>
            && Signature(a.doc.points) != Signature(b.doc.points)
            && (a.doc.pricesVersion == b.doc.pricesVersion || Overrides(b.env.acceptPricesChange))
            && (FullyProfiled(a.doc.points) && !FullyProfiled(b.doc.points) ==> Overrides(b.env.acceptProfileLoss)))
  {
    hide Signature, PromotionRefusal, FullyProfiled;
    var n := |w.waiting|;
    var w1 := Happen(w, Check(a));
    var w2 := Happen(w1, Check(b));
    assert w2.waiting == w.waiting + [a, b];
    var w3 := Happen(w2, Commit(n));
    assert w3.waiting == w.waiting + [b];
    var w4 := Happen(w3, Commit(n));
    FourEvents(w, Check(a), Check(b), Commit(n), Commit(n));
  }

  function AfterEvents(w: World, events: seq<Event>): World
    requires IsInterleaving(w, events)
    decreases |events|
  {
    if events == [] then w else AfterEvents(Happen(w, events[0]), events[1..])
  }

  lemma FourEvents(w: World, e1: Event, e2: Event, e3: Event, e4: Event)
    requires Able(w, e1) && Able(Happen(w, e1), e2) && Able(Happen(Happen(w, e1), e2), e3)
    requires Able(Happen(Happen(Happen(w, e1), e2), e3), e4)
    ensures IsInterleaving(w, [e1, e2, e3, e4])
    ensures AfterEvents(w, [e1, e2, e3, e4]) == Happen(Happen(Happen(Happen(w, e1), e2), e3), e4)
  {
    hide Happen, Able;
    assert [e1, e2, e3, e4][1..] == [e2, e3, e4] && [e2, e3, e4][1..] == [e3, e4] && [e3, e4][1..] == [e4] && [e4][1..] == [];
    var w3 := Happen(Happen(Happen(w, e1), e2), e3);
    assert IsInterleaving(w3, [e4]) && AfterEvents(w3, [e4]) == Happen(w3, e4);
    assert IsInterleaving(Happen(Happen(w, e1), e2), [e3, e4]) && AfterEvents(Happen(Happen(w, e1), e2), [e3, e4]) == Happen(w3, e4);
    assert IsInterleaving(Happen(w, e1), [e2, e3, e4]) && AfterEvents(Happen(w, e1), [e2, e3, e4]) == Happen(w3, e4);
  }

  // ----- any number of imports that overlap -----

  /** The chains after a queue of imports saved one after another, in the order of the queue. */
  function SaveAll(store: Store, queue: seq<Request>): Store {
    if queue == [] then store
    else
      var last := queue[|queue| - 1].doc;
      Save(SaveAll(store, queue[..|queue| - 1]), last.key, last.pricesVersion, last.points)
  }

  /** One document may follow another on a chain, in the words of the two documents. */
  ghost predicate MayFollow(before: Doc, r: Request) {
    && Signature(before.points) != Signature(r.doc.points)
    && (before.pricesVersion == r.doc.pricesVersion || Overrides(r.env.acceptPricesChange))
    && (FullyProfiled(before.points) && !FullyProfiled(r.doc.points) ==> Overrides(r.env.acceptProfileLoss))
  }

  /** The imports of a queue are on one chain and all passed their guards before any of them saved. */
  ghost predicate AllPassed(store: Store, key: ChainKey, queue: seq<Request>) {
    forall k :: 0 <= k < |queue| ==>
      queue[k].doc.key == key && PromotionRefusal(Latest(store, key), queue[k].doc, queue[k].env) == None
  }

  /** The version that a queued import became. */
  ghost predicate Became(chain: seq<Frontier>, i: nat, r: Request) {
    && i < |chain|
    && chain[i].points == r.doc.points && chain[i].pricesVersion == r.doc.pricesVersion
    && (i > 0 ==> chain[i].version == chain[i - 1].version + 1)
  }

  /** A chain grown by a queue of imports: what was there, then one version per import, in order. */
  ghost predicate GrownBy(prior: seq<Frontier>, queue: seq<Request>, chain: seq<Frontier>) {
    && |chain| == |prior| + |queue| && prior <= chain
    && forall k: nat :: k < |queue| ==> Became(chain, |prior| + k, queue[k])
  }

  lemma {:induction false} QueueChain(store: Store, key: ChainKey, queue: seq<Request>)
    requires forall r :: r in queue ==> r.doc.key == key
    ensures GrownBy(Chain(store, key), queue, Chain(SaveAll(store, queue), key))
    decreases |queue|
  {
    hide GrownBy, Became, Chain, Save, SaveAll;
    if queue == [] {
      NothingQueued(store, key);
    } else {
      var n := |queue| - 1;
      QueueChain(store, key, queue[..n]);
      SaveAllNext(store, queue);
      SaveAppends(SaveAll(store, queue[..n]), queue[n]);
      GrowOne(Chain(store, key), queue, Chain(SaveAll(store, queue[..n]), key), Chain(SaveAll(store, queue), key));
    }
  }

  lemma NothingQueued(store: Store, key: ChainKey)
    ensures GrownBy(Chain(store, key), [], Chain(SaveAll(store, []), key))
  {
  }

  lemma GrowOne(prior: seq<Frontier>, queue: seq<Request>, before: seq<Frontier>, chain: seq<Frontier>)
    requires queue != [] && GrownBy(prior, queue[..|queue| - 1], before)
    requires GrownBy(before, [queue[|queue| - 1]], chain)
    ensures GrownBy(prior, queue, chain)
  {
    hide Became;
    var n := |queue| - 1;
    assert Became(chain, |before| + 0, [queue[n]][0]);
    forall k: nat | k < |queue| ensures Became(chain, |prior| + k, queue[k]) {
      if k < n {
        assert Became(before, |prior| + k, queue[..n][k]);
        BecameStays(before, chain, |prior| + k, queue[k]);
      }
    }
  }

  lemma BecameStays(before: seq<Frontier>, chain: seq<Frontier>, i: nat, r: Request)
    requires before <= chain && Became(before, i, r)
    ensures Became(chain, i, r)
  {
  }

  lemma SaveAllNext(store: Store, queue: seq<Request>)
    requires queue != []
    ensures var last := queue[|queue| - 1].doc;
      SaveAll(store, queue) == Save(SaveAll(store, queue[..|queue| - 1]), last.key, last.pricesVersion, last.points)
  {
  }

  lemma SaveAppends(store: Store, r: Request)
    ensures GrownBy(Chain(store, r.doc.key), [r],
                    Chain(Save(store, r.doc.key, r.doc.pricesVersion, r.doc.points), r.doc.key))
  {
  }

  /** The step from one version to the next is good exactly when the documents may follow each other. */
  lemma StepIsGoodIff(chain: seq<Frontier>, i: nat, before: Request, r: Request)
    requires i > 0 && Became(chain, i - 1, before) && Became(chain, i, r)
    ensures GoodStep(chain[i - 1], chain[i], Overrides(r.env.acceptPricesChange), Overrides(r.env.acceptProfileLoss))
      <==> MayFollow(before.doc, r)
  {
    hide Signature, FullyProfiled;
  }

  /** Any number of imports that all pass before any of them saves, in whatever order they then do: each
      new version but the first is a good step over the one before exactly when its document may follow the
      document saved before it, and the first is one over what served. */
  lemma QueueIsGoodIff(store: Store, key: ChainKey, queue: seq<Request>, k: nat)
    requires AllPassed(store, key, queue) && k < |queue|
    ensures var n, chain, r := |Chain(store, key)|, Chain(SaveAll(store, queue), key), queue[k];
      && |chain| == n + |queue| && Became(chain, n + k, r)
      && (k > 0 ==>
            (GoodStep(chain[n + k - 1], chain[n + k], Overrides(r.env.acceptPricesChange), Overrides(r.env.acceptProfileLoss))
             <==> MayFollow(queue[k - 1].doc, r)))
      && (k == 0 && n > 0 ==>
            GoodStep(chain[n - 1], chain[n], Overrides(r.env.acceptPricesChange), Overrides(r.env.acceptProfileLoss)))
  {
    hide Chain, SaveAll, GoodStep, MayFollow, Became, PromotionRefusal, Latest;
    assert forall r :: r in queue ==> r.doc.key == key;
    QueueChain(store, key, queue);
    var n, chain := |Chain(store, key)|, Chain(SaveAll(store, queue), key);
    if k > 0 {
      StepIsGoodIff(chain, n + k, queue[k - 1], queue[k]);
    } else if n > 0 {
      FirstOfQueue(store, key, queue[0], chain);
    }
  }

  lemma FirstOfQueue(store: Store, key: ChainKey, r: Request, chain: seq<Frontier>)
    requires Chain(store, key) != [] && PromotionRefusal(Latest(store, key), r.doc, r.env) == None
    requires Chain(store, key) <= chain && Became(chain, |Chain(store, key)|, r)
    ensures var n := |Chain(store, key)|;
      GoodStep(chain[n - 1], chain[n], Overrides(r.env.acceptPricesChange), Overrides(r.env.acceptProfileLoss))
  {
    AcceptedIff(Latest(store, key), r.doc, r.env);
    hide Signature, FullyProfiled, PromotionRefusal;
  }

  /** The commits of a queue, first in first out. */
  function CommitAll(n: nat): (events: seq<Event>)
    ensures |events| == n && forall i :: 0 <= i < n ==> events[i] == Commit(0)
  {
    seq(n, i => Commit(0))
  }

  lemma {:induction false} SaveAllFirst(store: Store, queue: seq<Request>)
    requires queue != []
    ensures SaveAll(store, queue) == SaveAll(Save(store, queue[0].doc.key, queue[0].doc.pricesVersion, queue[0].doc.points), queue[1..])
    decreases |queue|
  {
    hide Save;
    var n := |queue| - 1;
    if n == 0 {
      assert queue[..0] == [] && queue[1..] == [];
    } else {
      SaveAllFirst(store, queue[..n]);
      assert queue[..n][1..] == queue[1..][..n - 1];
    }
  }

  /** Committing what waits, in order, saves the queue. */
  lemma {:induction false} CommitAllSaves(w: World)
    ensures IsInterleaving(w, CommitAll(|w.waiting|))
    ensures AfterEvents(w, CommitAll(|w.waiting|)) == World(SaveAll(w.store, w.waiting), [])
    decreases |w.waiting|
  {
    hide Save;
    if w.waiting != [] {
      var after := Happen(w, Commit(0));
      assert after.waiting == w.waiting[1..];
      assert CommitAll(|w.waiting|)[1..] == CommitAll(|after.waiting|);
      CommitAllSaves(after);
      SaveAllFirst(w.store, w.waiting);
    }
  }

  /** In particular one file imported twice at once mints the same evidence twice in a row, a step that
      no override makes good. */
  lemma OverlappingReimport(w: World, r: Request)
    requires PromotionRefusal(Latest(w.store, r.doc.key), r.doc, r.env) == None
    ensures var events := [Check(r), Check(r), Commit(|w.waiting|), Commit(|w.waiting|)];
      && IsInterleaving(w, events)
      && var chain := Chain(AfterEvents(w, events).store, r.doc.key);
      |chain| >= 2 && !GoodStep(chain[|chain| - 2], chain[|chain| - 1], true, true)
  {
    hide Signature, PromotionRefusal, FullyProfiled, AfterEvents, Chain, IsInterleaving, Latest;
    OverlappingImportsGoodIff(w, r, r);
  }
}
