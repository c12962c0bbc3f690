/** The evidence signature of a frontier: one string that stands for its points, their quality and
    their run ids. It decides equality of evidence as long as no part holds a delimiter. */
module EvidenceSignature {
  import opened Strings
  import opened Wrappers

  /** A point as the guards read it. `quality` is the number's text; absent run ids are `[]`. */
  datatype Point = Point(
    strategyHash: string,
    providerMode: Option<string>,
    quality: Option<string>,
    runIds: seq<string>,
    profiled: bool)

  function QualityText(p: Point): string {
    if p.quality.Some? then p.quality.value else ""
  }

  function Encoding(p: Point): string {
    p.strategyHash + ":" + QualityText(p) + ":" + Join(Sort(p.runIds), ',')
  }

  function Encodings(points: seq<Point>): (texts: seq<string>)
    ensures |texts| == |points|
    ensures forall i :: 0 <= i < |points| ==> texts[i] == Encoding(points[i])
  {
    if points == [] then [] else [Encoding(points[0])] + Encodings(points[1..])
  }

  function Signature(points: seq<Point>): string {
    Join(Sort(Encodings(points)), '|')
  }

  /** What the signature stands for: the order of points and of run ids is not part of it. */
  datatype Evidence = Evidence(strategyHash: string, quality: Option<string>, runIds: multiset<string>)

  function EvidenceOf(p: Point): Evidence {
    Evidence(p.strategyHash, p.quality, multiset(p.runIds))
  }

  function AllEvidence(points: seq<Point>): (all: seq<Evidence>)
    ensures |all| == |points|
    ensures forall i :: 0 <= i < |points| ==> all[i] == EvidenceOf(points[i])
  {
    if points == [] then [] else [EvidenceOf(points[0])] + AllEvidence(points[1..])
  }

  predicate Without(s: string, delimiters: string) {
    forall i :: 0 <= i < |s| ==> s[i] !in delimiters
  }

  /** No part holds the delimiter that ends it, and no run id and no quality is empty. */
  predicate Clean(p: Point) {
    && Without(p.strategyHash, ":|")
    && (p.quality.Some? ==> p.quality.value != "" && Without(p.quality.value, ":|"))
    && (forall i :: 0 <= i < |p.runIds| ==> p.runIds[i] != "" && Without(p.runIds[i], ",|"))
  }

  predicate AllClean(points: seq<Point>) {
    forall i :: 0 <= i < |points| ==> Clean(points[i])
  }

  // ----- one point -----

  lemma {:induction false} JoinWithout(parts: seq<string>, d: char, forbidden: char)
    requires d != forbidden && forall i :: 0 <= i < |parts| ==> forbidden !in parts[i]
    ensures forbidden !in Join(parts, d)
  {
    if |parts| > 1 {
      JoinWithout(parts[1..], d, forbidden);
    }
  }

  /** Joining non-empty parts loses nothing, not even whether there were any. */
  lemma JoinInjective(a: seq<string>, b: seq<string>, d: char)
    requires forall i :: 0 <= i < |a| ==> a[i] != "" && d !in a[i]
    requires forall i :: 0 <= i < |b| ==> b[i] != "" && d !in b[i]
    requires Join(a, d) == Join(b, d)
    ensures a == b
  {
    if a != [] && b != [] {
      SplitOfJoin(a, d);
      SplitOfJoin(b, d);
    } else if a != [] {
      JoinNonEmpty(a, d);
    } else if b != [] {
      JoinNonEmpty(b, d);
    }
  }

  lemma JoinNonEmpty(parts: seq<string>, d: char)
    requires parts != [] && parts[0] != ""
    ensures Join(parts, d) != ""
  {
  }

  /** What precedes the first delimiter is determined. */
  lemma {:induction false} HeadDetermined(a: string, x: string, b: string, y: string, d: char)
    requires d !in a && d !in b
    requires a + [d] + x == b + [d] + y
    ensures a == b && x == y
  {
    assert (a + [d] + x)[0] == (b + [d] + y)[0];
    if a != [] && b != [] {
      assert (a + [d] + x)[1..] == a[1..] + [d] + x;
      assert (b + [d] + y)[1..] == b[1..] + [d] + y;
      HeadDetermined(a[1..], x, b[1..], y, d);
      assert a == [a[0]] + a[1..] && b == [b[0]] + b[1..];
    } else {
      assert x == (a + [d] + x)[1..] && y == (b + [d] + y)[1..];
    }
  }

  lemma SortKeepsParts(parts: seq<string>)
    requires forall i :: 0 <= i < |parts| ==> parts[i] != "" && ',' !in parts[i]
    ensures forall i :: 0 <= i < |Sort(parts)| ==> Sort(parts)[i] != "" && ',' !in Sort(parts)[i]
  {
    forall i | 0 <= i < |Sort(parts)| ensures Sort(parts)[i] in parts {
      assert Sort(parts)[i] in multiset(Sort(parts));
    }
  }

  lemma EvidenceDeterminesEncoding(p: Point, q: Point)
    requires EvidenceOf(p) == EvidenceOf(q)
    ensures Encoding(p) == Encoding(q)
  {
    SortEqualIff(p.runIds, q.runIds);
  }

  lemma EncodingDeterminesEvidence(p: Point, q: Point)
    requires Clean(p) && Clean(q) && Encoding(p) == Encoding(q)
    ensures EvidenceOf(p) == EvidenceOf(q)
  {
    hide Sort, Join;
    var a, b := Join(Sort(p.runIds), ','), Join(Sort(q.runIds), ',');
    assert Encoding(p) == p.strategyHash + [':'] + (QualityText(p) + [':'] + a);
    assert Encoding(q) == q.strategyHash + [':'] + (QualityText(q) + [':'] + b);
    HeadDetermined(p.strategyHash, QualityText(p) + [':'] + a, q.strategyHash, QualityText(q) + [':'] + b, ':');
    HeadDetermined(QualityText(p), a, QualityText(q), b, ':');
    SameJoinSameRunIds(p.runIds, q.runIds);
  }

  lemma SameJoinSameRunIds(a: seq<string>, b: seq<string>)
    requires forall i :: 0 <= i < |a| ==> a[i] != "" && ',' !in a[i]
    requires forall i :: 0 <= i < |b| ==> b[i] != "" && ',' !in b[i]
    requires Join(Sort(a), ',') == Join(Sort(b), ',')
    ensures multiset(a) == multiset(b)
  {
    hide *;
    SortKeepsParts(a);
    SortKeepsParts(b);
    JoinInjective(Sort(a), Sort(b), ',');
    SortEqualIff(a, b);
  }

  // ----- all points -----

  /** How often a point's encoding occurs is how often its evidence occurs. */
  lemma {:induction false} SameCount(points: seq<Point>, p: Point)
    requires AllClean(points) && Clean(p)
    ensures multiset(Encodings(points))[Encoding(p)] == multiset(AllEvidence(points))[EvidenceOf(p)]
  {
    if points != [] {
      SameCount(points[1..], p);
      CountStep(points, p);
    }
  }

  lemma CountStep(points: seq<Point>, p: Point)
    requires points != [] && Clean(points[0]) && Clean(p)
    requires multiset(Encodings(points[1..]))[Encoding(p)] == multiset(AllEvidence(points[1..]))[EvidenceOf(p)]
    ensures multiset(Encodings(points))[Encoding(p)] == multiset(AllEvidence(points))[EvidenceOf(p)]
  {
    hide *;
    FirstOf(points);
    EncodingEqualIff(points[0], p);
  }

  lemma EncodingEqualIff(p: Point, q: Point)
    requires Clean(p) && Clean(q)
    ensures Encoding(p) == Encoding(q) <==> EvidenceOf(p) == EvidenceOf(q)
  {
    hide *;
    if EvidenceOf(p) == EvidenceOf(q) {
      EvidenceDeterminesEncoding(p, q);
    } else if Encoding(p) == Encoding(q) {
      EncodingDeterminesEvidence(p, q);
    }
  }

  lemma SameEncodingsSameEvidence(a: seq<Point>, b: seq<Point>)
    requires AllClean(a) && AllClean(b)
    requires multiset(Encodings(a)) == multiset(Encodings(b))
    ensures multiset(AllEvidence(a)) == multiset(AllEvidence(b))
  {
    hide *;
    forall e ensures multiset(AllEvidence(a))[e] == multiset(AllEvidence(b))[e] {
      if e in AllEvidence(a) || e in AllEvidence(b) {
        var p := EvidenceAt(a, b, e);
        SameCount(a, p);
        SameCount(b, p);
      }
    }
  }

  lemma EvidenceAt(a: seq<Point>, b: seq<Point>, e: Evidence) returns (p: Point)
    requires AllClean(a) && AllClean(b)
    requires e in AllEvidence(a) || e in AllEvidence(b)
    ensures EvidenceOf(p) == e && Clean(p)
  {
    if e in AllEvidence(a) {
      var k :| 0 <= k < |a| && AllEvidence(a)[k] == e;
      p := a[k];
    } else {
      var k :| 0 <= k < |b| && AllEvidence(b)[k] == e;
      p := b[k];
    }
  }

  /** The signature of the same evidence is the same string, whatever the order of points and run ids
      and whatever the texts hold. */
  lemma SameEvidenceSameSignature(a: seq<Point>, b: seq<Point>)
    requires multiset(AllEvidence(a)) == multiset(AllEvidence(b))
    ensures Signature(a) == Signature(b)
  {
    MatchedEncodings(a, b);
    SortEqualIff(Encodings(a), Encodings(b));
  }

  lemma {:induction false} MatchedEncodings(a: seq<Point>, b: seq<Point>)
    requires multiset(AllEvidence(a)) == multiset(AllEvidence(b))
    ensures multiset(Encodings(a)) == multiset(Encodings(b))
    decreases |a|
  {
    hide *;
    assert |multiset(AllEvidence(a))| == |a| && |multiset(AllEvidence(b))| == |b|;
    if a == [] {
      assert a == b;
    } else {
      var e := EvidenceOf(a[0]);
      FirstOf(a);
      assert e in multiset(AllEvidence(b));
      var k :| 0 <= k < |b| && AllEvidence(b)[k] == e;
      var rest := b[..k] + b[k + 1..];
      Removed(b, k);
      Cancel(e, multiset(AllEvidence(a[1..])), multiset(AllEvidence(rest)));
      MatchedEncodings(a[1..], rest);
      EvidenceDeterminesEncoding(a[0], b[k]);
    }
  }

  lemma Cancel<T>(x: T, a: multiset<T>, b: multiset<T>)
    requires multiset{x} + a == b + multiset{x}
    ensures a == b
  {
    assert a == (multiset{x} + a) - multiset{x};
    assert b == (b + multiset{x}) - multiset{x};
  }

  lemma FirstOf(a: seq<Point>)
    requires a != []
    ensures multiset(AllEvidence(a)) == multiset{EvidenceOf(a[0])} + multiset(AllEvidence(a[1..]))
    ensures multiset(Encodings(a)) == multiset{Encoding(a[0])} + multiset(Encodings(a[1..]))
  {
    hide Encoding, EvidenceOf;
  }

  lemma Removed(b: seq<Point>, k: nat)
    requires k < |b|
    ensures multiset(AllEvidence(b)) == multiset(AllEvidence(b[..k] + b[k + 1..])) + multiset{EvidenceOf(b[k])}
    ensures multiset(Encodings(b)) == multiset(Encodings(b[..k] + b[k + 1..])) + multiset{Encoding(b[k])}
  {
    hide *;
    SplitsAround(AllEvidence(b), k);
    SplitsAround(Encodings(b), k);
    EvidenceAround(b, k);
    EncodingsAround(b, k);
  }

  lemma SplitsAround<T>(s: seq<T>, k: nat)
    requires k < |s|
    ensures multiset(s) == multiset(s[..k] + s[k + 1..]) + multiset{s[k]}
  {
    assert s == s[..k] + [s[k]] + s[k + 1..];
  }

  lemma EvidenceAround(b: seq<Point>, k: nat)
    requires k < |b|
    ensures AllEvidence(b[..k] + b[k + 1..]) == AllEvidence(b)[..k] + AllEvidence(b)[k + 1..]
  {
    hide *;
  }

  lemma EncodingsAround(b: seq<Point>, k: nat)
    requires k < |b|
    ensures Encodings(b[..k] + b[k + 1..]) == Encodings(b)[..k] + Encodings(b)[k + 1..]
  {
    hide *;
  }

  lemma EncodingIsPart(p: Point)
    requires Clean(p)
    ensures Encoding(p) != "" && '|' !in Encoding(p)
  {
    hide Sort;
    assert Encoding(p)[|p.strategyHash|] == ':';
    forall i | 0 <= i < |Sort(p.runIds)| ensures '|' !in Sort(p.runIds)[i] {
      assert Sort(p.runIds)[i] in multiset(Sort(p.runIds));
      assert Sort(p.runIds)[i] in p.runIds;
    }
    JoinWithout(Sort(p.runIds), ',', '|');
  }

  lemma SortedEncodingsAreParts(points: seq<Point>)
    requires AllClean(points)
    ensures forall i :: 0 <= i < |points| ==> Sort(Encodings(points))[i] != "" && '|' !in Sort(Encodings(points))[i]
  {
    var texts := Encodings(points);
    forall i | 0 <= i < |points| ensures Sort(texts)[i] != "" && '|' !in Sort(texts)[i] {
      assert Sort(texts)[i] in multiset(Sort(texts));
      assert Sort(texts)[i] in texts;
      var k :| 0 <= k < |texts| && texts[k] == Sort(texts)[i];
      EncodingIsPart(points[k]);
    }
  }

  /** The signature decides equality of evidence: same strategies, same quality, same run ids, each as
      often. */
  lemma SignatureDecidesEvidence(a: seq<Point>, b: seq<Point>)
    requires AllClean(a) && AllClean(b)
    ensures Signature(a) == Signature(b) <==> multiset(AllEvidence(a)) == multiset(AllEvidence(b))
  {
    if Signature(a) == Signature(b) {
      SortedEncodingsAreParts(a);
      SortedEncodingsAreParts(b);
      JoinInjective(Sort(Encodings(a)), Sort(Encodings(b)), '|');
      SortEqualIff(Encodings(a), Encodings(b));
      SameEncodingsSameEvidence(a, b);
    } else if multiset(AllEvidence(a)) == multiset(AllEvidence(b)) {
      SameEvidenceSameSignature(a, b);
    }
  }

  // ----- the condition is needed -----

  predicate Confused(a: seq<Point>, b: seq<Point>) {
    Signature(a) == Signature(b) && multiset(AllEvidence(a)) != multiset(AllEvidence(b))
  }

  function Bare(hash: string, quality: Option<string>, runIds: seq<string>): Point {
    Point(hash, None, quality, runIds, false)
  }

  lemma SignatureOfOne(p: Point)
    ensures Signature([p]) == Encoding(p) && AllEvidence([p]) == [EvidenceOf(p)]
  {
    hide Encoding, EvidenceOf;
    assert Encodings([p]) == [Encoding(p)];
  }

  lemma SortPair(a: string, b: string)
    requires Le(a, b)
    ensures Sort([a, b]) == [a, b]
  {
    hide Le;
    assert [a, b][1..] == [b] && [b][1..] == [];
  }

  /** A comma in a run id. */
  lemma CommaConfuses()
    ensures Confused([Bare("h", None, ["x,y"])], [Bare("h", None, ["x", "y"])])
  {
    hide AllEvidence, Encodings, Signature;
    var p, q := Bare("h", None, ["x,y"]), Bare("h", None, ["x", "y"]);
    SignatureOfOne(p);
    SignatureOfOne(q);
    SortPair("x", "y");
    JoinPair("x", "y", ',');
    assert Encoding(p) == "h::x,y" == Encoding(q);
    assert "x" in EvidenceOf(q).runIds && "x" !in EvidenceOf(p).runIds;
    assert EvidenceOf(p) !in multiset([EvidenceOf(q)]);
  }

  /** An empty run id. */
  lemma EmptyRunIdConfuses()
    ensures Confused([Bare("h", None, [""])], [Bare("h", None, [])])
  {
    var p, q := Bare("h", None, [""]), Bare("h", None, []);
    SignatureOfOne(p);
    SignatureOfOne(q);
    assert Encoding(p) == "h::" == Encoding(q);
    assert "" in EvidenceOf(p).runIds && "" !in EvidenceOf(q).runIds;
    assert EvidenceOf(p) !in multiset([EvidenceOf(q)]);
  }

  /** A colon in a hash. */
  lemma ColonConfuses()
    ensures Confused([Bare("h:1", None, [])], [Bare("h", Some("1"), [":"])])
  {
    var p, q := Bare("h:1", None, []), Bare("h", Some("1"), [":"]);
    SignatureOfOne(p);
    SignatureOfOne(q);
    assert Encoding(p) == "h:1::" == Encoding(q);
    assert EvidenceOf(p).strategyHash != EvidenceOf(q).strategyHash;
    assert EvidenceOf(p) !in multiset([EvidenceOf(q)]);
  }

  lemma SignatureOfTwo(p: Point, q: Point)
    requires Le(Encoding(p), Encoding(q))
    ensures Signature([p, q]) == Encoding(p) + "|" + Encoding(q)
  {
    hide Encoding, EvidenceOf, Le, Sort;
    assert [p, q][1..] == [q] && [q][1..] == [];
    assert Encodings([p, q]) == [Encoding(p), Encoding(q)];
    SortPair(Encoding(p), Encoding(q));
    JoinPair(Encoding(p), Encoding(q), '|');
  }

  lemma JoinPair(a: string, b: string, d: char)
    ensures Join([a, b], d) == a + [d] + b
  {
    assert [a, b][1..] == [b];
  }

  /** A bar in a run id. */
  lemma BarConfuses()
    ensures Confused([Bare("h", None, ["x|h::y"])], [Bare("h", None, ["x"]), Bare("h", None, ["y"])])
  {
    hide AllEvidence, Encodings, EvidenceOf, Le, Signature;
    var p, q, r := Bare("h", None, ["x|h::y"]), Bare("h", None, ["x"]), Bare("h", None, ["y"]);
    SignatureOfOne(p);
    assert Encoding(p) == "h::x|h::y" && Encoding(q) == "h::x" && Encoding(r) == "h::y";
    BarOrder();
    SignatureOfTwo(q, r);
    assert |multiset(AllEvidence([p]))| == 1 && |multiset(AllEvidence([q, r]))| == 2;
  }

  lemma BarOrder()
    ensures Le("h::x", "h::y")
  {
    assert "h::x"[1..] == "::x" && "h::y"[1..] == "::y";
    assert "::x"[1..] == ":x" && "::y"[1..] == ":y";
    assert ":x"[1..] == "x" && ":y"[1..] == "y";
    assert Le(":x", ":y");
  }
}
