/** Texts on which the scrubber's own claims fail. */
module ScrubLimits {
  import opened Text
  import opened SecretPatterns
  import opened KeyCleaning
  import opened AssignmentCleaning
  import opened PatternLanguage
  import opened Scrubber
  import opened Settling
  import opened Decimal
  import opened Truncation

  /** A name that the assignment pattern accepts. */
  predicate IsAssignable(name: string) {
    name != [] && IsUpper(name[0]) && IsNameText(name) && IsSecretName(name)
  }

  lemma SpelledStart(name: string, gap: string, rest: string)
    requires IsAssignable(name) && All(Space, gap) && (rest == [] || !IsSpace(rest[0]))
    ensures ValueStart(false, name + "=" + gap + rest) == |name| + 1 + |gap|
  {
    var u := name + "=" + gap + rest;
    var a := |name|;
    RunIs(EnvName, u, a);
    assert u[..a] == name;
    var s := u[a..];
    assert s == "=" + gap + rest;
    SpelledEquals(gap, rest);
  }

  lemma SpelledEquals(gap: string, rest: string)
    requires All(Space, gap) && (rest == [] || !IsSpace(rest[0]))
    ensures EqualsLen("=" + gap + rest) == 1 + |gap|
  {
    var s := "=" + gap + rest;
    assert s[0] == '=';
    var x := gap + rest;
    assert s[1..] == x && s[0..] == s;
    RunIs(Space, x, |gap|);
  }

  /** The marker of a cut right behind `NAME=` reads as the value of the assignment: scrubbing and
      then cutting, as `safe` does, can leave something for the verifier to report. */
  lemma MarkerReadsAsValue(name: string, rest: string)
    requires IsAssignable(name) && rest != []
    ensures var z := Cut(name + "=" + rest, |name| + 1);
      && z == name + "=" + Marker(|rest|)
      && !Clean(EnvAssignment, false, z)
      && "env-assignment" in Survivors(Patterns(), z)
  {
    CutBehindEquals(name, rest);
    MarkerEnds(|rest|);
    hide Marker, Cut, Survivors;
    ValueBehindEquals(name, Marker(|rest|));
    LastSurvivor(name + "=" + Marker(|rest|));
  }

  lemma CutBehindEquals(name: string, rest: string)
    requires IsNameText(name) && rest != []
    ensures Cut(name + "=" + rest, |name| + 1) == name + "=" + Marker(|rest|)
  {
    var t, n := name + "=" + rest, |name| + 1;
    assert t[..n] == name + "=";
    forall i | 0 <= i < n ensures t[..n][i] != '<' {
      assert i < |name| ==> In(EnvName, name[i]);
    }
    hide Cut, Marker;
    CleanCutIsMarked(t, n);
  }

  lemma ValueBehindEquals(name: string, m: string)
    requires IsAssignable(name) && m != [] && In(Bare, m[0]) && m[0] != '<'
    ensures !Clean(EnvAssignment, false, name + "=" + m)
  {
    var z := name + "=" + m;
    assert name + "=" + [] + m == z && z[|name| + 1..] == m;
    SpelledStart(name, [], m);
    assert ValueLen(m) > 0;
    assert !IsScrubbed(m);
    hide IsAssignable, ValueStart, IsScrubbed, ValueLen;
    assert MatchLen(EnvAssignment, false, z) > 0;
  }

  lemma LastSurvivor(z: string)
    requires !Clean(EnvAssignment, false, z)
    ensures "env-assignment" in Survivors(Patterns(), z)
  {
    hide Clean, Survivors, KeyPatterns;
    SurvivorsAppend(KeyPatterns(), EnvAssignment, z);
    SurvivorOfOne(EnvAssignment, z);
  }

  // ----- scrubbing twice -----

  lemma NoKeyLetters(s: string)
    requires forall i :: 0 <= i < |s| ==> s[i] !in {'s', 'p', 'g', 'l', 'B', 'b'}
    ensures KeyPasses(s) == s
  {
    forall i | 0 <= i < |KeyPatterns()| ensures Clean(KeyPatterns()[i], false, s) {
      var p := KeyPatterns()[i];
      PatternsAreKeyLike(i);
      hide MatchLen, IsKeyLike, KeyPatterns;
      if s != [] {
        CleanThrough(p, false, s, []);
        assert s + [] == s;
      }
    }
    hide Clean;
    ScrubWithoutKeys(s);
  }

  /** Two assignments, the first with a quote that only closes once the second has swallowed a newline. */
  function Outer(name: string, inner: string): string {
    name + "=" + "" + ("\"" + inner)
  }

  function Inner(name: string): string {
    name + "=" + "\n" + "v\""
  }

  lemma InnerParts(name: string)
    ensures var u, v := Inner(name), |name| + 2;
      && |u| == v + 2 && u == name + "=" + "\nv\""
      && u[v..] == "v\"" && u[v + 1..] == "\"" && u[v] == 'v'
  {
  }

  lemma LetterValue()
    ensures ValueLen("v\"") == 1 && !IsScrubbed("v\"")
  {
    RunIs(Bare, "v\"", 1);
  }

  lemma InnerMatches(name: string)
    requires IsAssignable(name)
    ensures MatchLen(EnvAssignment, false, Inner(name)) == |name| + 3
    ensures ClosesJoined('"', false, Inner(name))
  {
    InnerParts(name);
    SpelledStart(name, "\n", "v\"");
    LetterValue();
    ClosesAtOnce("\"");
    var u := Inner(name);
    assert ValueStart(false, u) == |name| + 2;
    hide IsAssignable, ValueStart, IsScrubbed, ValueLen, Inner;
    assert MatchLen(EnvAssignment, false, u) == |name| + 3;
  }

  lemma InnerLeavesOpen(name: string)
    requires IsNameText(name)
    ensures QuoteLen('"', Inner(name)) == 0
  {
    var head := name + "=";
    forall i | 0 <= i < |head| ensures head[i] != '"' && head[i] != '\n' {
      assert i < |name| ==> In(EnvName, name[i]);
    }
    InnerParts(name);
    QuoteOver('"', head, "\nv\"");
  }

  lemma ClosesAtOnce(u: string)
    requires u != [] && u[0] == '"'
    ensures forall w :: ClosesJoined('"', w, u)
  {
  }

  lemma OuterParts(name: string, inner: string)
    ensures var u, v := Outer(name, inner), |name| + 1;
      |u| == v + 1 + |inner| && u[v] == '"' && u[v..] == "\"" + inner && u[v + 1..] == inner
  {
  }

  lemma OpenQuote(inner: string)
    requires inner != [] && inner[0] != '<' && QuoteLen('"', inner) == 0
    ensures !IsScrubbed("\"" + inner) && ValueLen("\"" + inner) == 0
  {
    assert ("\"" + inner)[1..] == inner;
  }

  lemma OuterHeals(name: string, inner: string)
    requires IsAssignable(name) && IsAssignable(inner)
    ensures !HealingFree(false, Outer(name, Inner(inner)))
  {
    var u := Outer(name, Inner(inner));
    SpelledStart(name, "", "\"" + Inner(inner));
    InnerMatches(inner);
    InnerLeavesOpen(inner);
    assert Inner(inner)[0] == inner[0];
    OuterParts(name, Inner(inner));
    OpenQuote(Inner(inner));
    assert ValueStart(false, u) == |name| + 1;
    HealsHere(u, |name| + 1);
  }

  lemma HealsHere(u: string, v: nat)
    requires 0 < v < |u| && ValueStart(false, u) == v && u[v] == '"'
    requires !IsScrubbed(u[v..]) && ValueLen(u[v..]) == 0
    requires QuoteLen('"', u[v + 1..]) == 0 && ClosesJoined('"', false, u[v + 1..])
    ensures !HealingFree(false, u)
  {
    hide ValueStart, IsScrubbed, ValueLen, QuoteLen, ClosesJoined;
    assert MatchLen(EnvAssignment, false, u) == 0;
    assert Heals(false, u);
  }

  const JOINING_TEXT := "A_KEY=\"C_KEY=\nv\""

  lemma JoiningTextIsOuter()
    ensures JOINING_TEXT == Outer("A_KEY", Inner("C_KEY"))
  {
  }

  lemma JoiningTextHasNoKeys()
    ensures KeyPasses(JOINING_TEXT) == JOINING_TEXT
  {
    assert forall i :: 0 <= i < |JOINING_TEXT| ==> JOINING_TEXT[i] !in {'s', 'p', 'g', 'l', 'B', 'b'};
    hide KeyPasses;
    NoKeyLetters(JOINING_TEXT);
  }

  lemma NamesAreAssignable()
    ensures IsAssignable("A_KEY") && IsAssignable("C_KEY")
  {
    assert "A_KEY"[2..] == "KEY" && "C_KEY"[2..] == "KEY";
  }

  /** Scrubbing twice is not scrubbing once for every text. */
  lemma ScrubIsNotIdempotent()
    ensures Scrub(Scrub(JOINING_TEXT)) != Scrub(JOINING_TEXT)
  {
    hide *;
    NamesAreAssignable();
    OuterHeals("A_KEY", "C_KEY");
    JoiningTextIsOuter();
    JoiningTextHasNoKeys();
    ScrubIdempotentIff(JOINING_TEXT);
  }

  // ----- one scrub for every line -----

  /** Assignments inside one another, each with its value on the next line and all but the innermost with
      a quote that the innermost value stands in the way of; `quotes` closes them. */
  function Nested(names: seq<string>, quotes: string): string
    requires names != []
  {
    if |names| == 1 then names[0] + "=" + "\n" + ("v" + quotes)
    else names[0] + "=" + "\n" + ("\"" + Nested(names[1..], "\"" + quotes))
  }

  /** The same with the innermost assignment rewritten. */
  function Rewritten(names: seq<string>, quotes: string): string
    requires names != []
  {
    if |names| == 1 then names[0] + "=<secret:env>" + quotes
    else names[0] + "=" + "\n" + ("\"" + Rewritten(names[1..], "\"" + quotes))
  }

  predicate AreQuotes(s: string) {
    forall i :: 0 <= i < |s| ==> s[i] == '"'
  }

  predicate AreAssignable(names: seq<string>) {
    names != [] && forall i :: 0 <= i < |names| ==> IsAssignable(names[i])
  }

  lemma {:induction false} QuotesStay(w: bool, quotes: string)
    requires AreQuotes(quotes)
    ensures Replace(EnvAssignment, w, quotes) == quotes
    decreases |quotes|
  {
    hide MatchLen;
    if quotes != [] {
      StepOver(w, quotes);
      StepOn(w, quotes);
      QuotesStay(IsWord(quotes[0]), quotes[1..]);
    }
  }

  lemma SpelledParts(name: string, gap: string, rest: string, k: nat)
    requires k <= |rest|
    ensures var u, v := name + "=" + gap + rest, |name| + 1 + |gap|;
      && |u| == v + |rest| && u[..v + k] == name + "=" + gap + rest[..k] && u[v + k..] == rest[k..]
  {
  }

  /** A quote that stays open on its line lets the pass through to the text behind it. */
  lemma OpenThrough(name: string, gap: string, y: string)
    requires IsAssignable(name) && All(Space, gap) && y != [] && y[0] != '<' && QuoteLen('"', y) == 0
    ensures var u := name + "=" + gap + ("\"" + y);
      && MatchLen(EnvAssignment, false, u) == 0
      && Replace(EnvAssignment, false, u) == name + "=" + gap + ("\"" + Replace(EnvAssignment, false, y))
  {
    OpenQuote(y);
    SpelledStart(name, gap, "\"" + y);
    hide *;
    OpenAt(name + "=" + gap, y);
  }

  lemma OpenAt(h: string, y: string)
    requires h != "" && ValueStart(false, h + ("\"" + y)) == |h| && ValueLen("\"" + y) == 0
    ensures var u := h + ("\"" + y);
      MatchLen(EnvAssignment, false, u) == 0 && Replace(EnvAssignment, false, u) == h + ("\"" + Replace(EnvAssignment, false, y))
  {
    hide *;
    var u := h + ("\"" + y);
    QuoteParts(h, y, u);
    NoValueNoMatch(u, |h|);
    OpenPass(u, |h|, y);
    Halves(Replace(EnvAssignment, false, u), |h| + 1);
    Append3(h, "\"", Replace(EnvAssignment, false, y));
  }

  lemma QuoteParts(h: string, y: string, u: string)
    requires u == h + ("\"" + y)
    ensures |u| > |h| && u[|h|..] == "\"" + y && u[|h|..][0] == '"' && u[|h| + 1..] == y && u[..|h| + 1] == h + "\""
  {
  }

  lemma Append3(a: string, b: string, c: string)
    ensures a + b + c == a + (b + c)
  {
  }

  lemma Halves(t: string, n: nat)
    requires n <= |t|
    ensures t == t[..n] + t[n..]
  {
  }

  lemma NoValueNoMatch(u: string, v: nat)
    requires v <= |u| && ValueStart(false, u) == v && ValueLen(u[v..]) == 0
    ensures MatchLen(EnvAssignment, false, u) == 0
  {
    hide ValueStart, ValueLen, IsScrubbed;
  }

  lemma OpenPass(u: string, v: nat, y: string)
    requires 0 < v < |u| && ValueStart(false, u) == v && u[v..][0] == '"' && MatchLen(EnvAssignment, false, u) == 0
    requires u[v + 1..] == y
    ensures var t := Replace(EnvAssignment, false, u);
      v + 1 <= |t| && t[..v + 1] == u[..v + 1] && t[v + 1..] == Replace(EnvAssignment, false, y)
  {
    assert !IsWord('"');
    hide *;
    assert u[v] == u[v..][0];
    HeadStartsNoOther(false, u);
    PlainThrough(false, u, v + 1);
  }

  lemma NameHasNoQuote(name: string, rest: string)
    requires IsNameText(name)
    ensures QuoteLen('"', name + "=" + rest) > 0 <==> QuoteLen('"', rest) > 0
  {
    var head := name + "=";
    forall i | 0 <= i < |head| ensures head[i] != '"' && head[i] != '\n' {
      assert i < |name| ==> In(EnvName, name[i]);
    }
    QuoteOver('"', head, rest);
  }

  /** What starts with a name and has its value on the next line closes no quote. */
  lemma StaysOpen(name: string, rest: string)
    requires IsAssignable(name)
    ensures var y := name + "=" + "\n" + rest; y != [] && y[0] != '<' && QuoteLen('"', y) == 0
  {
    var y := name + "=" + "\n" + rest;
    assert y == name + "=" + ("\n" + rest) && ("\n" + rest)[0] == '\n';
    NameHasNoQuote(name, "\n" + rest);
  }

  /** The pass rewrites an assignment by its spelling. */
  lemma SpelledRewrite(name: string, gap: string, value: string, quotes: string)
    requires IsAssignable(name) && All(Space, gap) && AreQuotes(quotes) && value != []
    requires ValueLen(value + quotes) == |value| && !IsScrubbed(value + quotes) && !IsSpace(value[0])
    ensures Replace(EnvAssignment, false, name + "=" + gap + (value + quotes)) == name + "=<secret:env>" + quotes
  {
    hide *;
    var x, v := value + quotes, |name| + 1 + |gap|;
    var u := name + "=" + gap + x;
    SpelledStart(name, gap, x);
    SpelledParts(name, gap, x, 0);
    SpelledParts(name, gap, x, |value|);
    assert x[0..] == x && x[|value|..] == quotes;
    LengthIs(u, v, |value|);
    NameEnds(name, gap + x);
    Append3(name + "=", gap, x);
    RewriteOnce(u, name, quotes);
  }

  lemma LengthIs(u: string, v: nat, n: nat)
    requires 0 < v <= |u| && ValueStart(false, u) == v && !IsScrubbed(u[v..]) && ValueLen(u[v..]) == n && n > 0
    ensures MatchLen(EnvAssignment, false, u) == v + n
  {
    hide ValueStart, IsScrubbed, ValueLen;
  }

  lemma RewriteOnce(u: string, name: string, quotes: string)
    requires var n := MatchLen(EnvAssignment, false, u); n > 0 && u[n..] == quotes
    requires Run(EnvName, u) == |name| <= |u| && u[..|name|] == name && AreQuotes(quotes)
    ensures Replace(EnvAssignment, false, u) == name + "=<secret:env>" + quotes
  {
    hide MatchLen, AreQuotes, Run;
    QuotesStay(IsWord(u[MatchLen(EnvAssignment, false, u) - 1]), quotes);
  }

  lemma NameEnds(name: string, rest: string)
    requires IsAssignable(name)
    ensures var u := name + "=" + rest; Run(EnvName, u) == |name| && u[..|name|] == name
  {
    hide IsSecretName;
    RunIs(EnvName, name + "=" + rest, |name|);
  }

  lemma LetterIsValue(quotes: string)
    requires AreQuotes(quotes)
    ensures ValueLen("v" + quotes) == 1 && !IsScrubbed("v" + quotes)
  {
    RunIs(Bare, "v" + quotes, 1);
  }

  /** A rewritten assignment in quotes is a value. */
  lemma QuotedValue(name: string, quotes: string)
    requires IsAssignable(name)
    ensures var value := "\"" + (name + "=<secret:env>") + "\"";
      && !IsScrubbed(value + quotes) && ValueLen(value + quotes) == |value|
  {
    var head := name + "=<secret:env>";
    var x := "\"" + head + "\"" + quotes;
    var y := head + "\"" + quotes;
    assert x[1..] == y && x[0] == '"';
    NoQuoteInHead(name);
    assert y[0] == name[0] != '<';
    hide QuoteLen, IsAssignable;
    assert y[|head|] == '"';
    QuoteOnly('"', y, |head| + 1);
  }

  lemma NoQuoteInHead(name: string)
    requires IsNameText(name)
    ensures var head := name + "=<secret:env>"; forall i :: 0 <= i < |head| ==> head[i] != '"' && head[i] != '\n'
  {
    var head, tail := name + "=<secret:env>", "=<secret:env>";
    assert forall k :: 0 <= k < |tail| ==> tail[k] != '"' && tail[k] != '\n';
    forall i | 0 <= i < |head| ensures head[i] != '"' && head[i] != '\n' {
      if i < |name| {
        assert In(EnvName, name[i]);
      } else {
        assert head[i] == tail[i - |name|];
      }
    }
  }

  /** The first pass reaches the innermost assignment only. */
  lemma {:induction false} NestedPass(names: seq<string>, quotes: string)
    requires AreAssignable(names) && AreQuotes(quotes)
    ensures Replace(EnvAssignment, false, Nested(names, quotes)) == Rewritten(names, quotes)
    decreases |names|
  {
    hide *;
    OnePart(names);
    if |names| == 1 {
      NestedOne(names, quotes);
      LetterIsValue(quotes);
      LetterIsNoSpace();
      SpelledRewrite(names[0], "\n", "v", quotes);
      RewrittenOne(names, quotes);
    } else {
      var rest := names[1..];
      PartsOf(names, quotes);
      NestedNext(names, quotes);
      RewrittenNext(names, quotes);
      NestedStaysOpen(rest, "\"" + quotes);
      OpenThrough(names[0], "\n", Nested(rest, "\"" + quotes));
      NestedPass(rest, "\"" + quotes);
    }
  }

  lemma OnePart(names: seq<string>)
    requires AreAssignable(names)
    ensures names != [] && IsAssignable(names[0]) && All(Space, "\n")
  {
    hide IsAssignable;
  }

  lemma LetterIsNoSpace()
    ensures !IsSpace("v"[0]) && !IsSpace("\""[0])
  {
  }

  lemma NestedOne(names: seq<string>, quotes: string)
    requires |names| == 1
    ensures Nested(names, quotes) == names[0] + "=" + "\n" + ("v" + quotes)
  {
  }

  lemma NestedNext(names: seq<string>, quotes: string)
    requires |names| > 1
    ensures Nested(names, quotes) == names[0] + "=" + "\n" + ("\"" + Nested(names[1..], "\"" + quotes))
  {
  }

  lemma NestedStaysOpen(names: seq<string>, quotes: string)
    requires AreAssignable(names)
    ensures var y := Nested(names, quotes); y != [] && y[0] != '<' && QuoteLen('"', y) == 0
  {
    assert IsAssignable(names[0]);
    hide IsAssignable;
    StaysOpen(names[0], if |names| == 1 then "v" + quotes else "\"" + Nested(names[1..], "\"" + quotes));
  }

  /** Every later pass takes the innermost two for one. */
  lemma {:induction false} RewrittenPass(names: seq<string>, quotes: string)
    requires AreAssignable(names) && AreQuotes(quotes) && |names| > 1
    ensures Replace(EnvAssignment, false, Rewritten(names, quotes)) == Rewritten(names[..|names| - 1], quotes)
    decreases |names|
  {
    hide *;
    var name, rest, last := names[0], names[1..], |names| - 1;
    PartsOf(names, quotes);
    RewrittenNext(names, quotes);
    if |names| == 2 {
      TwoForOne(name, "\n", rest[0], quotes);
      RewrittenOne(rest, "\"" + quotes);
      RewrittenOne(names[..last], quotes);
    } else {
      RewrittenStaysOpen(rest, "\"" + quotes);
      OpenThrough(name, "\n", Rewritten(rest, "\"" + quotes));
      RewrittenPass(rest, "\"" + quotes);
      assert rest[..last - 1] == names[..last][1..];
      RewrittenNext(names[..last], quotes);
    }
  }

  lemma PartsOf(names: seq<string>, quotes: string)
    requires AreAssignable(names) && AreQuotes(quotes) && |names| > 1
    ensures IsAssignable(names[0]) && IsAssignable(names[1..][0]) && AreAssignable(names[1..])
    ensures AreQuotes("\"" + quotes) && All(Space, "\n")
  {
    hide IsAssignable;
  }

  lemma RewrittenOne(names: seq<string>, quotes: string)
    requires |names| == 1
    ensures Rewritten(names, quotes) == names[0] + "=<secret:env>" + quotes
  {
  }

  lemma RewrittenNext(names: seq<string>, quotes: string)
    requires |names| > 1
    ensures Rewritten(names, quotes) == names[0] + "=" + "\n" + ("\"" + Rewritten(names[1..], "\"" + quotes))
  {
  }

  lemma TwoForOne(name: string, gap: string, inner: string, quotes: string)
    requires IsAssignable(name) && All(Space, gap) && IsAssignable(inner) && AreQuotes(quotes)
    ensures Replace(EnvAssignment, false, name + "=" + gap + ("\"" + (inner + "=<secret:env>" + ("\"" + quotes))))
      == name + "=<secret:env>" + quotes
  {
    hide *;
    var head := inner + "=<secret:env>";
    QuotedValue(inner, quotes);
    LetterIsNoSpace();
    Requote(head, quotes);
    SpelledRewrite(name, gap, "\"" + head + "\"", quotes);
  }

  lemma Requote(head: string, quotes: string)
    ensures "\"" + (head + ("\"" + quotes)) == "\"" + head + "\"" + quotes && ("\"" + head + "\"")[0] == "\""[0]
  {
  }

  lemma RewrittenStaysOpen(names: seq<string>, quotes: string)
    requires AreAssignable(names) && |names| > 1
    ensures var y := Rewritten(names, quotes); y != [] && y[0] != '<' && QuoteLen('"', y) == 0
  {
    assert IsAssignable(names[0]);
    hide IsAssignable;
    StaysOpen(names[0], "\"" + Rewritten(names[1..], "\"" + quotes));
  }

  /** The nest in a quote of its own, on the line of its name. */
  function Start(name: string, names: seq<string>): string
    requires names != []
  {
    Outer(name, Nested(names, "\""))
  }

  function After(name: string, names: seq<string>): string
    requires names != []
  {
    Outer(name, Rewritten(names, "\""))
  }

  lemma StartPass(name: string, names: seq<string>)
    requires IsAssignable(name) && AreAssignable(names)
    ensures Replace(EnvAssignment, false, Start(name, names)) == After(name, names)
  {
    NestedStaysOpen(names, "\"");
    OpenThrough(name, "", Nested(names, "\""));
    hide IsAssignable, Replace, Nested, Rewritten;
    NestedPass(names, "\"");
  }

  lemma AfterPass(name: string, names: seq<string>)
    requires IsAssignable(name) && AreAssignable(names) && |names| > 1
    ensures Replace(EnvAssignment, false, After(name, names)) == After(name, names[..|names| - 1])
  {
    RewrittenStaysOpen(names, "\"");
    OpenThrough(name, "", Rewritten(names, "\""));
    hide IsAssignable, Replace;
    RewrittenPass(names, "\"");
  }

  lemma LastPass(name: string, names: seq<string>)
    requires IsAssignable(name) && AreAssignable(names) && |names| == 1
    ensures Replace(EnvAssignment, false, After(name, names)) != After(name, names)
  {
    var inner := names[0];
    assert IsAssignable(inner);
    assert After(name, names) == name + "=" + "" + ("\"" + (inner + "=<secret:env>" + ("\"" + "")));
    hide *;
    TwoForOne(name, "", inner, "");
    var t := Replace(EnvAssignment, false, After(name, names));
    assert |t| < |After(name, names)|;
  }

  // ----- the nest, scrubbed as often as it has lines -----

  predicate NoKeyLetter(s: string) {
    forall i :: 0 <= i < |s| ==> s[i] !in {'s', 'p', 'g', 'l', 'B', 'b'}
  }

  lemma NoKeyLetterAppend(a: string, b: string)
    requires NoKeyLetter(a) && NoKeyLetter(b)
    ensures NoKeyLetter(a + b)
  {
  }

  lemma {:induction false} NestedHasNoKeyLetter(names: seq<string>, quotes: string)
    requires AreAssignable(names) && AreQuotes(quotes)
    requires forall i :: 0 <= i < |names| ==> NoKeyLetter(names[i])
    ensures NoKeyLetter(Nested(names, quotes))
    decreases |names|
  {
    assert NoKeyLetter(names[0]);
    assert NoKeyLetter("=") && NoKeyLetter("\n") && NoKeyLetter("\"") && NoKeyLetter("v") && NoKeyLetter(quotes);
    hide NoKeyLetter, IsAssignable;
    NoKeyLetterAppend(names[0], "=");
    NoKeyLetterAppend(names[0] + "=", "\n");
    if |names| == 1 {
      NoKeyLetterAppend("v", quotes);
      NoKeyLetterAppend(names[0] + "=" + "\n", "v" + quotes);
    } else {
      NestedHasNoKeyLetter(names[1..], "\"" + quotes);
      NoKeyLetterAppend("\"", Nested(names[1..], "\"" + quotes));
      NoKeyLetterAppend(names[0] + "=" + "\n", "\"" + Nested(names[1..], "\"" + quotes));
    }
  }

  lemma StartHasNoKeys(name: string, names: seq<string>)
    requires AreAssignable(names) && NoKeyLetter(name)
    requires forall i :: 0 <= i < |names| ==> NoKeyLetter(names[i])
    ensures KeyPasses(Start(name, names)) == Start(name, names)
  {
    NestedHasNoKeyLetter(names, "\"");
    assert NoKeyLetter("=" + "") && NoKeyLetter("\"");
    hide Nested, KeyPasses;
    NoKeyLetters(Start(name, names));
  }

  lemma {:induction false} NewlinesOfNested(names: seq<string>, quotes: string)
    requires AreAssignable(names) && AreQuotes(quotes)
    ensures Newlines(Nested(names, quotes)) == |names|
    decreases |names|
  {
    assert IsAssignable(names[0]);
    HeadNewlines(names[0]);
    hide IsAssignable, Newlines;
    if |names| == 1 {
      assert '\n' !in "v" + quotes;
      NoNewlines("v" + quotes);
      NewlinesAppend(names[0] + "=" + "\n", "v" + quotes);
    } else {
      NewlinesOfNested(names[1..], "\"" + quotes);
      NoNewlines("\"");
      NewlinesAppend("\"", Nested(names[1..], "\"" + quotes));
      NewlinesAppend(names[0] + "=" + "\n", "\"" + Nested(names[1..], "\"" + quotes));
    }
  }

  lemma HeadNewlines(name: string)
    requires IsAssignable(name)
    ensures Newlines(name + "=" + "\n") == 1 && Newlines(name + "=" + "" + "\"") == 0
  {
    assert forall i :: 0 <= i < |name| ==> In(EnvName, name[i]);
    assert '\n' !in name + "=" + "" + "\"" && '\n' !in name + "=";
    hide IsAssignable;
    NoNewlines(name + "=" + "" + "\"");
    NoNewlines(name + "=");
    NewlinesAppend(name + "=", "\n");
    assert Newlines("\n") == 1;
  }

  lemma NewlinesOfStart(name: string, names: seq<string>)
    requires IsAssignable(name) && AreAssignable(names)
    ensures Newlines(Start(name, names)) == |names|
  {
    HeadNewlines(name);
    NewlinesOfNested(names, "\"");
    hide Newlines, IsAssignable, Nested;
    Append3(name + "=" + "", "\"", Nested(names, "\""));
    NewlinesAppend(name + "=" + "" + "\"", Nested(names, "\""));
  }

  lemma RescrubIsLastPass(s: string)
    ensures Scrub(Scrub(s)) == Replace(EnvAssignment, false, Scrub(s))
  {
    hide Clean, Scrub, Replace, KeyPatterns;
    forall i | 0 <= i < |KeyPatterns()| ensures Clean(KeyPatterns()[i], false, Scrub(s)) {
      ScrubLeavesNoKeys(s, i);
    }
    ScrubWithoutKeys(Scrub(s));
  }

  /** Every scrub takes one assignment out of the nest. */
  lemma {:induction false} NestTimes(name: string, names: seq<string>, k: nat)
    requires IsAssignable(name) && AreAssignable(names) && 0 < k <= |names|
    requires KeyPasses(Start(name, names)) == Start(name, names)
    ensures Times(k, Start(name, names)) == After(name, names[..|names| - k + 1])
    decreases k
  {
    hide IsAssignable, Scrub, Replace, Start, After, KeyPasses;
    var s := Start(name, names);
    if k == 1 {
      assert Times(0, s) == s && names[..|names|] == names;
      ScrubIsKeysThenAssignments(s);
      StartPass(name, names);
    } else {
      NestTimes(name, names, k - 1);
      var left := names[..|names| - k + 2];
      RescrubIsLastPass(Times(k - 2, s));
      AfterPass(name, left);
      assert left[..|left| - 1] == names[..|names| - k + 1];
    }
  }

  /** A nest over `n` newlines is not settled by `n` scrubs, and the verifier still reports it then. */
  lemma NestNeedsEveryLine(name: string, names: seq<string>)
    requires IsAssignable(name) && AreAssignable(names) && NoKeyLetter(name)
    requires forall i :: 0 <= i < |names| ==> NoKeyLetter(names[i])
    ensures var s := Start(name, names);
      && Newlines(s) == |names| && Scrub(Times(|names|, s)) != Times(|names|, s)
      && Survivors(Patterns(), Times(|names|, s)) == ["env-assignment"]
  {
    hide *;
    FirstName(names);
    StartHasNoKeys(name, names);
    NewlinesOfStart(name, names);
    NestTimesLast(name, names);
    UnsettledIsReported(|names|, Start(name, names));
  }

  lemma UnsettledIsReported(k: nat, s: string)
    requires k > 0 && Scrub(Times(k, s)) != Times(k, s)
    ensures Survivors(Patterns(), Times(k, s)) == ["env-assignment"]
  {
    hide *;
    TimesNext(k, s);
    ScrubIdempotentIff(Times(k - 1, s));
    VerifierOnScrubbed(Times(k - 1, s));
  }

  lemma NestTimesLast(name: string, names: seq<string>)
    requires IsAssignable(name) && AreAssignable(names)
    requires KeyPasses(Start(name, names)) == Start(name, names)
    ensures var s := Start(name, names); Scrub(Times(|names|, s)) != Times(|names|, s)
  {
    hide *;
    FirstName(names);
    var s, n := Start(name, names), |names|;
    NestTimes(name, names, n);
    TimesNext(n, s);
    RescrubIsLastPass(Times(n - 1, s));
    LastPass(name, names[..1]);
  }

  lemma FirstName(names: seq<string>)
    requires AreAssignable(names)
    ensures names != [] && names[..|names| - |names| + 1] == names[..1] && AreAssignable(names[..1])
  {
    hide IsAssignable;
  }

  lemma TimesNext(k: nat, s: string)
    requires k > 0
    ensures Times(k, s) == Scrub(Times(k - 1, s))
  {
    hide Scrub;
  }

  lemma OneLineNeedsOne()
    ensures Newlines("A_KEY=v") == 0 && Scrub("A_KEY=v") != "A_KEY=v"
  {
    var s := "A_KEY=v";
    NamesAreAssignable();
    NoNewlines(s);
    assert NoKeyLetter(s);
    LetterIsValue("");
    assert s == "A_KEY" + "=" + "" + ("v" + "");
    hide IsAssignable, Newlines, Replace, KeyPasses, Scrub, IsScrubbed, ValueLen;
    NoKeyLetters(s);
    ScrubIsKeysThenAssignments(s);
    SpelledRewrite("A_KEY", "", "v", "");
  }

  /** For every number of newlines there is a text that as many scrubs leave unsettled. */
  lemma EveryLineCanBeNeeded(n: nat)
    ensures exists s :: Newlines(s) == n && Scrub(Times(n, s)) != Times(n, s)
  {
    hide Newlines, Scrub;
    if n == 0 {
      OneLineNeedsOne();
      assert Times(0, "A_KEY=v") == "A_KEY=v";
    } else {
      var names := seq(n, i => "C_KEY");
      NamesAreAssignable();
      assert NoKeyLetter("A_KEY") && NoKeyLetter("C_KEY");
      hide IsAssignable, NoKeyLetter, Start;
      assert AreAssignable(names);
      NestNeedsEveryLine("A_KEY", names);
    }
  }

  lemma {:induction false} SettledStays(s: string, k: nat, n: nat)
    requires k <= n && Scrub(Times(k, s)) == Times(k, s)
    ensures Scrub(Times(n, s)) == Times(n, s)
    decreases n
  {
    hide Scrub;
    if k < n {
      SettledStays(s, k, n - 1);
    }
  }

  /** `k` scrubs settle every text with `n` newlines exactly when `k` is more than `n`. */
  lemma ScrubsSettleIff(n: nat, k: nat)
    ensures (forall s :: Newlines(s) == n ==> Scrub(Times(k, s)) == Times(k, s)) <==> k > n
  {
    hide Scrub, Newlines;
    if k > n {
      forall s | Newlines(s) == n ensures Scrub(Times(k, s)) == Times(k, s) {
        LinesManyScrubsSettle(s, k);
      }
    } else {
      EveryLineCanBeNeeded(n);
      var s :| Newlines(s) == n && Scrub(Times(n, s)) != Times(n, s);
      if Scrub(Times(k, s)) == Times(k, s) {
        SettledStays(s, k, n);
        assert false;
      }
      assert Newlines(s) == n && Scrub(Times(k, s)) != Times(k, s);
    }
  }
}
