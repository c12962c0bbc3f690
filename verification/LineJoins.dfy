/** Idempotence from the text itself. The key passes bring no assignment into being that runs over a
    newline: names, white space and `=` pass through them, and no name starts inside a replacement. So a
    text in which none does before the scrubber has none when the last pass reads it. */
module LineJoins {
  import opened Text
  import opened SecretPatterns
  import opened KeyCleaning
  import opened AssignmentCleaning
  import opened Scrubber

  /** No `NAME\s*=\s*` in `u`, wherever the search for one starts, holds a newline. */
  predicate HeadsOnOneLine(w: bool, u: string)
    decreases |u|
  {
    u != [] ==> '\n' !in u[..ValueStart(w, u)] && HeadsOnOneLine(IsWord(u[0]), u[1..])
  }

  /** The value of a `NAME\s*=\s*` at the start of `u` opens a quote. */
  predicate OpensQuote(w: bool, u: string) {
    0 < ValueStart(w, u) < |u| && (u[ValueStart(w, u)] == '"' || u[ValueStart(w, u)] == '\'')
  }

  /** Behind no assignment in `u` whose value opens a quote does another run over a newline. */
  predicate NoQuoteThenJoin(w: bool, u: string)
    decreases |u|
  {
    u != [] ==>
      && (OpensQuote(w, u) ==> HeadsOnOneLine(false, u[ValueStart(w, u) + 1..]))
      && NoQuoteThenJoin(IsWord(u[0]), u[1..])
  }

  /** The first in the words of the whole text: no position starts a head with a newline in it. */
  lemma {:induction false} HeadsOnOneLineFrom(s: string, i: nat)
    requires i <= |s|
    ensures HeadsOnOneLine(WordBefore(s, i), s[i..]) <==>
      forall k: nat :: i <= k < |s| ==> '\n' !in s[k..][..ValueStart(WordBefore(s, k), s[k..])]
    decreases |s| - i
  {
    hide ValueStart, IsWord;
    if i < |s| {
      HeadsOnOneLineFrom(s, i + 1);
      assert s[i..][1..] == s[i + 1..];
    }
  }

  lemma {:induction false} HeadsDrop(w: bool, u: string, n: nat)
    requires HeadsOnOneLine(w, u) && 0 < n <= |u|
    ensures HeadsOnOneLine(IsWord(u[n - 1]), u[n..])
    decreases n
  {
    hide ValueStart, IsWord;
    if n > 1 {
      HeadsDrop(IsWord(u[0]), u[1..], n - 1);
      assert u[1..][n - 1..] == u[n..];
    }
  }

  lemma {:induction false} QuotesDrop(w: bool, u: string, n: nat)
    requires NoQuoteThenJoin(w, u) && 0 < n <= |u|
    ensures NoQuoteThenJoin(IsWord(u[n - 1]), u[n..])
    decreases n
  {
    hide OpensQuote, ValueStart, IsWord;
    if n > 1 {
      QuotesDrop(IsWord(u[0]), u[1..], n - 1);
      assert u[1..][n - 1..] == u[n..];
    }
  }

  lemma {:induction false} OneLineHeadsHaveNoQuoteThenJoin(w: bool, u: string)
    requires HeadsOnOneLine(w, u)
    ensures NoQuoteThenJoin(w, u)
    decreases |u|
  {
    hide ValueStart;
    if u != [] {
      if OpensQuote(w, u) {
        HeadsDrop(w, u, ValueStart(w, u) + 1);
      }
      OneLineHeadsHaveNoQuoteThenJoin(IsWord(u[0]), u[1..]);
    }
  }

  // ----- what a key pass lets through -----

  predicate NoCapital(text: string) {
    forall i :: 0 <= i < |text| ==> !IsUpper(text[i])
  }

  /** A key pass of the scrubber: its placeholder holds no capital. */
  predicate IsKeyPass(q: Pattern) {
    IsKeyLike(q) && (q.KeyShape? ==> NoCapital(q.placeholder))
  }

  /** The first character stays, unless it is a letter of a key. */
  lemma FirstThrough(q: Pattern, w: bool, u: string)
    requires IsKeyPass(q) && u != []
    ensures var t := Replace(q, w, u);
      && t != []
      && (MatchLen(q, w, u) == 0 ==> t[0] == u[0] && t[1..] == Replace(q, IsWord(u[0]), u[1..]))
      && (MatchLen(q, w, u) > 0 ==> u[0] in {'s', 'p', 'g', 'l', 'B', 'b'} && (t[0] == '<' || (!w && t[0] == 'B')))
      && (MatchLen(q, w, u) > 0 && w ==> u[0] in {'s', 'p', 'g', 'l'})
  {
    if MatchLen(q, w, u) > 0 {
      MatchStart(q, w, u);
      if q.KeyShape? {
        KeyStart(q.prefixes, q.body, q.min, u);
      }
    }
    hide KeyLen, BearerLen;
  }

  lemma {:induction false} NameThroughKey(q: Pattern, u: string)
    requires IsKeyPass(q)
    ensures var r := Run(EnvName, u); var t := Replace(q, true, u);
      Run(EnvName, t) == r && t[..r] == u[..r] && t[r..] == Replace(q, true, u[r..])
    decreases |u|
  {
    hide MatchLen, Replace, IsKeyPass;
    var r := Run(EnvName, u);
    var t := Replace(q, true, u);
    NothingReplaced(q, true);
    if u != [] {
      FirstThrough(q, true, u);
      if In(EnvName, u[0]) {
        NameThroughKey(q, u[1..]);
        TailParts(u, r);
        TailParts(t, r);
      } else {
        assert u[0..] == u && t[0..] == t;
      }
    }
  }

  lemma NothingReplaced(q: Pattern, w: bool)
    ensures Replace(q, w, []) == []
  {
  }

  lemma {:induction false} SpaceThroughKey(q: Pattern, w: bool, u: string)
    requires IsKeyPass(q)
    ensures var r := Run(Space, u); var t := Replace(q, w, u);
      Run(Space, t) == r && t[..r] == u[..r] && t[r..] == Replace(q, r == 0 && w, u[r..])
    decreases |u|
  {
    hide MatchLen, Replace, IsKeyPass;
    var r := Run(Space, u);
    var t := Replace(q, w, u);
    NothingReplaced(q, w);
    if u != [] {
      FirstThrough(q, w, u);
      if In(Space, u[0]) {
        SpaceThroughKey(q, false, u[1..]);
        TailParts(u, r);
        TailParts(t, r);
      } else {
        assert u[0..] == u && t[0..] == t;
      }
    }
  }

  lemma EqualsThroughKey(q: Pattern, w: bool, u: string)
    requires IsKeyPass(q)
    ensures var n := EqualsLen(u); var t := Replace(q, w, u);
      EqualsLen(t) == n && t[..n] == u[..n] && (n > 0 ==> t[n..] == Replace(q, false, u[n..]))
  {
    hide MatchLen, Replace, IsKeyPass, In, Run;
    var e, t := Run(Space, u), Replace(q, w, u);
    SpaceThroughKey(q, w, u);
    var x, y := u[e..], t[e..];
    NothingReplaced(q, e == 0 && w);
    if x != [] {
      FirstThrough(q, e == 0 && w, x);
      if x[0] == '=' {
        SpaceThroughKey(q, false, x[1..]);
        var n := e + 1 + Run(Space, x[1..]);
        SplitParts(u, e, n);
        SplitParts(t, e, n);
      }
    }
  }

  lemma SplitParts(u: string, e: nat, n: nat)
    requires e < n <= |u|
    ensures u[..n] == u[..e] + [u[e]] + u[e..][1..][..n - e - 1] && u[n..] == u[e..][1..][n - e - 1..]
  {
  }

  /** The head of an assignment passes through, and what follows it is rewritten on its own. */
  lemma HeadThroughKey(q: Pattern, w: bool, u: string)
    requires IsKeyPass(q) && u != [] && MatchLen(q, w, u) == 0
    ensures var v := ValueStart(w, u); var t := Replace(q, w, u);
      && ValueStart(w, t) == v && t[..v] == u[..v]
      && (v > 0 ==> t[v..] == Replace(q, false, u[v..]))
  {
    hide MatchLen, Replace, IsKeyPass, EqualsLen, IsSecretName;
    var t := Replace(q, w, u);
    FirstThrough(q, w, u);
    if !w && IsUpper(u[0]) {
      NameThroughKey(q, u[1..]);
      RunFromCapital(u);
      RunFromCapital(t);
      var a := Run(EnvName, u);
      hide Run;
      TailParts(u, a);
      TailParts(t, a);
      EqualsThroughKey(q, true, u[a..]);
      var n := EqualsLen(u[a..]);
      JoinParts(u, a, n);
      JoinParts(t, a, n);
    }
  }

  lemma JoinParts(u: string, a: nat, n: nat)
    requires a + n <= |u|
    ensures u[..a + n] == u[..a] + u[a..][..n] && u[a + n..] == u[a..][n..]
  {
  }

  // ----- no head starts inside a replacement -----

  /** Neither of the two predicates minds text without a head in front. */
  lemma HeadsBehindOne(w: bool, c: char, rest: string)
    requires ValueStart(w, [c] + rest) == 0
    ensures HeadsOnOneLine(w, [c] + rest) <==> HeadsOnOneLine(IsWord(c), rest)
    ensures NoQuoteThenJoin(w, [c] + rest) <==> NoQuoteThenJoin(IsWord(c), rest)
  {
    hide ValueStart, IsWord;
    assert ([c] + rest)[1..] == rest;
  }

  lemma {:induction false} HeadsBehindLower(w: bool, head: string, rest: string)
    requires head != [] && NoCapital(head)
    ensures var last := IsWord(head[|head| - 1]);
      && (HeadsOnOneLine(w, head + rest) <==> HeadsOnOneLine(last, rest))
      && (NoQuoteThenJoin(w, head + rest) <==> NoQuoteThenJoin(last, rest))
    decreases |head|
  {
    hide HeadsOnOneLine, NoQuoteThenJoin, IsWord;
    var t := head + rest;
    assert ValueStart(w, t) == 0;
    hide ValueStart;
    if |head| == 1 {
      assert t == [head[0]] + rest;
      HeadsBehindOne(w, head[0], rest);
    } else {
      assert t == [head[0]] + (head[1..] + rest);
      HeadsBehindOne(w, head[0], head[1..] + rest);
      HeadsBehindLower(IsWord(head[0]), head[1..], rest);
    }
  }

  lemma NoHeadAtBearer(w: bool, rest: string)
    ensures ValueStart(w, "B" + ("e" + rest)) == 0
  {
    var u := "B" + ("e" + rest);
    assert u[0] == 'B' && u[1] == 'e';
    RunIs(EnvName, u, 1);
    assert u[..1] == "B";
  }

  lemma HeadsBehindBearer(w: bool, rest: string)
    ensures HeadsOnOneLine(w, "Bearer <secret:bearer>" + rest) <==> HeadsOnOneLine(false, rest)
    ensures NoQuoteThenJoin(w, "Bearer <secret:bearer>" + rest) <==> NoQuoteThenJoin(false, rest)
  {
    hide HeadsOnOneLine, NoQuoteThenJoin, ValueStart, NoCapital;
    var tail := "arer <secret:bearer>" + rest;
    BearerParts(rest);
    BearerHasNoCapital();
    NoHeadAtBearer(w, tail);
    HeadsBehindOne(w, 'B', "e" + tail);
    HeadsBehindLower(IsWord('B'), "earer <secret:bearer>", rest);
  }

  lemma BearerParts(rest: string)
    ensures "Bearer <secret:bearer>" + rest == "B" + ("e" + ("arer <secret:bearer>" + rest))
    ensures "e" + ("arer <secret:bearer>" + rest) == "earer <secret:bearer>" + rest
  {
    BearerSpelled();
    Regroup("B", "e", "arer <secret:bearer>", rest);
  }

  lemma BearerSpelled()
    ensures "e" + "arer <secret:bearer>" == "earer <secret:bearer>"
    ensures "B" + ("e" + "arer <secret:bearer>") == "Bearer <secret:bearer>"
  {
  }

  lemma BearerHasNoCapital()
    ensures NoCapital("earer <secret:bearer>")
  {
  }

  lemma Regroup(x: string, y: string, a: string, rest: string)
    ensures (x + (y + a)) + rest == x + (y + (a + rest)) && (y + a) + rest == y + (a + rest)
  {
  }

  lemma HeadsBehindReplacement(q: Pattern, w: bool, u: string, rest: string)
    requires IsKeyPass(q)
    ensures HeadsOnOneLine(w, Replacement(q, u) + rest) <==> HeadsOnOneLine(false, rest)
    ensures NoQuoteThenJoin(w, Replacement(q, u) + rest) <==> NoQuoteThenJoin(false, rest)
  {
    hide HeadsOnOneLine, NoQuoteThenJoin;
    if q.KeyShape? {
      HeadsBehindLower(w, q.placeholder, rest);
    } else {
      HeadsBehindBearer(w, rest);
    }
  }

  // ----- the key passes -----

  lemma {:induction false} KeyPassKeepsHeads(q: Pattern, w: bool, w': bool, u: string)
    requires IsKeyPass(q) && HeadsOnOneLine(w, u)
    requires w == w' || u == [] || !IsLetter(u[0])
    ensures HeadsOnOneLine(w', Replace(q, w, u))
    decreases |u|
  {
    hide MatchLen, Replacement, ValueStart, IsKeyPass, IsWord;
    if u != [] {
      var n := MatchLen(q, w, u);
      var t := Replace(q, w, u);
      if n == 0 {
        FirstThrough(q, w, u);
        HeadThroughKey(q, w, u);
        NoHeadWithoutCapital(w, w', t);
        KeyPassKeepsHeads(q, IsWord(u[0]), IsWord(u[0]), u[1..]);
      } else {
        HeadsDrop(w, u, n);
        RestIsFree(q, w, u);
        KeyPassKeepsHeads(q, IsWord(u[n - 1]), false, u[n..]);
        HeadsBehindReplacement(q, w', u, Replace(q, IsWord(u[n - 1]), u[n..]));
      }
    }
  }

  lemma NoHeadWithoutCapital(w: bool, w': bool, u: string)
    requires u != [] && (w == w' || !IsLetter(u[0]))
    ensures ValueStart(w', u) == ValueStart(w, u)
  {
  }

  lemma RestIsFree(q: Pattern, w: bool, u: string)
    requires IsKeyPass(q) && MatchLen(q, w, u) > 0
    ensures var n := MatchLen(q, w, u); IsWord(u[n - 1]) == false || u[n..] == [] || !IsLetter(u[n..][0])
  {
    hide MatchLen, IsLetter, IsWord;
    if MatchLen(q, w, u) < |u| {
      MatchEnd(q, w, u);
    }
  }

  lemma {:induction false} KeyPassKeepsQuotes(q: Pattern, w: bool, w': bool, u: string)
    requires IsKeyPass(q) && NoQuoteThenJoin(w, u)
    requires w == w' || u == [] || !IsLetter(u[0])
    ensures NoQuoteThenJoin(w', Replace(q, w, u))
    decreases |u|
  {
    hide MatchLen, Replacement, ValueStart, IsKeyPass, IsWord, HeadsOnOneLine;
    if u != [] {
      var n := MatchLen(q, w, u);
      var t := Replace(q, w, u);
      if n == 0 {
        FirstThrough(q, w, u);
        QuoteThrough(q, w, u);
        NoHeadWithoutCapital(w, w', t);
        KeyPassKeepsQuotes(q, IsWord(u[0]), IsWord(u[0]), u[1..]);
      } else {
        QuotesDrop(w, u, n);
        RestIsFree(q, w, u);
        KeyPassKeepsQuotes(q, IsWord(u[n - 1]), false, u[n..]);
        HeadsBehindReplacement(q, w', u, Replace(q, IsWord(u[n - 1]), u[n..]));
      }
    }
  }

  lemma QuoteThrough(q: Pattern, w: bool, u: string)
    requires IsKeyPass(q) && u != [] && MatchLen(q, w, u) == 0
    requires OpensQuote(w, u) ==> HeadsOnOneLine(false, u[ValueStart(w, u) + 1..])
    ensures var t := Replace(q, w, u); OpensQuote(w, t) ==> HeadsOnOneLine(false, t[ValueStart(w, t) + 1..])
  {
    HeadThroughKey(q, w, u);
    hide *;
    var v, t := ValueStart(w, u), Replace(q, w, u);
    if OpensQuote(w, t) {
      Opens(w, t);
      BehindQuote(q, u[v..], t[v..]);
      RestOf(t, v);
      LongEnough(u, v);
      RestOf(u, v);
      OpensAlso(w, u, v);
    }
  }

  lemma Opens(w: bool, u: string)
    requires OpensQuote(w, u)
    ensures var v := ValueStart(w, u); 0 < v < |u| && u[v..] != [] && (u[v..][0] == '"' || u[v..][0] == '\'')
  {
  }

  lemma OpensAlso(w: bool, u: string, v: nat)
    requires 0 < v < |u| && v == ValueStart(w, u) && (u[v] == '"' || u[v] == '\'')
    ensures OpensQuote(w, u)
  {
  }

  lemma LongEnough(u: string, v: nat)
    requires v <= |u| && u[v..] != []
    ensures v < |u|
  {
  }

  lemma RestOf(u: string, v: nat)
    requires v < |u|
    ensures u[v..] != [] && u[v..][0] == u[v] && u[v..][1..] == u[v + 1..]
  {
  }

  /** Text that starts with a quote after a key pass started with it before. */
  lemma BehindQuote(q: Pattern, x: string, y: string)
    requires IsKeyPass(q) && y == Replace(q, false, x) && y != [] && (y[0] == '"' || y[0] == '\'')
    ensures x != [] && x[0] == y[0]
    ensures HeadsOnOneLine(false, x[1..]) ==> HeadsOnOneLine(false, y[1..])
  {
    NothingReplaced(q, false);
    hide MatchLen, Replace, IsKeyPass, HeadsOnOneLine;
    FirstThrough(q, false, x);
    if HeadsOnOneLine(false, x[1..]) {
      KeyPassKeepsHeads(q, false, false, x[1..]);
    }
  }

  lemma SkPlaceholdersHaveNoCapital()
    ensures NoCapital("<secret:openrouter>") && NoCapital("<secret:anthropic>")
    ensures NoCapital("<secret:openai>") && NoCapital("<secret:sk>")
  {
  }

  lemma ServicePlaceholdersHaveNoCapital()
    ensures NoCapital("<secret:potion-key>") && NoCapital("<secret:github>")
    ensures NoCapital("<secret:github-pat>") && NoCapital("<secret:linear>")
  {
  }

  lemma KeyPatternsAreKeyPasses(i: nat)
    requires i < |KeyPatterns()|
    ensures IsKeyPass(KeyPatterns()[i])
  {
    PatternsAreKeyLike(i);
    SkPlaceholdersHaveNoCapital();
    ServicePlaceholdersHaveNoCapital();
    hide IsKeyLike, NoCapital;
  }

  lemma {:induction false} PassesKeepQuotes(passes: seq<Pattern>, s: string)
    requires forall i :: 0 <= i < |passes| ==> IsKeyPass(passes[i])
    requires NoQuoteThenJoin(false, s)
    ensures NoQuoteThenJoin(false, ScrubWith(passes, s))
    decreases |passes|
  {
    hide Replace, NoQuoteThenJoin, IsKeyPass;
    if passes != [] {
      assert IsKeyPass(passes[0]);
      KeyPassKeepsQuotes(passes[0], false, false, s);
      PassesKeepQuotes(passes[1..], Replace(passes[0], false, s));
    }
  }

  // ----- what follows for the last pass -----

  lemma ValueHasNoNewline(x: string)
    ensures '\n' !in x[..ValueLen(x)]
  {
    if x != [] {
      if x[0] == '"' || x[0] == '\'' {
        QuoteHasNoNewline(x[0], x[1..]);
        assert ValueLen(x) > 0 ==> x[..ValueLen(x)] == [x[0]] + x[1..][..ValueLen(x) - 1];
      } else {
        forall i | 0 <= i < Run(Bare, x) ensures x[i] != '\n' {
          RunMembers(Bare, x, i);
        }
      }
    }
  }

  lemma {:induction false} QuoteHasNoNewline(q: char, v: string)
    requires q != '\n'
    ensures '\n' !in v[..QuoteLen(q, v)]
    decreases |v|
  {
    if QuoteLen(q, v) > 1 {
      QuoteHasNoNewline(q, v[1..]);
      assert v[..QuoteLen(q, v)] == [v[0]] + v[1..][..QuoteLen(q, v) - 1];
    }
  }

  lemma {:induction false} OneLineHeadsJoinNoLines(w: bool, u: string)
    requires HeadsOnOneLine(w, u)
    ensures JoinsNoLines(w, u)
    decreases |u|
  {
    hide ValueStart, ValueLen, IsScrubbed, IsWord;
    if u != [] {
      var v, n := ValueStart(w, u), MatchLen(EnvAssignment, w, u);
      if n > 0 {
        ValueHasNoNewline(u[v..]);
        assert u[..n] == u[..v] + u[v..][..n - v];
      }
      OneLineHeadsJoinNoLines(IsWord(u[0]), u[1..]);
    }
  }

  lemma NoHealWithoutJoin(w: bool, u: string)
    requires OpensQuote(w, u) ==> HeadsOnOneLine(false, u[ValueStart(w, u) + 1..])
    ensures !Heals(w, u)
  {
    hide ValueStart, ClosesJoined, QuoteLen, HeadsOnOneLine, IsScrubbed;
    if Heals(w, u) {
      var v := ValueStart(w, u);
      OneLineHeadsJoinNoLines(false, u[v + 1..]);
      ClosesUnjoined(u[v], false, u[v + 1..]);
    }
  }

  lemma {:induction false} NoQuoteThenJoinHealsNothing(w: bool, u: string)
    requires NoQuoteThenJoin(w, u)
    ensures HealingFree(w, u)
    decreases |u|
  {
    hide MatchLen, Heals, OpensQuote, HeadsOnOneLine;
    if u != [] {
      var n := MatchLen(EnvAssignment, w, u);
      if n > 0 {
        QuotesDrop(w, u, n);
        NoQuoteThenJoinHealsNothing(IsWord(u[n - 1]), u[n..]);
      } else {
        NoHealWithoutJoin(w, u);
        NoQuoteThenJoinHealsNothing(IsWord(u[0]), u[1..]);
      }
    }
  }

  /** What reaches the last pass heals nothing when in the text behind no assignment whose value opens a
      quote another runs over a newline. */
  lemma KeyPassesHealNothing(s: string)
    requires NoQuoteThenJoin(false, s)
    ensures HealingFree(false, KeyPasses(s))
  {
    forall i | 0 <= i < |KeyPatterns()| ensures IsKeyPass(KeyPatterns()[i]) {
      KeyPatternsAreKeyPasses(i);
    }
    hide *;
    PassesKeepQuotes(KeyPatterns(), s);
    KeyPassesAre(s);
    NoQuoteThenJoinHealsNothing(false, KeyPasses(s));
  }

  lemma KeyPassesAre(s: string)
    ensures KeyPasses(s) == ScrubWith(KeyPatterns(), s)
  {
  }

  /** One direction of `ScrubIdempotentIff` on the text itself: where scrubbing twice differs from scrubbing
      once, the text has an assignment whose value opens a quote and behind it one that runs over a
      newline. */
  lemma NotIdempotentNeedsQuoteThenJoin(s: string)
    ensures Scrub(Scrub(s)) != Scrub(s) ==> !NoQuoteThenJoin(false, s)
    ensures Survivors(Patterns(), Scrub(s)) != [] ==> !NoQuoteThenJoin(false, s)
  {
    hide *;
    if NoQuoteThenJoin(false, s) {
      KeyPassesHealNothing(s);
      ScrubIdempotentIff(s);
      VerifierOnScrubbed(s);
    }
  }

  /** Scrubbing is idempotent whenever no white space around an assignment's `=` in the text holds a
      newline, and the verifier is then silent on what it leaves. */
  lemma ScrubIdempotentOnOneLineHeads(s: string)
    requires HeadsOnOneLine(false, s)
    ensures Scrub(Scrub(s)) == Scrub(s)
    ensures Survivors(Patterns(), Scrub(s)) == []
  {
    hide *;
    OneLineHeadsHaveNoQuoteThenJoin(false, s);
    NotIdempotentNeedsQuoteThenJoin(s);
  }

  /** On a text without key shapes the condition is exact on the text itself. */
  lemma ScrubIdempotentIffWithoutKeys(s: string)
    requires forall i :: 0 <= i < |KeyPatterns()| ==> Clean(KeyPatterns()[i], false, s)
    ensures Scrub(Scrub(s)) == Scrub(s) <==> HealingFree(false, s)
  {
    hide *;
    ScrubWithoutKeys(s);
    ScrubIdempotentIff(s);
  }
}
