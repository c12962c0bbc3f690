/** When the assignment pass cleans up after itself, and when it does not.

    A pass that swallows a newline (`NAME=` at the end of a line, its value on
    the next) can join two lines. If an earlier assignment on that line opened a
    quote that did not close on it, the joined line may close the quote, and the
    rewritten text then holds an assignment the pass never saw. This is the only
    way the pass can fail to be idempotent. */
module AssignmentCleaning {
  import opened Text
  import opened SecretPatterns

  // ----- stepping over text the pass leaves alone -----

  lemma ReplaceHead(w: bool, u: string)
    requires u != []
    ensures var t := Replace(EnvAssignment, w, u); t != [] && t[0] == u[0]
  {
    if MatchLen(EnvAssignment, w, u) > 0 {
      RunMembersOfName(u);
    }
  }

  lemma RunMembersOfName(u: string)
    requires u != [] && IsUpper(u[0])
    ensures Run(EnvName, u) > 0
  {
  }

  lemma ReplaceNothing(w: bool)
    ensures Replace(EnvAssignment, w, []) == []
  {
  }

  lemma StepOn(w: bool, u: string)
    requires u != [] && MatchLen(EnvAssignment, w, u) == 0
    ensures Replace(EnvAssignment, w, u) != [] && Replace(EnvAssignment, w, u)[0] == u[0]
    ensures Replace(EnvAssignment, w, u)[1..] == Replace(EnvAssignment, IsWord(u[0]), u[1..])
  {
    hide MatchLen;
  }

  lemma StepOver(w: bool, u: string)
    requires u != [] && (w || !IsUpper(u[0]))
    ensures MatchLen(EnvAssignment, w, u) == 0
    ensures Replace(EnvAssignment, w, u)[1..] == Replace(EnvAssignment, IsWord(u[0]), u[1..])
  {
  }

  /** White space passes through unchanged, and what follows it is rewritten on its own. */
  lemma {:induction false} SpaceThrough(w: bool, u: string)
    ensures var r := Run(Space, u); var t := Replace(EnvAssignment, w, u);
      && Run(Space, t) == r
      && t[r..] == Replace(EnvAssignment, r == 0 && w, u[r..])
    decreases |u|
  {
    hide MatchLen, Replace;
    var r := Run(Space, u);
    var t := Replace(EnvAssignment, w, u);
    ReplaceNothing(w);
    if u != [] {
      ReplaceHead(w, u);
    }
    if r == 0 {
      assert u[0..] == u && t[0..] == t;
    } else {
      StepOver(w, u);
      SpaceThrough(false, u[1..]);
      assert u[1..][r - 1..] == u[r..] && t[1..][r - 1..] == t[r..];
    }
  }

  /** So does the rest of a name. */
  lemma {:induction false} NameThrough(u: string)
    ensures var r := Run(EnvName, u); var t := Replace(EnvAssignment, true, u);
      && Run(EnvName, t) == r
      && t[..r] == u[..r]
      && t[r..] == Replace(EnvAssignment, true, u[r..])
    decreases |u|
  {
    hide MatchLen, Replace;
    var r := Run(EnvName, u);
    var t := Replace(EnvAssignment, true, u);
    ReplaceNothing(true);
    if u != [] {
      ReplaceHead(true, u);
    }
    if r == 0 {
      assert u[0..] == u && t[0..] == t;
    } else {
      StepOver(true, u);
      NameThrough(u[1..]);
      assert u[1..][r - 1..] == u[r..] && t[1..][r - 1..] == t[r..];
      assert u[..r] == [u[0]] + u[1..][..r - 1] && t[..r] == [t[0]] + t[1..][..r - 1];
    }
  }

  /** Literal text without capitals is never part of an assignment's name, so it is there after the pass iff it was before. */
  lemma {:induction false} LiteralThrough(literal: string, w: bool, u: string)
    requires forall i :: 0 <= i < |literal| ==> !IsUpper(literal[i])
    ensures literal <= Replace(EnvAssignment, w, u) <==> literal <= u
    decreases |literal|
  {
    hide MatchLen, Replace;
    ReplaceNothing(w);
    var t := Replace(EnvAssignment, w, u);
    if literal != [] && u != [] {
      ReplaceHead(w, u);
      if u[0] == literal[0] {
        assert !IsUpper(u[0]);
        StepOver(w, u);
        LiteralThrough(literal[1..], IsWord(u[0]), u[1..]);
        assert literal == [literal[0]] + literal[1..];
        assert t == [u[0]] + t[1..] && u == [u[0]] + u[1..];
        assert literal <= t <==> literal[1..] <= t[1..];
        assert literal <= u <==> literal[1..] <= u[1..];
      }
    }
  }

  lemma ScrubbedThrough(u: string)
    ensures IsScrubbed(Replace(EnvAssignment, false, u)) <==> IsScrubbed(u)
  {
    hide MatchLen, Replace;
    ReplaceNothing(false);
    LiteralThrough("<secret", false, u);
    if u != [] {
      ReplaceHead(false, u);
      if u[0] == '"' || u[0] == '\'' {
        StepOver(false, u);
        LiteralThrough("<secret", false, u[1..]);
      }
    }
  }

  lemma AfterEqualsThrough(w: bool, u: string, t: string)
    requires u != [] && u[0] == '=' && t == Replace(EnvAssignment, w, u)
    ensures var s := 1 + Run(Space, u[1..]);
      && t != [] && t[0] == '='
      && 1 + Run(Space, t[1..]) == s
      && t[s..] == Replace(EnvAssignment, false, u[s..])
  {
    StepOver(w, u);
    ReplaceHead(w, u);
    SpaceThrough(false, u[1..]);
    var s := Run(Space, u[1..]);
    assert u[1..][s..] == u[1 + s..] && t[1..][s..] == t[1 + s..];
  }

  lemma EqualsThrough(w: bool, u: string, t: string)
    requires t == Replace(EnvAssignment, w, u)
    ensures var n := EqualsLen(u);
      && EqualsLen(t) == n
      && (n > 0 ==> t[n..] == Replace(EnvAssignment, false, u[n..]))
  {
    hide MatchLen, Replace, In;
    SpaceThrough(w, u);
    var e := Run(Space, u);
    var u', t' := u[e..], t[e..];
    ReplaceNothing(e == 0 && w);
    if u' != [] {
      ReplaceHead(e == 0 && w, u');
      if u'[0] == '=' {
        AfterEqualsThrough(e == 0 && w, u', t');
        var s := 1 + Run(Space, u'[1..]);
        assert u'[s..] == u[e + s..] && t'[s..] == t[e + s..];
      }
    }
  }

  lemma NameHeadThrough(u: string, t: string)
    requires u != [] && IsUpper(u[0]) && t != [] && t[0] == u[0]
    requires t[1..] == Replace(EnvAssignment, true, u[1..])
    ensures var a := Run(EnvName, u);
      && Run(EnvName, t) == a
      && t[..a] == u[..a]
      && t[a..] == Replace(EnvAssignment, true, u[a..])
  {
    RunFromCapital(u);
    RunFromCapital(t);
    hide *;
    NameThrough(u[1..]);
    var a := Run(EnvName, u);
    TailParts(u, a);
    TailParts(t, a);
  }

  lemma RunFromCapital(u: string)
    requires u != [] && IsUpper(u[0])
    ensures Run(EnvName, u) == 1 + Run(EnvName, u[1..])
  {
  }

  lemma TailParts(u: string, a: nat)
    requires 0 < a <= |u|
    ensures u[1..][a - 1..] == u[a..] && u[..a] == [u[0]] + u[1..][..a - 1]
  {
  }

  lemma HeadParts(u: string, t: string)
    requires u != [] && t != [] && IsUpper(u[0]) && t[0] == u[0]
    requires t[1..] == Replace(EnvAssignment, true, u[1..])
    ensures var a := Run(EnvName, u); var n := EqualsLen(u[a..]);
      && Run(EnvName, t) == a
      && t[..a] == u[..a]
      && EqualsLen(t[a..]) == n
      && (n > 0 ==> t[a + n..] == Replace(EnvAssignment, false, u[a + n..]))
  {
    hide MatchLen, Replace, EqualsLen;
    NameHeadThrough(u, t);
    var a := Run(EnvName, u);
    EqualsThrough(true, u[a..], t[a..]);
    var n := EqualsLen(u[a..]);
    assert u[a..][n..] == u[a + n..] && t[a..][n..] == t[a + n..];
  }

  /** An assignment that the pass does not rewrite keeps its name, its white space and its `=`. */
  lemma HeadThrough(u: string)
    requires u != [] && MatchLen(EnvAssignment, false, u) == 0
    ensures var v := ValueStart(false, u); var t := Replace(EnvAssignment, false, u);
      && ValueStart(false, t) == v
      && (v > 0 ==> t[v..] == Replace(EnvAssignment, false, u[v..]))
  {
    hide MatchLen, Replace, EqualsLen, IsSecretName;
    var t := Replace(EnvAssignment, false, u);
    StepOn(false, u);
    if IsUpper(u[0]) {
      assert IsWord(u[0]);
      HeadParts(u, t);
    }
  }

  // ----- quotes that close only once lines are joined -----

  /** Does the quote `q` close on the line that starts `v`, where an assignment the
      pass rewrites counts as part of the line even if it runs over a newline? */
  predicate ClosesJoined(q: char, w: bool, v: string)
    decreases |v|
  {
    if v == [] then false
    else
      var n := MatchLen(EnvAssignment, w, v);
      if n > 0 then ClosesJoined(q, IsWord(v[n - 1]), v[n..])
      else if v[0] == q then true
      else if v[0] == '\n' then false
      else ClosesJoined(q, IsWord(v[0]), v[1..])
  }

  /** An unscrubbed assignment starts `u` whose value opens a quote that closes only on the joined line. */
  predicate Heals(w: bool, u: string) {
    var v := ValueStart(w, u);
    && 0 < v < |u|
    && (u[v] == '"' || u[v] == '\'')
    && !IsScrubbed(u[v..])
    && QuoteLen(u[v], u[v + 1..]) == 0
    && ClosesJoined(u[v], false, u[v + 1..])
  }

  /** No assignment that the pass skips in `u` has a quote that closes only on the joined line. */
  predicate HealingFree(w: bool, u: string)
    decreases |u|
  {
    if u == [] then true
    else
      var n := MatchLen(EnvAssignment, w, u);
      if n > 0 then HealingFree(IsWord(u[n - 1]), u[n..])
      else !Heals(w, u) && HealingFree(IsWord(u[0]), u[1..])
  }

  lemma {:induction false} QuoteOver(q: char, head: string, rest: string)
    requires forall i :: 0 <= i < |head| ==> head[i] != q && head[i] != '\n'
    ensures QuoteLen(q, head + rest) > 0 <==> QuoteLen(q, rest) > 0
    decreases |head|
  {
    if head == [] {
      assert head + rest == rest;
    } else {
      assert (head + rest)[1..] == head[1..] + rest;
      QuoteOver(q, head[1..], rest);
    }
  }

  lemma RewrittenHasNoQuote(q: char, u: string)
    requires q == '"' || q == '\''
    ensures var r := Replacement(EnvAssignment, u); forall i :: 0 <= i < |r| ==> r[i] != q && r[i] != '\n'
  {
    var a := Run(EnvName, u);
    var r := Replacement(EnvAssignment, u);
    var tail := "=<secret:env>";
    forall i | 0 <= i < |r| ensures r[i] != q && r[i] != '\n' {
      if i < a {
        RunMembers(EnvName, u, i);
        assert r[i] == u[i];
      } else {
        assert r[i] == tail[i - a];
      }
    }
  }

  /** After the pass, a quote closes on its line exactly when it closed on the joined line before. */
  lemma {:induction false} QuoteClosesAfter(q: char, w: bool, v: string)
    requires q == '"' || q == '\''
    ensures QuoteLen(q, Replace(EnvAssignment, w, v)) > 0 <==> ClosesJoined(q, w, v)
    decreases |v|
  {
    hide MatchLen, Replacement;
    if v != [] {
      var n := MatchLen(EnvAssignment, w, v);
      var t := Replace(EnvAssignment, w, v);
      if n > 0 {
        QuoteClosesAfter(q, IsWord(v[n - 1]), v[n..]);
        RewrittenHasNoQuote(q, v);
        QuoteOver(q, Replacement(EnvAssignment, v), Replace(EnvAssignment, IsWord(v[n - 1]), v[n..]));
      } else {
        QuoteClosesAfter(q, IsWord(v[0]), v[1..]);
        assert t[1..] == Replace(EnvAssignment, IsWord(v[0]), v[1..]);
      }
    }
  }

  /** Where the pass found no assignment, it leaves one behind exactly when a quote heals there. */
  lemma MatchAfterIffHeals(w: bool, w': bool, u: string)
    requires u != [] && MatchLen(EnvAssignment, w, u) == 0
    requires w == w' || !IsLetter(u[0])
    ensures MatchLen(EnvAssignment, w', Replace(EnvAssignment, w, u)) > 0 <==> Heals(w, u)
  {
    hide Replace, EqualsLen, IsSecretName, QuoteLen, ClosesJoined;
    var t := Replace(EnvAssignment, w, u);
    ReplaceHead(w, u);
    if !w && IsUpper(u[0]) {
      HeadThrough(u);
      var v := ValueStart(false, u);
      if v > 0 {
        ScrubbedThrough(u[v..]);
        ReplaceNothing(false);
        if v < |u| {
          ValueThrough(u[v..], t[v..]);
          assert u[v..][1..] == u[v + 1..];
        }
      }
    }
  }

  lemma ValueThrough(x: string, y: string)
    requires x != [] && y == Replace(EnvAssignment, false, x)
    ensures x[0] != '"' && x[0] != '\'' ==> (ValueLen(y) > 0 <==> ValueLen(x) > 0)
    ensures x[0] == '"' || x[0] == '\'' ==> (ValueLen(y) > 0 <==> ClosesJoined(x[0], false, x[1..]))
    ensures x[0] == '"' || x[0] == '\'' ==> (ValueLen(x) > 0 <==> QuoteLen(x[0], x[1..]) > 0)
  {
    hide MatchLen, Replace, QuoteLen, ClosesJoined;
    ReplaceHead(false, x);
    if x[0] == '"' || x[0] == '\'' {
      StepOver(false, x);
      QuoteClosesAfter(x[0], false, x[1..]);
    }
  }

  // ----- the whole pass -----

  predicate IsNameText(name: string) {
    forall i :: 0 <= i < |name| ==> In(EnvName, name[i])
  }

  lemma {:induction false} CleanOverName(name: string, rest: string)
    requires IsNameText(name)
    ensures Clean(EnvAssignment, true, name + rest) <==> Clean(EnvAssignment, true, rest)
    decreases |name|
  {
    if name == [] {
      assert name + rest == rest;
    } else {
      assert (name + rest)[1..] == name[1..] + rest;
      assert IsWord(name[0]);
      CleanOverName(name[1..], rest);
    }
  }

  lemma {:induction false} CleanOverLower(w: bool, text: string, rest: string)
    requires text != [] && forall i :: 0 <= i < |text| ==> !IsUpper(text[i])
    ensures Clean(EnvAssignment, w, text + rest) <==> Clean(EnvAssignment, IsWord(text[|text| - 1]), rest)
    decreases |text|
  {
    assert (text + rest)[1..] == text[1..] + rest;
    if |text| == 1 {
      assert text[1..] + rest == rest;
    } else {
      CleanOverLower(IsWord(text[0]), text[1..], rest);
    }
  }

  /** The lookahead recognises the pass's own output. */
  lemma ScrubbedIsNoMatch(w: bool, name: string, t: string, rest: string)
    requires t == "=<secret:env>" + rest && IsNameText(name)
    ensures MatchLen(EnvAssignment, w, name + t) == 0
  {
    hide IsSecretName;
    var u := name + t;
    var a := |name|;
    assert t[0] == '=' && t[1] == '<';
    RunIs(EnvName, u, a);
    assert u[a..] == t;
    assert t[1..][0] == '<';
    assert "<secret" <= t[1..] by {
      assert "<secret" == "=<secret:env>"[1..8];
    }
    assert EqualsLen(t) == 1;
    if ValueStart(w, u) > 0 {
      assert ValueStart(w, u) == a + 1;
      assert u[a + 1..] == t[1..];
    }
  }

  lemma NameOf(u: string)
    ensures IsNameText(u[..Run(EnvName, u)])
  {
    forall i | 0 <= i < Run(EnvName, u) ensures In(EnvName, u[i]) {
      RunMembers(EnvName, u, i);
    }
  }

  /** A rewritten assignment is clean as far as the text behind it is. */
  lemma RewrittenIsClean(name: string, tail: string, rest: string)
    requires name != [] && tail == "=<secret:env>" + rest
    requires IsNameText(name)
    ensures Clean(EnvAssignment, false, name + tail) <==> Clean(EnvAssignment, false, rest)
  {
    hide MatchLen, Clean, In, IsWord, IsUpper;
    var t := name + tail;
    var more := name[1..];
    assert t[1..] == more + tail && t[0] == name[0];
    NameTail(name);
    ScrubbedIsNoMatch(false, name, tail, rest);
    CleanUnfolds(false, t);
    CleanOverName(more, tail);
    EnvTailIsClean(rest);
  }

  lemma NameTail(name: string)
    requires name != [] && IsNameText(name)
    ensures IsNameText(name[1..]) && IsWord(name[0])
  {
    assert In(EnvName, name[0]);
  }

  lemma CleanUnfolds(w: bool, t: string)
    requires t != [] && MatchLen(EnvAssignment, w, t) == 0
    ensures Clean(EnvAssignment, w, t) <==> Clean(EnvAssignment, IsWord(t[0]), t[1..])
  {
    hide MatchLen, IsWord;
  }

  lemma EnvTailIsClean(rest: string)
    ensures Clean(EnvAssignment, true, "=<secret:env>" + rest) <==> Clean(EnvAssignment, false, rest)
  {
    hide Clean;
    CleanOverLower(true, "=<secret:env>", rest);
  }

  lemma CleanAfterRewrite(w: bool, u: string)
    requires MatchLen(EnvAssignment, w, u) > 0
    ensures var n := MatchLen(EnvAssignment, w, u);
      Clean(EnvAssignment, false, Replace(EnvAssignment, w, u)) <==>
      Clean(EnvAssignment, false, Replace(EnvAssignment, IsWord(u[n - 1]), u[n..]))
  {
    AssignmentStart(w, u);
    hide MatchLen, In, Clean;
    var n := MatchLen(EnvAssignment, w, u);
    var rest := Replace(EnvAssignment, IsWord(u[n - 1]), u[n..]);
    var name := u[..Run(EnvName, u)];
    NameOf(u);
    RunMembersOfName(u);
    RewrittenIsClean(name, "=<secret:env>" + rest, rest);
    assert name + ("=<secret:env>" + rest) == Replace(EnvAssignment, w, u);
  }

  /** The pass leaves no assignment behind exactly when no quote heals. The characters before
      the two texts may differ where no letter follows. */
  lemma {:induction false} CleanIffHealingFree(w: bool, w': bool, u: string)
    requires w == w' || u == [] || !IsLetter(u[0])
    ensures Clean(EnvAssignment, w', Replace(EnvAssignment, w, u)) <==> HealingFree(w, u)
    decreases |u|
  {
    hide MatchLen, Heals, Replacement;
    if u != [] {
      var n := MatchLen(EnvAssignment, w, u);
      if n > 0 {
        AssignmentStart(w, u);
        CleanAfterRewrite(w, u);
        if n < |u| {
          AssignmentEnd(w, u);
        }
        CleanIffHealingFree(IsWord(u[n - 1]), false, u[n..]);
      } else {
        MatchAfterIffHeals(w, w', u);
        StepOn(w, u);
        CleanIffHealingFree(IsWord(u[0]), IsWord(u[0]), u[1..]);
      }
    }
  }

  lemma RewriteIsNoMatch(w: bool, u: string, rest: string)
    ensures MatchLen(EnvAssignment, w, Replacement(EnvAssignment, u) + rest) == 0
  {
    hide MatchLen;
    var name := u[..Run(EnvName, u)];
    NameOf(u);
    var tail := "=<secret:env>" + rest;
    ScrubbedIsNoMatch(w, name, tail, rest);
    assert name + tail == Replacement(EnvAssignment, u) + rest;
  }

  lemma RewriteChanges(w: bool, t: string)
    requires MatchLen(EnvAssignment, w, t) > 0
    ensures Replace(EnvAssignment, w, t) != t
  {
    hide MatchLen, Replacement;
    var n := MatchLen(EnvAssignment, w, t);
    RewriteIsNoMatch(w, t, Replace(EnvAssignment, IsWord(t[n - 1]), t[n..]));
  }

  /** A second pass changes nothing exactly when the first left no assignment behind. */
  lemma {:induction false} FixedIffClean(w: bool, t: string)
    ensures Replace(EnvAssignment, w, t) == t <==> Clean(EnvAssignment, w, t)
    decreases |t|
  {
    if t != [] {
      if MatchLen(EnvAssignment, w, t) > 0 {
        RewriteChanges(w, t);
      } else {
        hide MatchLen;
        StepOn(w, t);
        FixedIffClean(IsWord(t[0]), t[1..]);
        assert t == [t[0]] + t[1..];
      }
    }
  }

  // ----- a condition that is easy to check -----

  /** No assignment of `u`, wherever the search for one starts, runs over a newline. */
  predicate JoinsNoLines(w: bool, u: string)
    decreases |u|
  {
    u != [] ==> '\n' !in u[..MatchLen(EnvAssignment, w, u)] && JoinsNoLines(IsWord(u[0]), u[1..])
  }

  lemma {:induction false} JoinsNoLinesDrop(w: bool, u: string, n: nat)
    requires JoinsNoLines(w, u) && 0 < n <= |u|
    ensures JoinsNoLines(IsWord(u[n - 1]), u[n..])
    decreases n
  {
    hide MatchLen, IsWord;
    if n > 1 {
      JoinsNoLinesDrop(IsWord(u[0]), u[1..], n - 1);
      assert u[1..][n - 1..] == u[n..];
    }
  }

  lemma {:induction false} QuoteBehind(q: char, head: string, rest: string)
    requires '\n' !in head && QuoteLen(q, rest) > 0
    ensures QuoteLen(q, head + rest) > 0
    decreases |head|
  {
    if head == [] {
      assert head + rest == rest;
    } else {
      assert (head + rest)[1..] == head[1..] + rest;
      QuoteBehind(q, head[1..], rest);
    }
  }

  lemma {:induction false} ClosesUnjoined(q: char, w: bool, v: string)
    requires JoinsNoLines(w, v) && ClosesJoined(q, w, v)
    ensures QuoteLen(q, v) > 0
    decreases |v|
  {
    hide MatchLen;
    var n := MatchLen(EnvAssignment, w, v);
    if n > 0 {
      JoinsNoLinesDrop(w, v, n);
      ClosesUnjoined(q, IsWord(v[n - 1]), v[n..]);
      QuoteBehind(q, v[..n], v[n..]);
      assert v[..n] + v[n..] == v;
    } else if v[0] != q {
      ClosesUnjoined(q, IsWord(v[0]), v[1..]);
    }
  }

  lemma NoJoinedLinesNoHeal(w: bool, u: string)
    requires JoinsNoLines(w, u)
    ensures !Heals(w, u)
  {
    hide ClosesJoined, QuoteLen, JoinsNoLines, IsScrubbed;
    if Heals(w, u) {
      var v := ValueStart(w, u);
      JoinsNoLinesDrop(w, u, v + 1);
      ClosesUnjoined(u[v], false, u[v + 1..]);
    }
  }

  lemma {:induction false} NoJoinedLinesNoHealing(w: bool, u: string)
    requires JoinsNoLines(w, u)
    ensures HealingFree(w, u)
    decreases |u|
  {
    hide MatchLen, Heals;
    if u != [] {
      var n := MatchLen(EnvAssignment, w, u);
      if n > 0 {
        JoinsNoLinesDrop(w, u, n);
        NoJoinedLinesNoHealing(IsWord(u[n - 1]), u[n..]);
      } else {
        NoJoinedLinesNoHeal(w, u);
        NoJoinedLinesNoHealing(IsWord(u[0]), u[1..]);
      }
    }
  }
}
