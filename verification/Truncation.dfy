/** Cutting a scrubbed text to a length. The cut, its marker and the repair of a
    severed placeholder bring no key shape back. They can bring back an
    assignment, because the marker itself reads as a value; the second scrub of
    the converter removes exactly that. */
module Truncation {
  import opened Text
  import opened SecretPatterns
  import opened KeyCleaning
  import opened AssignmentCleaning
  import opened PatternLanguage
  import opened Scrubber
  import opened Decimal

  /** What a cut leaves in place of `k` characters. */
  function Marker(k: nat): string {
    "\U{2026}[+" + Digits(k) + " chars]"
  }

  function Cap(s: string, n: nat): string {
    if |s| <= n then s else s[..n] + Marker(|s| - n)
  }

  /** `s.lastIndexOf(c)` */
  function LastIndexOf(s: string, c: char): (i: int)
    ensures -1 <= i < |s|
    ensures i >= 0 ==> s[i] == c
    ensures forall j :: i < j < |s| ==> s[j] != c
  {
    if s == [] then -1
    else if s[|s| - 1] == c then |s| - 1
    else LastIndexOf(s[..|s| - 1], c)
  }

  function DropPartialPlaceholder(s: string): string {
    var open := LastIndexOf(s, '<');
    if open == -1 || '>' in s[open..] then s else s[..open]
  }

  /** Scrub, then cut: `safe` of the converter. */
  function Cut(t: string, n: nat): string {
    DropPartialPlaceholder(Cap(t, n))
  }

  function Safe(s: string, n: nat): string {
    Cut(Scrub(s), n)
  }

  /** Every opening bracket among the first `n` characters is closed further on among them. */
  predicate TagsClosed(x: string, n: nat)
    requires n <= |x|
  {
    forall i :: 0 <= i < n && x[i] == '<' ==> '>' in x[i..n]
  }

  // ----- the cut, spelled out -----

  /** The bracket at position `i` is the last one and is not closed. */
  predicate IsSevered(x: string, i: nat) {
    i < |x| && x[i] == '<' && forall j :: i < j < |x| ==> x[j] != '<' && x[j] != '>'
  }

  /** `z` is `t` cut to `n` characters: with an ellipsis and the number of characters gone if `t` is longer,
      and then without a severed bracket and what follows it. */
  ghost predicate IsCut(t: string, n: nat, z: string) {
    var x := if |t| > n then t[..n] + "\U{2026}[+" + Digits(|t| - n) + " chars]" else t;
    IsRepaired(x, z)
  }

  ghost predicate IsRepaired(x: string, z: string) {
    (exists i: nat :: IsSevered(x, i) && z == x[..i]) || ((forall i: nat :: !IsSevered(x, i)) && z == x)
  }

  lemma CutIs(t: string, n: nat, z: string)
    ensures z == Cut(t, n) <==> IsCut(t, n, z)
  {
    var x := if |t| > n then t[..n] + "\U{2026}[+" + Digits(|t| - n) + " chars]" else t;
    CapIs(t, n, x);
    hide Cap, Digits, IsRepaired, DropPartialPlaceholder;
    RepairIs(x, z);
  }

  lemma RepairIs(x: string, z: string)
    ensures z == DropPartialPlaceholder(x) <==> IsRepaired(x, z)
  {
    SeveredIs(x);
    hide LastIndexOf, IsSevered;
    var open := LastIndexOf(x, '<');
    if open >= 0 && '>' !in x[open..] {
      var i: nat := open;
      assert IsSevered(x, i);
    }
  }

  lemma SeveredIs(x: string)
    ensures var open := LastIndexOf(x, '<');
      if open == -1 || '>' in x[open..] then forall i: nat :: !IsSevered(x, i)
      else forall i: nat :: IsSevered(x, i) <==> i == open
  {
    hide LastIndexOf;
    var open := LastIndexOf(x, '<');
    if open >= 0 {
      ClosedBehind(x, open);
    }
    forall i: nat | IsSevered(x, i) ensures i == open {
    }
  }

  lemma CapIs(t: string, n: nat, x: string)
    requires x == if |t| > n then t[..n] + "\U{2026}[+" + Digits(|t| - n) + " chars]" else t
    ensures Cap(t, n) == x
  {
    hide Digits;
  }

  lemma ClosedBehind(x: string, open: nat)
    requires open < |x|
    ensures '>' in x[open..] <==> exists j :: open <= j < |x| && x[j] == '>'
  {
    if j :| open <= j < |x| && x[j] == '>' {
      assert x[open..][j - open] == '>';
    }
  }

  /** `safe` scrubs first and cuts then. */
  lemma SafeIs(s: string, n: nat, z: string)
    ensures z == Safe(s, n) <==> IsCut(Scrub(s), n, z)
  {
    hide Scrub, IsCut, Cut;
    CutIs(Scrub(s), n, z);
  }

  // ----- what the cut keeps -----

  lemma ClosedEarlier(s: string, i: nat, j: nat)
    requires i <= j <= |s| && '>' in s[j..]
    ensures '>' in s[i..]
  {
    var k :| 0 <= k < |s[j..]| && s[j..][k] == '>';
    assert s[i..][j + k - i] == '>';
  }

  lemma LastIsOpen(s: string)
    ensures var open := LastIndexOf(s, '<'); TagsClosed(s, |s|) <==> open == -1 || '>' in s[open..]
  {
    hide LastIndexOf;
    var open := LastIndexOf(s, '<');
    TagsClosedIs(s);
    if open >= 0 && '>' in s[open..] {
      forall i | 0 <= i < |s| && s[i] == '<' ensures '>' in s[i..] {
        ClosedEarlier(s, i, open);
      }
    }
  }

  lemma TagsClosedIs(s: string)
    ensures TagsClosed(s, |s|) <==> forall i :: 0 <= i < |s| && s[i] == '<' ==> '>' in s[i..]
  {
    assert forall i :: 0 <= i < |s| ==> s[i..|s|] == s[i..];
  }

  /** A text within the limit is kept exactly when each of its brackets is closed. The repair also
      runs on text that was never cut, and there takes an unclosed bracket and all that follows it. */
  lemma ShortTextKeptIff(t: string, n: nat)
    requires |t| <= n
    ensures Cut(t, n) == t <==> TagsClosed(t, |t|)
    ensures Cut(t, n) <= t
  {
    LastIsOpen(t);
  }

  lemma BehindCut(t: string, n: nat)
    requires n < |t|
    ensures var c := Cap(t, n); |c| >= n && c[..n] == t[..n] && forall i :: n <= i < |c| ==> c[i] != '<' && c[i] != '>'
  {
    var c, m := Cap(t, n), Marker(|t| - n);
    forall i | n <= i < |c| ensures c[i] != '<' && c[i] != '>' {
      MarkerPlain(|t| - n, i - n);
      assert c[i] == m[i - n];
    }
  }

  /** A cut inside a placeholder takes it back to its opening bracket. */
  lemma SeveredPlaceholderIsDropped(t: string, n: nat, a: nat)
    requires a < n < |t| && t[a] == '<'
    requires forall i :: a < i < n ==> t[i] != '<' && t[i] != '>'
    ensures Cut(t, n) == t[..a]
  {
    BehindCut(t, n);
    hide Marker;
    var c := Cap(t, n);
    assert c[a] == '<' && LastIndexOf(c, '<') == a;
    assert '>' !in c[a..];
    assert c[..a] == t[..a];
  }

  /** A cut outside every bracket keeps the first `n` characters and says how many are gone. */
  lemma CleanCutIsMarked(t: string, n: nat)
    requires n < |t| && TagsClosed(t, n)
    ensures Cut(t, n) == t[..n] + Marker(|t| - n)
  {
    BehindCut(t, n);
    var c := Cap(t, n);
    hide Marker, Cap;
    forall i | 0 <= i < |c| && c[i] == '<' ensures '>' in c[i..] {
      assert t[..n][i] == '<';
      var j :| 0 <= j < |t[..n][i..]| && t[..n][i..][j] == '>';
      assert c[i..][j] == '>';
    }
    LastIsOpen(c);
  }

  /** The result is at most the limit, ten characters and the digits of the count longer. */
  lemma CutLength(t: string, n: nat)
    ensures |Cut(t, n)| <= if |t| <= n then |t| else n + 10 + |Digits(|t| - n)|
  {
    if n < |t| {
      MarkerEnds(|t| - n);
    }
  }

  // ----- the shape of the marker -----

  lemma MarkerPlain(k: nat, i: nat)
    requires i < |Marker(k)|
    ensures var c := Marker(k)[i];
      && !IsUpper(c) && c !in {'<', '>', '"', '\''}
      && (i < |Marker(k)| - 2 ==> c !in {'s', 'p', 'g', 'l', 'B', 'b'})
  {
    var head, digits, tail := "\U{2026}[+", Digits(k), " chars]";
    if i < 3 {
      assert Marker(k)[i] == head[i];
    } else if i < 3 + |digits| {
      assert Marker(k)[i] == digits[i - 3];
    } else {
      assert Marker(k)[i] == tail[i - 3 - |digits|];
    }
  }

  lemma MarkerEnds(k: nat)
    ensures var m := Marker(k); |m| == 10 + |Digits(k)| && m[0] == '\U{2026}' && m[|m| - 2..] == "s]"
  {
    var m, tail := Marker(k), " chars]";
    assert m[|m| - 7..] == tail;
    assert m[|m| - 2..] == tail[5..];
  }

  // ----- keys -----

  lemma {:induction false} FollowsTake(u: string, k: nat)
    requires k <= |u|
    ensures Follows(u[..k], u)
  {
    hide IsToken;
    if k > 0 {
      FollowsTake(u[1..], k - 1);
      assert u[..k][1..] == u[1..][..k - 1];
    }
  }

  lemma MarkerIsClean(p: Pattern, w: bool, k: nat)
    requires IsKeyLike(p)
    ensures Clean(p, w, Marker(k))
  {
    var m := Marker(k);
    MarkerEnds(k);
    forall i | 0 <= i < |m| - 2 ensures m[i] !in {'s', 'p', 'g', 'l', 'B', 'b'} {
      MarkerPlain(k, i);
    }
    NoKeyIn(p, true, "s]");
    NoKeyIn(p, false, "s]");
    NoKeyIn(p, true, "]");
    hide MatchLen, Marker;
    assert "s]"[1..] == "]" && "]"[1..] == [];
    assert Clean(p, true, "]") && Clean(p, true, "s]") && Clean(p, false, "s]");
    CleanThrough(p, w, m[..|m| - 2], "s]");
    assert m == m[..|m| - 2] + "s]";
  }

  /** Absence of a key survives a cut at any offset, with the marker behind it or without. */
  lemma {:induction false} CutIsClean(p: Pattern, w: bool, u: string, n: nat, k: nat)
    requires IsKeyLike(p) && Clean(p, w, u) && n <= |u|
    ensures Clean(p, w, u[..n]) && Clean(p, w, u[..n] + Marker(k))
    decreases n
  {
    hide MatchLen, Marker, IsWord;
    var x, m := u[..n], Marker(k);
    if n == 0 {
      MarkerIsClean(p, w, k);
      assert x == [] && x + m == m;
    } else {
      NoKeyAtCut(p, w, u, n, k);
      CutIsClean(p, IsWord(u[0]), u[1..], n - 1, k);
      assert x[1..] == u[1..][..n - 1] && (x + m)[1..] == x[1..] + m;
    }
  }

  lemma NoKeyAtCut(p: Pattern, w: bool, u: string, n: nat, k: nat)
    requires IsKeyLike(p) && MatchLen(p, w, u) == 0 && n <= |u|
    ensures MatchLen(p, w, u[..n]) == 0 && MatchLen(p, w, u[..n] + Marker(k)) == 0
  {
    var x, m := u[..n], Marker(k);
    MarkerEnds(k);
    assert !IsToken(m[0]);
    hide MatchLen, Marker, IsToken;
    FollowsTake(u, n);
    if MatchLen(p, w, x) > 0 {
      MatchTransfers(p, w, x, u);
    }
    FollowsSame(x, m, []);
    assert x + [] == x;
    if MatchLen(p, w, x + m) > 0 {
      MatchTransfers(p, w, x + m, x);
    }
  }

  lemma CutIsPrefix(t: string, n: nat)
    ensures var z := Cut(t, n);
      || (exists a :: 0 <= a <= |t| && z == t[..a] && (a < |t| ==> t[a] == '<'))
      || (n < |t| && z == t[..n] + Marker(|t| - n) && TagsClosed(t, n))
  {
    var c := Cap(t, n);
    var open := LastIndexOf(c, '<');
    if |t| <= n {
      if open == -1 || '>' in c[open..] {
        assert Cut(t, n) == t[..|t|];
      } else {
        assert Cut(t, n) == t[..open];
      }
    } else {
      var m := Marker(|t| - n);
      forall i | n <= i < |c| ensures c[i] != '<' && c[i] != '>' {
        MarkerPlain(|t| - n, i - n);
        assert c[i] == m[i - n];
      }
      hide Marker;
      if open == -1 || '>' in c[open..] {
        assert forall i :: 0 <= i < n ==> t[..n][i] == c[i];
        if open >= 0 {
          var j :| 0 <= j < |c[open..]| && c[open..][j] == '>';
          assert c[open + j] == '>' && open < open + j < n;
          assert t[..n][open + j] == '>';
        }
      } else {
        assert Cut(t, n) == t[..open];
      }
    }
  }


  /** A scrubbed text stays free of keys however it is cut. */
  lemma CutKeepsKeysOut(p: Pattern, t: string, n: nat)
    requires IsKeyLike(p) && Clean(p, false, t)
    ensures Clean(p, false, Cut(t, n))
  {
    CutIsPrefix(t, n);
    hide Cut, Clean, MatchLen, IsKeyLike, Marker, TagsClosed;
    forall a: nat | a <= |t| ensures Clean(p, false, t[..a]) {
      CutIsClean(p, false, t, a, 0);
    }
    if n < |t| {
      CutIsClean(p, false, t, n, |t| - n);
    }
  }

  // ----- assignments -----

  lemma LiteralKept(literal: string, u: string, n: nat, o: nat, y: string)
    requires o + |literal| <= n <= |u| && literal <= u[o..] && u[o..n] <= y
    ensures literal <= y
  {
    assert u[o..n] == u[o..][..n - o];
  }

  lemma TakeSlice(u: string, n: nat, i: nat, j: nat)
    requires i <= j <= n <= |u|
    ensures u[..n][i..j] == u[i..j]
  {
  }

  /** A value that the lookahead recognises as scrubbed is still recognised behind a cut,
      as long as the cut severs no placeholder. */
  lemma ScrubbedAfterCut(u: string, n: nat, v: nat, tail: string)
    requires v < n <= |u|
    requires (n < |u| && u[n] == '<' && tail == []) || TagsClosed(u, n)
    requires IsScrubbed(u[v..]) && ValueLen(u[v..n] + tail) > 0
    requires '"' !in tail && '\'' !in tail
    ensures IsScrubbed(u[v..n] + tail)
  {
    var x := u[v..n];
    var quoted := x[0] == '"' || x[0] == '\'';
    var o := if quoted then v + 1 else v;
    assert "<secret" <= u[o..];
    if quoted {
      NoQuote(x[0], tail);
    }
    assert n == v + 1 ==> (x + tail)[1..] == tail;
    SecretFits(u, n, o);
    LiteralKept("<secret", u, n, o, (x + tail)[o - v..]);
  }

  lemma SecretFits(u: string, n: nat, o: nat)
    requires o < n <= |u| && "<secret" <= u[o..]
    requires (n < |u| && u[n] == '<') || TagsClosed(u, n)
    ensures o + 7 <= n
  {
    assert forall i :: 0 <= i < 7 ==> u[o + i] == "<secret"[i];
    assert u[..n][o] == '<';
  }

  lemma {:induction false} NoQuote(q: char, tail: string)
    requires q !in tail
    ensures QuoteLen(q, tail) == 0
  {
    if tail != [] {
      NoQuote(q, tail[1..]);
    }
  }

  /** Before a severed placeholder the cut leaves no assignment behind. */
  lemma NoAssignmentBeforeMarkup(w: bool, u: string, n: nat)
    requires n < |u| && u[n] == '<' && MatchLen(EnvAssignment, w, u) == 0
    ensures MatchLen(EnvAssignment, w, u[..n]) == 0
  {
    hide EnvLen, ValueStart, Run, IsAssignmentSplit;
    var x := u[..n];
    if EnvLen(w, x) > 0 {
      AssignmentFound(w, x);
      var a := Run(EnvName, x);
      var e, v, m := a + Run(Space, x[a..]), ValueStart(w, x), EnvLen(w, x);
      AssignmentInWhole(w, u, n, m, a, e, v);
    }
  }

  lemma ScrubbedInWhole(u: string, n: nat, m: nat, a: nat, e: nat, v: nat)
    requires n < |u| && u[n] == '<' && IsAssignmentSplit(u[..n], m, a, e, v)
    ensures !IsScrubbed(u[v..])
  {
    var x := u[..n][v..];
    assert x[..m - v] == u[..n][v..m];
    ValueLongest(x, m - v);
    hide IsValue, All, ValueLen;
    assert u[v..n] + [] == x;
    if IsScrubbed(u[v..]) {
      ScrubbedAfterCut(u, n, v, []);
    }
  }

  lemma AssignmentInWhole(w: bool, u: string, n: nat, m: nat, a: nat, e: nat, v: nat)
    requires n < |u| && u[n] == '<' && !w && IsAssignmentSplit(u[..n], m, a, e, v)
    ensures EnvLen(w, u) > 0
  {
    var x := u[..n];
    ScrubbedInWhole(u, n, m, a, e, v);
    hide All, IsScrubbed, IsValue, IsSecretName;
    TakeSlice(u, n, 0, a);
    TakeSlice(u, n, a, e);
    TakeSlice(u, n, e + 1, v);
    TakeSlice(u, n, v, m);
    AssignmentLongest(w, u, m, a, e, v);
  }

  lemma {:induction false} CleanBeforeMarkup(w: bool, u: string, n: nat)
    requires n < |u| && u[n] == '<' && Clean(EnvAssignment, w, u)
    ensures Clean(EnvAssignment, w, u[..n])
    decreases n
  {
    hide MatchLen, IsWord;
    if n > 0 {
      NoAssignmentBeforeMarkup(w, u, n);
      CleanBeforeMarkup(IsWord(u[0]), u[1..], n - 1);
      assert u[..n][1..] == u[1..][..n - 1];
    }
  }

  /** Where there is no assignment there is none that joins lines. */
  lemma {:induction false} CleanJoinsNoLines(w: bool, u: string)
    requires Clean(EnvAssignment, w, u)
    ensures JoinsNoLines(w, u)
    decreases |u|
  {
    hide MatchLen, IsWord;
    if u != [] {
      CleanJoinsNoLines(IsWord(u[0]), u[1..]);
    }
  }

  lemma {:induction false} PlainIsHealingFree(w: bool, m: string)
    requires forall i :: 0 <= i < |m| ==> !IsUpper(m[i])
    ensures HealingFree(w, m)
    decreases |m|
  {
    if m != [] {
      PlainIsHealingFree(IsWord(m[0]), m[1..]);
    }
  }

  lemma {:induction false} PlainClosesNothing(q: char, w: bool, m: string)
    requires forall i :: 0 <= i < |m| ==> !IsUpper(m[i]) && m[i] != q
    ensures !ClosesJoined(q, w, m)
    decreases |m|
  {
    if m != [] {
      PlainClosesNothing(q, IsWord(m[0]), m[1..]);
    }
  }

  lemma JoinSlice(u: string, n: nat, m: string, i: nat, j: nat)
    requires i <= j <= n <= |u|
    ensures (u[..n] + m)[i..j] == u[i..j]
  {
  }

  lemma SplitBehindCut(w: bool, u: string, n: nat, m: string, l: nat, l': nat, a: nat, e: nat, v: nat)
    requires n <= |u| && TagsClosed(u, n) && '"' !in m && '\'' !in m && !w
    requires IsAssignmentSplit(u[..n] + m, l, a, e, v)
    requires v < l' <= n && IsValue(u[v..l'])
    ensures EnvLen(w, u) > 0
  {
    var z := u[..n] + m;
    hide All, IsScrubbed, IsValue, IsSecretName, ValueLen, EnvLen;
    assert z[v..] == u[v..n] + m;
    assert z[v..][..l - v] == z[v..l];
    ValueLongest(z[v..], l - v);
    if IsScrubbed(u[v..]) {
      ScrubbedAfterCut(u, n, v, m);
    }
    JoinSlice(u, n, m, 0, a);
    JoinSlice(u, n, m, a, e);
    JoinSlice(u, n, m, e + 1, v);
    AssignmentLongest(w, u, l', a, e, v);
  }

  lemma SplitHead(z: string, l: nat, a: nat, e: nat, v: nat, i: nat)
    requires IsAssignmentSplit(z, l, a, e, v) && i < v
    ensures In(EnvName, z[i]) || In(Space, z[i]) || z[i] == '='
  {
    assert i < a ==> z[i] == z[..a][i];
    assert a <= i < e ==> z[i] == z[a..e][i - a];
    assert e < i ==> z[i] == z[e + 1..v][i - e - 1];
  }

  lemma SplitAcrossCut(z: string, n: nat, l: nat, a: nat, e: nat, v: nat)
    requires IsAssignmentSplit(z, l, a, e, v)
    requires n < |z| && z[n] == '\U{2026}'
    ensures v <= n
    ensures v < n < l && '"' !in z[n..] && '\'' !in z[n..] ==> IsValue(z[v..n])
  {
    if n < v {
      SplitHead(z, l, a, e, v, n);
    }
    if v < n < l && '"' !in z[n..] && '\'' !in z[n..] {
      var x := z[v..l];
      assert x[|x| - 1] == z[n..][l - 1 - n];
      forall i | v <= i < n ensures In(Bare, z[i]) {
        assert In(Bare, x[i - v]);
      }
    }
  }

  /** Behind a cut the only new assignment is one whose value is the marker itself. */
  lemma OnlyTheMarkerIsNew(w: bool, u: string, n: nat, k: nat)
    requires n <= |u| && MatchLen(EnvAssignment, w, u) == 0 && TagsClosed(u, n)
    ensures var l := MatchLen(EnvAssignment, w, u[..n] + Marker(k)); l > 0 ==> l > n && ValueStart(w, u[..n] + Marker(k)) == n
  {
    var m := Marker(k);
    MarkerEnds(k);
    forall i | 0 <= i < |m| ensures m[i] != '"' && m[i] != '\'' {
      MarkerPlain(k, i);
    }
    hide Marker, TagsClosed;
    var z := u[..n] + m;
    if EnvLen(w, z) > 0 {
      MarkerIsTheValue(w, u, n, m);
    }
  }

  lemma MarkerIsTheValue(w: bool, u: string, n: nat, m: string)
    requires n <= |u| && EnvLen(w, u) == 0 && TagsClosed(u, n)
    requires m != [] && m[0] == '\U{2026}' && '"' !in m && '\'' !in m
    requires EnvLen(w, u[..n] + m) > 0
    ensures ValueStart(w, u[..n] + m) == n
  {
    hide EnvLen, ValueStart, Run, TagsClosed, In;
    var z := u[..n] + m;
    AssignmentFound(w, z);
    var l, a, v := EnvLen(w, z), Run(EnvName, z), ValueStart(w, z);
    var e := a + Run(Space, z[a..]);
    assert z[n..] == m;
    SplitAcrossCut(z, n, l, a, e, v);
    if v < n {
      var l' := if l <= n then l else n;
      assert z[v..l'] == u[v..l'];
      SplitBehindCut(w, u, n, m, l, l', a, e, v);
      assert false;
    }
  }

  lemma MarkerIsPlain(k: nat, i: nat)
    requires i <= |Marker(k)|
    ensures forall w :: HealingFree(w, Marker(k)[i..])
    ensures forall q, w :: q == '"' || q == '\'' ==> !ClosesJoined(q, w, Marker(k)[i..])
  {
    var m := Marker(k)[i..];
    forall j | 0 <= j < |m| ensures !IsUpper(m[j]) && m[j] != '"' && m[j] != '\'' {
      MarkerPlain(k, i + j);
    }
    hide Marker;
    forall w ensures HealingFree(w, m) {
      PlainIsHealingFree(w, m);
    }
    forall q, w | q == '"' || q == '\'' ensures !ClosesJoined(q, w, m) {
      PlainClosesNothing(q, w, m);
    }
  }

  lemma TagsClosedDrop(u: string, n: nat)
    requires 0 < n <= |u| && TagsClosed(u, n)
    ensures TagsClosed(u[1..], n - 1)
  {
    forall i | 0 <= i < n - 1 && u[1..][i] == '<' ensures '>' in u[1..][i..n - 1] {
      assert u[i + 1] == '<' && u[1..][i..n - 1] == u[i + 1..n];
    }
  }

  lemma {:induction false} TagsClosedFrom(u: string, n: nat, i: nat)
    requires i <= n <= |u| && TagsClosed(u, n)
    ensures TagsClosed(u[i..], n - i)
    decreases i
  {
    hide TagsClosed;
    if i > 0 {
      TagsClosedDrop(u, n);
      TagsClosedFrom(u[1..], n - 1, i - 1);
      assert u[1..][i - 1..] == u[i..];
    } else {
      assert u[0..] == u;
    }
  }

  /** The first `n` characters of `u` and the marker behind them. */
  function CutAt(u: string, n: nat, k: nat): string
    requires n <= |u|
  {
    u[..n] + Marker(k)
  }

  lemma CutAtParts(u: string, n: nat, k: nat)
    requires n <= |u|
    ensures |CutAt(u, n, k)| == n + |Marker(k)|
    ensures n > 0 ==> CutAt(u, n, k)[0] == u[0] && CutAt(u, n, k)[1..] == CutAt(u[1..], n - 1, k)
    ensures n == 0 ==> CutAt(u, n, k) == Marker(k)[0..]
  {
    hide Marker;
    if n > 0 {
      assert u[..n][1..] == u[1..][..n - 1];
    }
  }

  lemma CutAtDrop(u: string, n: nat, k: nat, i: nat)
    requires n <= |u| && i <= n + |Marker(k)|
    ensures i <= n ==> CutAt(u, n, k)[i..] == CutAt(u[i..], n - i, k)
    ensures i >= n ==> CutAt(u, n, k)[i..] == Marker(k)[i - n..]
  {
    hide Marker;
    if i <= n {
      assert u[..n][i..] == u[i..][..n - i];
    }
  }

  lemma CleanStep(u: string, w: bool)
    requires u != [] && Clean(EnvAssignment, w, u)
    ensures MatchLen(EnvAssignment, w, u) == 0 && Clean(EnvAssignment, IsWord(u[0]), u[1..])
  {
  }

  /** No quote of a clean text is closed by what the cut adds. */
  lemma {:induction false} ClosesBehindCut(q: char, w: bool, u: string, n: nat, k: nat)
    requires q == '"' || q == '\''
    requires n <= |u| && Clean(EnvAssignment, w, u) && TagsClosed(u, n)
    requires ClosesJoined(q, w, CutAt(u, n, k))
    ensures QuoteLen(q, CutAt(u, n, k)) > 0
    decreases n
  {
    hide MatchLen, IsWord, Marker, TagsClosed, CutAt, Clean;
    var z := CutAt(u, n, k);
    CutAtParts(u, n, k);
    if n == 0 {
      MarkerIsPlain(k, 0);
    } else {
      CleanStep(u, w);
      NewAssignmentIsAtMarker(w, u, n, k);
      var l := MatchLen(EnvAssignment, w, z);
      if l > 0 {
        CutAtDrop(u, n, k, l);
        MarkerIsPlain(k, l - n);
      } else if z[0] != q {
        TagsClosedDrop(u, n);
        ClosesBehindCut(q, IsWord(u[0]), u[1..], n - 1, k);
      }
    }
  }

  lemma NewAssignmentIsAtMarker(w: bool, u: string, n: nat, k: nat)
    requires n <= |u| && MatchLen(EnvAssignment, w, u) == 0 && TagsClosed(u, n)
    ensures MatchLen(EnvAssignment, w, CutAt(u, n, k)) == 0 || n < MatchLen(EnvAssignment, w, CutAt(u, n, k)) <= n + |Marker(k)|
  {
    hide MatchLen, Marker, TagsClosed;
    OnlyTheMarkerIsNew(w, u, n, k);
  }

  lemma CleanBehindQuote(w: bool, u: string, v: nat)
    requires v < |u| && (u[v] == '"' || u[v] == '\'') && Clean(EnvAssignment, w, u)
    ensures Clean(EnvAssignment, false, u[v + 1..])
  {
    hide Clean;
    CleanDrop(EnvAssignment, w, u, v + 1);
  }

  lemma QuoteAtCut(w: bool, u: string, n: nat, k: nat, v: nat, rest: string)
    requires v < n <= |u| && Clean(EnvAssignment, w, u) && TagsClosed(u, n)
    requires u[v] == '"' || u[v] == '\''
    requires rest == u[v + 1..]
    ensures ClosesJoined(u[v], false, CutAt(rest, n - v - 1, k)) ==> QuoteLen(u[v], CutAt(rest, n - v - 1, k)) > 0
  {
    hide *;
    CleanBehindQuote(w, u, v);
    TagsClosedFrom(u, n, v + 1);
    if ClosesJoined(u[v], false, CutAt(rest, n - v - 1, k)) {
      ClosesBehindCut(u[v], false, rest, n - v - 1, k);
    }
  }

  lemma CharAtCut(u: string, n: nat, k: nat, v: nat)
    requires n <= |u| && v < n + |Marker(k)|
    ensures v < |CutAt(u, n, k)|
    ensures v < n ==> CutAt(u, n, k)[v] == u[v]
    ensures v >= n ==> CutAt(u, n, k)[v] != '"' && CutAt(u, n, k)[v] != '\''
  {
    if v >= n {
      MarkerPlain(k, v - n);
      assert CutAt(u, n, k)[v] == Marker(k)[v - n];
    }
  }

  lemma NoHealAtCut(w: bool, u: string, n: nat, k: nat)
    requires n <= |u| && Clean(EnvAssignment, w, u) && TagsClosed(u, n)
    ensures !Heals(w, CutAt(u, n, k))
  {
    hide Marker, ClosesJoined, QuoteLen, ValueStart, Clean, IsScrubbed, TagsClosed, CutAt;
    var z := CutAt(u, n, k);
    CutAtParts(u, n, k);
    if Heals(w, z) {
      var v := ValueStart(w, z);
      CharAtCut(u, n, k, v);
      CutAtDrop(u, n, k, v + 1);
      if v < n {
        QuoteAtCut(w, u, n, k, v, u[v + 1..]);
      }
    }
  }

  /** The marker heals no quote either. */
  lemma {:induction false} CutIsHealingFree(w: bool, u: string, n: nat, k: nat)
    requires n <= |u| && Clean(EnvAssignment, w, u) && TagsClosed(u, n)
    ensures HealingFree(w, CutAt(u, n, k))
    decreases n
  {
    hide MatchLen, IsWord, Marker, TagsClosed, Heals, CutAt, Clean;
    var z := CutAt(u, n, k);
    CutAtParts(u, n, k);
    if n == 0 {
      MarkerIsPlain(k, 0);
    } else {
      CleanStep(u, w);
      NewAssignmentIsAtMarker(w, u, n, k);
      var l := MatchLen(EnvAssignment, w, z);
      if l > 0 {
        CutAtDrop(u, n, k, l);
        MarkerIsPlain(k, l - n);
      } else {
        NoHealAtCut(w, u, n, k);
        TagsClosedDrop(u, n);
        CutIsHealingFree(IsWord(u[0]), u[1..], n - 1, k);
      }
    }
  }

  /** However a text without assignments is cut, a second pass over it heals nothing. */
  lemma CutHealsNothing(t: string, n: nat)
    requires Clean(EnvAssignment, false, t)
    ensures HealingFree(false, Cut(t, n))
  {
    CutIsPrefix(t, n);
    hide Cut, Clean, MatchLen, Marker, TagsClosed, HealingFree;
    forall a: nat | a <= |t| && (a < |t| ==> t[a] == '<') ensures HealingFree(false, t[..a]) {
      if a < |t| {
        CleanBeforeMarkup(false, t, a);
      } else {
        assert t[..a] == t;
      }
      CleanJoinsNoLines(false, t[..a]);
      NoJoinedLinesNoHealing(false, t[..a]);
    }
    if n < |t| && Cut(t, n) == t[..n] + Marker(|t| - n) && TagsClosed(t, n) {
      CutIsHealingFree(false, t, n, |t| - n);
    }
  }

  /** The converter emits `Scrub(Safe(s, n))` for every payload. What it emits passes the verifier
      exactly when nothing heals in the payload as `safe` leaves it. */
  lemma EmittedPassesVerifierIff(s: string, n: nat)
    ensures Survivors(Patterns(), Scrub(Safe(s, n))) == [] <==> HealingFree(false, Safe(s, n))
  {
    hide *;
    var t := Scrub(s);
    forall i | 0 <= i < |KeyPatterns()| ensures Clean(KeyPatterns()[i], false, Cut(t, n)) {
      ScrubLeavesNoKeys(s, i);
      PatternsAreKeyLike(i);
      CutKeepsKeysOut(KeyPatterns()[i], t, n);
    }
    ScrubWithoutKeys(Cut(t, n));
    SafeIsCut(s, n);
    VerifierOnScrubbed(Cut(t, n));
  }

  /** So whenever scrubbing the payload once is enough, what is emitted passes, wherever the cut falls. */
  lemma EmittedPassesVerifier(s: string, n: nat)
    requires Survivors(Patterns(), Scrub(s)) == []
    ensures Survivors(Patterns(), Scrub(Safe(s, n))) == []
  {
    hide *;
    LastPattern();
    NoSurvivorIsClean(Patterns(), Scrub(s), 9);
    CutHealsNothing(Scrub(s), n);
    SafeIsCut(s, n);
    EmittedPassesVerifierIff(s, n);
  }

  lemma LastPattern()
    ensures |Patterns()| == 10 && Patterns()[9] == EnvAssignment
  {
  }

  lemma SafeIsCut(s: string, n: nat)
    ensures Safe(s, n) == Cut(Scrub(s), n)
  {
    hide Scrub;
  }
}
