/** What the patterns mean as regular expressions, without saying how a match is
    found. `MatchLen` is shown to be the longest match wherever there is one, so
    neither the greedy quantifiers nor backtracking can find anything else. */
module PatternLanguage {
  import opened Text
  import opened SecretPatterns

  predicate All(k: CharClass, s: string) {
    forall i :: 0 <= i < |s| ==> In(k, s[i])
  }

  /** `prefix[body]{min,}` for one of the prefixes. */
  predicate IsKey(prefixes: seq<string>, body: CharClass, min: nat, m: string) {
    exists i | 0 <= i < |prefixes| ::
      prefixes[i] <= m && |prefixes[i]| + min <= |m| && All(body, m[|prefixes[i]|..])
  }

  /** `(Bearer|bearer)\s+[A-Za-z0-9._~+/-]{8,}=*`, with `a` and `b` the ends of the white space and of the token. */
  predicate IsBearerSplit(m: string, a: nat, b: nat) {
    && 6 < a && a + 8 <= b <= |m|
    && (m[..6] == "Bearer" || m[..6] == "bearer")
    && All(Space, m[6..a]) && All(Opaque, m[a..b]) && All(Padding, m[b..])
  }

  /** `"[^"\n]*"|'[^'\n]*'|[^\s"';|&]+` */
  predicate IsValue(m: string) {
    && m != []
    && if m[0] == '"' || m[0] == '\'' then
         |m| >= 2 && m[|m| - 1] == m[0] && forall i :: 1 <= i < |m| - 1 ==> m[i] != m[0] && m[i] != '\n'
       else All(Bare, m)
  }

  /** `([A-Z][A-Z0-9_]*(?:KEY|...))\s*=\s*(?!['"]?<secret)(value)` matching the first `n`
      characters of `u`: `a`, `e` and `v` end the name, precede the `=` and start the value. */
  predicate IsAssignmentSplit(u: string, n: nat, a: nat, e: nat, v: nat) {
    && 0 < a <= e < v < n <= |u|
    && IsUpper(u[0]) && All(EnvName, u[..a]) && IsSecretName(u[..a])
    && All(Space, u[a..e]) && u[e] == '=' && All(Space, u[e + 1..v])
    && !IsScrubbed(u[v..]) && IsValue(u[v..n])
  }

  /** The first `n` characters of `u` are a match of `p`. */
  ghost predicate Matches(p: Pattern, w: bool, u: string, n: nat) {
    && n <= |u|
    && match p
       case KeyShape(_, boundary, prefixes, body, min, _) =>
         !(boundary && w) && IsKey(prefixes, body, min, u[..n])
       case BearerToken =>
         !w && exists a: nat, b: nat :: IsBearerSplit(u[..n], a, b)
       case EnvAssignment =>
         !w && exists a: nat, e: nat, v: nat :: IsAssignmentSplit(u, n, a, e, v)
  }

  lemma RunIsAll(k: CharClass, s: string)
    ensures All(k, s[..Run(k, s)])
  {
    forall i | 0 <= i < Run(k, s) ensures In(k, s[i]) {
      RunMembers(k, s, i);
    }
  }

  lemma {:induction false} AllIsRun(k: CharClass, s: string, n: nat)
    requires n <= |s| && All(k, s[..n])
    ensures n <= Run(k, s)
    ensures n < |s| && !In(k, s[n]) ==> Run(k, s) == n
  {
    hide In;
    forall i | 0 <= i < n ensures In(k, s[i]) {
      assert s[..n][i] == s[i];
    }
    if n < Run(k, s) {
      RunMembers(k, s, n);
    }
  }

  // ----- keys -----

  lemma {:induction false} KeyFound(prefixes: seq<string>, body: CharClass, min: nat, u: string)
    requires KeyLen(prefixes, body, min, u) > 0
    ensures IsKey(prefixes, body, min, u[..KeyLen(prefixes, body, min, u)])
    decreases |prefixes|
  {
    hide In, All;
    var n := KeyLen(prefixes, body, min, u);
    var prefix := prefixes[0];
    if prefix <= u && Run(body, u[|prefix|..]) >= min {
      RunIsAll(body, u[|prefix|..]);
      assert u[..n][|prefix|..] == u[|prefix|..][..n - |prefix|];
      assert prefixes[0] <= u[..n];
    } else {
      KeyFound(prefixes[1..], body, min, u);
      var i :| 0 <= i < |prefixes[1..]| && prefixes[1..][i] <= u[..n]
        && |prefixes[1..][i]| + min <= |u[..n]| && All(body, u[..n][|prefixes[1..][i]|..]);
      assert prefixes[i + 1] == prefixes[1..][i];
    }
  }

  /** No prefix is a prefix of another, so at most one of them can fit. */
  predicate PrefixFree(prefixes: seq<string>) {
    forall i, j :: 0 <= i < |prefixes| && 0 <= j < |prefixes| && prefixes[i] <= prefixes[j] ==> i == j
  }

  lemma Comparable(a: string, b: string, u: string)
    requires a <= u && b <= u
    ensures a <= b || b <= a
  {
  }

  lemma {:induction false} KeyLongest(prefixes: seq<string>, body: CharClass, min: nat, u: string, n: nat)
    requires PrefixFree(prefixes)
    requires n <= |u| && IsKey(prefixes, body, min, u[..n])
    ensures n <= KeyLen(prefixes, body, min, u)
    decreases |prefixes|
  {
    hide In, All;
    var i :| 0 <= i < |prefixes| && prefixes[i] <= u[..n]
      && |prefixes[i]| + min <= |u[..n]| && All(body, u[..n][|prefixes[i]|..]);
    var k := |prefixes[i]|;
    assert u[..n][k..] == u[k..][..n - k];
    AllIsRun(body, u[k..], n - k);
    if i > 0 {
      if prefixes[0] <= u {
        Comparable(prefixes[0], prefixes[i], u);
        assert false;
      }
      assert prefixes[1..][i - 1] == prefixes[i];
      KeyLongest(prefixes[1..], body, min, u, n);
    }
  }

  // ----- bearer tokens -----

  lemma BearerFound(u: string)
    requires BearerLen(u) > 0
    ensures exists a: nat, b: nat :: IsBearerSplit(u[..BearerLen(u)], a, b)
  {
    hide In, All;
    var n := BearerLen(u);
    var a := 6 + Run(Space, u[6..]);
    var b := a + Run(Opaque, u[a..]);
    RunIsAll(Space, u[6..]);
    RunIsAll(Opaque, u[a..]);
    RunIsAll(Padding, u[b..]);
    var m := u[..n];
    assert m[6..a] == u[6..][..a - 6] && m[a..b] == u[a..][..b - a] && m[b..] == u[b..][..n - b];
    assert IsBearerSplit(m, a, b);
  }

  lemma BearerGap(u: string, a: nat)
    requires 6 <= a < |u| && All(Space, u[6..a]) && In(Opaque, u[a])
    ensures Run(Space, u[6..]) == a - 6
  {
    assert !In(Space, u[a]);
    hide In, All;
    assert u[6..a] == u[6..][..a - 6];
    AllIsRun(Space, u[6..], a - 6);
  }

  lemma BearerPadding(u: string, a: nat, b: nat, n: nat)
    requires a < b <= n <= |u| && All(Opaque, u[a..b]) && All(Padding, u[b..n])
    ensures var b' := a + Run(Opaque, u[a..]); b <= b' && n <= b' + Run(Padding, u[b'..])
  {
    assert n > b ==> !In(Opaque, u[b]) by {
      if n > b {
        assert In(Padding, u[b..n][0]);
      }
    }
    hide In, All;
    assert u[a..b] == u[a..][..b - a] && u[b..n] == u[b..][..n - b];
    AllIsRun(Opaque, u[a..], b - a);
    AllIsRun(Padding, u[b..], n - b);
  }

  lemma BearerScheme(u: string)
    requires |u| >= 6 && (u[..6] == "Bearer" || u[..6] == "bearer")
    ensures "Bearer" <= u || "bearer" <= u
  {
    assert u == u[..6] + u[6..];
  }

  lemma BearerLenIs(u: string, a: nat, b: nat, n: nat)
    requires 6 < a && a + 8 <= b <= n <= |u| && ("Bearer" <= u || "bearer" <= u)
    requires Run(Space, u[6..]) == a - 6
    requires var b' := a + Run(Opaque, u[a..]); b <= b' && n <= b' + Run(Padding, u[b'..])
    ensures n <= BearerLen(u)
  {
    hide Run;
  }

  lemma BearerLongest(u: string, n: nat, a: nat, b: nat)
    requires n <= |u| && IsBearerSplit(u[..n], a, b)
    ensures n <= BearerLen(u)
  {
    var m := u[..n];
    assert In(Opaque, u[a]) by {
      assert m[a..b][0] == u[a];
    }
    hide In, All, BearerLen;
    assert m[6..a] == u[6..a] && m[a..b] == u[a..b] && m[b..] == u[b..n] && m[..6] == u[..6];
    BearerGap(u, a);
    BearerPadding(u, a, b, n);
    BearerScheme(u);
    BearerLenIs(u, a, b, n);
  }

  // ----- assignments -----

  lemma {:induction false} QuoteFound(q: char, v: string)
    requires QuoteLen(q, v) > 0
    ensures forall i :: 0 <= i < QuoteLen(q, v) - 1 ==> v[i] != q && v[i] != '\n'
  {
    if v[0] != q {
      QuoteFound(q, v[1..]);
    }
  }

  lemma {:induction false} QuoteOnly(q: char, v: string, n: nat)
    requires 0 < n <= |v| && v[n - 1] == q
    requires forall i :: 0 <= i < n - 1 ==> v[i] != q && v[i] != '\n'
    ensures QuoteLen(q, v) == n
  {
    if n > 1 {
      assert forall i :: 0 <= i < n - 2 ==> v[1..][i] == v[i + 1];
      QuoteOnly(q, v[1..], n - 1);
    }
  }

  lemma ValueFound(x: string)
    requires ValueLen(x) > 0
    ensures IsValue(x[..ValueLen(x)])
  {
    if x[0] == '"' || x[0] == '\'' {
      QuoteFound(x[0], x[1..]);
    } else {
      RunIsAll(Bare, x);
    }
  }

  lemma ValueLongest(x: string, n: nat)
    requires n <= |x| && IsValue(x[..n])
    ensures n <= ValueLen(x)
  {
    var m := x[..n];
    if x[0] == '"' || x[0] == '\'' {
      forall i | 0 <= i < n - 2 ensures x[1..][i] != x[0] && x[1..][i] != '\n' {
        assert x[1..][i] == m[i + 1];
      }
      QuoteOnly(x[0], x[1..], n - 1);
    } else {
      AllIsRun(Bare, x, n);
    }
  }

  lemma ValueStartsSolid(m: string)
    requires IsValue(m)
    ensures !IsSpace(m[0])
  {
    if m[0] != '"' && m[0] != '\'' {
      assert In(Bare, m[0]);
    }
  }

  lemma EqualsFound(s: string)
    requires EqualsLen(s) > 0
    ensures var e := Run(Space, s); e < EqualsLen(s) && All(Space, s[..e]) && s[e] == '=' && All(Space, s[e + 1..EqualsLen(s)])
  {
    hide In, All;
    var e := Run(Space, s);
    var x := s[e..];
    RunIsAll(Space, s);
    RunIsAll(Space, x[1..]);
    assert x[1..][..Run(Space, x[1..])] == s[e + 1..EqualsLen(s)];
  }

  lemma EqualsOnly(s: string, e: nat, v: nat)
    requires e < v < |s| && All(Space, s[..e]) && s[e] == '=' && All(Space, s[e + 1..v]) && !IsSpace(s[v])
    ensures EqualsLen(s) == v
  {
    assert !In(Space, s[e]) && !In(Space, s[v]);
    hide In, All;
    AllIsRun(Space, s, e);
    var x := s[e..];
    assert s[e + 1..v] == x[1..][..v - e - 1] && x[1..][v - e - 1] == s[v];
    AllIsRun(Space, x[1..], v - e - 1);
  }

  /** The white space, the `=` and the white space behind a name, by their places in the whole text. */
  lemma EqualsFoundAt(u: string, a: nat, v: nat)
    requires a <= v <= |u| && EqualsLen(u[a..]) == v - a > 0
    ensures var e := a + Run(Space, u[a..]); e < v && All(Space, u[a..e]) && u[e] == '=' && All(Space, u[e + 1..v])
  {
    hide In, All, EqualsLen;
    var s := u[a..];
    EqualsFound(s);
    var e := Run(Space, s);
    assert s[..e] == u[a..a + e] && s[e] == u[a + e];
    assert s[e + 1..v - a] == u[a + e + 1..v];
  }

  lemma AssignmentFound(w: bool, u: string)
    requires EnvLen(w, u) > 0
    ensures !w
    ensures var a := Run(EnvName, u); IsAssignmentSplit(u, EnvLen(w, u), a, a + Run(Space, u[a..]), ValueStart(w, u))
  {
    hide In, All, IsSecretName, EqualsLen, IsScrubbed, ValueLen, IsValue;
    var a := Run(EnvName, u);
    var v := ValueStart(w, u);
    assert IsUpper(u[0]);
    NameNotEmpty(u);
    RunIsAll(EnvName, u);
    EqualsFoundAt(u, a, v);
    ValueFound(u[v..]);
    assert u[v..][..EnvLen(w, u) - v] == u[v..EnvLen(w, u)];
  }

  lemma NameNotEmpty(u: string)
    requires u != [] && IsUpper(u[0])
    ensures Run(EnvName, u) > 0
  {
  }

  lemma AssignmentEquals(u: string, n: nat, a: nat, e: nat, v: nat)
    requires IsAssignmentSplit(u, n, a, e, v)
    ensures EqualsLen(u[a..]) == v - a
  {
    hide In, All, IsSecretName, EqualsLen, IsScrubbed, IsValue, IsSpace;
    ValueStartsSolid(u[v..n]);
    var s := u[a..];
    assert s[..e - a] == u[a..e] && s[e - a] == u[e] && s[e - a + 1..v - a] == u[e + 1..v];
    assert s[v - a] == u[v] && u[v..n][0] == u[v];
    EqualsOnly(s, e - a, v - a);
  }

  lemma AssignmentValueStart(u: string, n: nat, a: nat, e: nat, v: nat)
    requires IsAssignmentSplit(u, n, a, e, v)
    ensures ValueStart(false, u) == v
  {
    AssignmentName(u, n, a, e, v);
    hide In, All, IsSecretName, EqualsLen, IsScrubbed, IsValue, Run, IsSpace;
    AssignmentEquals(u, n, a, e, v);
  }

  lemma AssignmentLongest(w: bool, u: string, n: nat, a: nat, e: nat, v: nat)
    requires !w && IsAssignmentSplit(u, n, a, e, v)
    ensures n <= EnvLen(w, u)
  {
    hide In, All, IsSecretName, ValueStart, IsScrubbed, ValueLen, IsValue, Run, IsSpace;
    AssignmentValueStart(u, n, a, e, v);
    assert u[v..][..n - v] == u[v..n];
    ValueLongest(u[v..], n - v);
  }

  lemma AssignmentName(u: string, n: nat, a: nat, e: nat, v: nat)
    requires IsAssignmentSplit(u, n, a, e, v)
    ensures Run(EnvName, u) == a
  {
    assert u[a] == '=' || IsSpace(u[a]) by {
      if e > a {
        assert In(Space, u[a..e][0]);
      }
    }
    assert !In(EnvName, u[a]);
    hide In, All;
    AllIsRun(EnvName, u, a);
  }

  // ----- every pattern -----

  lemma FreeAt(prefixes: seq<string>, k: nat)
    requires forall i :: 0 <= i < |prefixes| ==> k < |prefixes[i]|
    requires forall i, j :: 0 <= i < j < |prefixes| ==> prefixes[i][k] != prefixes[j][k]
    ensures PrefixFree(prefixes)
  {
    forall i, j | 0 <= i < |prefixes| && 0 <= j < |prefixes| && prefixes[i] <= prefixes[j] ensures i == j {
      assert prefixes[i][k] == prefixes[j][k];
    }
  }

  lemma PrefixesAreFree(i: nat)
    requires i < |KeyPatterns()| && KeyPatterns()[i].KeyShape?
    ensures PrefixFree(KeyPatterns()[i].prefixes) && KeyPatterns()[i].min > 0
  {
    FreeAt(GITHUB_TOKEN.prefixes, 2);
    FreeAt(LINEAR_KEY.prefixes, 4);
  }

  /** `MatchLen` is the longest match where there is one and 0 where there is none. */
  lemma MatchLenIsLongest(p: Pattern, w: bool, u: string)
    requires p in Patterns()
    ensures MatchLen(p, w, u) > 0 ==> Matches(p, w, u, MatchLen(p, w, u))
    ensures forall n: nat :: Matches(p, w, u, n) ==> n <= MatchLen(p, w, u)
  {
    var i :| 0 <= i < |Patterns()| && Patterns()[i] == p;
    match p
    case KeyShape(_, boundary, prefixes, body, min, _) =>
      PrefixesAreFree(i);
      hide KeyPatterns, KeyLen, IsKey;
      if MatchLen(p, w, u) > 0 {
        KeyFound(prefixes, body, min, u);
      }
      forall n: nat | Matches(p, w, u, n) ensures n <= MatchLen(p, w, u) {
        KeyLongest(prefixes, body, min, u, n);
      }
    case BearerToken =>
      hide BearerLen, IsBearerSplit;
      if MatchLen(p, w, u) > 0 {
        BearerFound(u);
      }
      forall n: nat | Matches(p, w, u, n) ensures n <= MatchLen(p, w, u) {
        var a: nat, b: nat :| IsBearerSplit(u[..n], a, b);
        BearerLongest(u, n, a, b);
      }
    case EnvAssignment =>
      hide EnvLen, IsAssignmentSplit;
      if MatchLen(p, w, u) > 0 {
        AssignmentFound(w, u);
      }
      forall n: nat | Matches(p, w, u, n) ensures n <= MatchLen(p, w, u) {
        var a: nat, e: nat, v: nat :| IsAssignmentSplit(u, n, a, e, v);
        AssignmentLongest(w, u, n, a, e, v);
      }
  }

  // ----- what a pass does up to the next match, and at it -----

  lemma ReplaceStep(p: Pattern, s: string, i: nat)
    requires i < |s| && MatchLen(p, WordBefore(s, i), s[i..]) == 0
    ensures Replace(p, WordBefore(s, i), s[i..]) == [s[i]] + Replace(p, WordBefore(s, i + 1), s[i + 1..])
  {
    hide MatchLen, IsWord;
    assert s[i..][1..] == s[i + 1..];
  }

  lemma ReplaceHit(p: Pattern, s: string, i: nat, next: nat)
    requires i < next <= |s| && MatchLen(p, WordBefore(s, i), s[i..]) == next - i
    ensures Replace(p, WordBefore(s, i), s[i..]) == Replacement(p, s[i..]) + Replace(p, WordBefore(s, next), s[next..])
  {
    hide MatchLen, IsWord, Replacement;
    assert s[i..][next - i..] == s[next..];
    assert s[i..][next - i - 1] == s[next - 1];
  }

  lemma {:induction false} ReplaceSkips(p: Pattern, s: string, from: nat, stop: nat)
    requires from <= stop <= |s|
    requires forall i: nat :: from <= i < stop ==> MatchLen(p, WordBefore(s, i), s[i..]) == 0
    ensures Replace(p, WordBefore(s, from), s[from..]) == s[from..stop] + Replace(p, WordBefore(s, stop), s[stop..])
    decreases stop - from
  {
    hide MatchLen, Replace, WordBefore;
    if from < stop {
      ReplaceStep(p, s, from);
      ReplaceSkips(p, s, from + 1, stop);
      assert s[from..stop] == [s[from]] + s[from + 1..stop];
    }
  }

  lemma ReplaceEnd(p: Pattern, s: string)
    ensures Replace(p, WordBefore(s, |s|), s[|s|..]) == []
  {
  }
}
