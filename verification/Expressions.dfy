/** The ten expressions of the scrubber as they are written: characters spelled out, literal prefixes,
    lower bounds and placeholders. The matcher, the passes, the scrubber and the report are exactly what
    these readings say, on every text. */
module Expressions {
  import opened Text
  import opened Spelling
  import opened SecretPatterns
  import opened PatternLanguage
  import opened Scrubber

  // ----- the readings -----

  const WORD := UPPER + LOWER + DIGITS + "_"

  /** `\b` in front of a word character at position `k` of `s`. */
  predicate AtBoundary(s: string, k: nat)
    requires k <= |s|
  {
    k == 0 || s[k - 1] !in WORD
  }

  /** `prefix[chars]{min,}` */
  predicate KeyText(m: string, prefix: string, chars: string, min: nat) {
    prefix <= m && |prefix| + min <= |m| && MadeOf(m[|prefix|..], chars)
  }

  /** `(Bearer|bearer)\s+[A-Za-z0-9._~+/-]{8,}=*` */
  ghost predicate BearerText(m: string) {
    exists a: nat, b: nat :: BearerTextAt(m, a, b)
  }

  predicate BearerTextAt(m: string, a: nat, b: nat) {
    && 6 < a && a + 8 <= b <= |m|
    && (m[..6] == "Bearer" || m[..6] == "bearer")
    && MadeOf(m[6..a], SPACES) && MadeOf(m[a..b], UPPER + LOWER + DIGITS + "._~+/-") && MadeOf(m[b..], "=")
  }

  /** `[A-Z][A-Z0-9_]*(?:KEY|TOKEN|SECRET|PASSWORD|PASSWD|CREDENTIALS)` */
  ghost predicate NameText(name: string) {
    name != "" && name[0] in UPPER && MadeOf(name, UPPER + DIGITS + "_") && EndsInSecretWord(name)
  }

  ghost predicate EndsInSecretWord(name: string) {
    exists h :: h != "" && IsWithSecretWord(name, h)
  }

  predicate IsWithSecretWord(name: string, h: string) {
    || name == h + "KEY" || name == h + "TOKEN" || name == h + "SECRET"
    || name == h + "PASSWORD" || name == h + "PASSWD" || name == h + "CREDENTIALS"
  }

  /** `"[^"\n]*"|'[^'\n]*'|[^\s"';|&]+` */
  predicate ValueText(m: string) {
    || (|m| >= 2 && m[0] == '"' && m[|m| - 1] == '"' && FreeOf(m[1..|m| - 1], "\"\n"))
    || (|m| >= 2 && m[0] == '\'' && m[|m| - 1] == '\'' && FreeOf(m[1..|m| - 1], "'\n"))
    || (m != "" && FreeOf(m, SPACES) && FreeOf(m, "\"';|&"))
  }

  /** `(name)\s*=\s*(?!['"]?<secret)(value)` on the first `n` characters of `u`: `a` ends the name, `e` is
      the `=`, `v` starts the value. */
  ghost predicate AssignmentText(u: string, n: nat, a: nat, e: nat, v: nat) {
    && 0 < a <= e < v < n <= |u|
    && NameText(u[..a]) && MadeOf(u[a..e], SPACES) && u[e] == '=' && MadeOf(u[e + 1..v], SPACES)
    && !("<secret" <= u[v..] || "'<secret" <= u[v..] || "\"<secret" <= u[v..])
    && ValueText(u[v..n])
  }

  /** Expression `i`, in the order of the table, matches the `n` characters of `s` from position `k` on. */
  ghost predicate Reads(i: nat, s: string, k: nat, n: nat) {
    k + n <= |s| &&
    var m := s[k..k + n];
    match i
    case 0 => KeyText(m, "sk-or-v1-", UPPER + LOWER + DIGITS, 16)
    case 1 => KeyText(m, "sk-ant-", UPPER + LOWER + DIGITS + "_-", 16)
    case 2 => KeyText(m, "sk-proj-", UPPER + LOWER + DIGITS + "_-", 16)
    case 3 => AtBoundary(s, k) && KeyText(m, "sk-", UPPER + LOWER + DIGITS + "_-", 20)
    case 4 => AtBoundary(s, k) && KeyText(m, "pk_", UPPER + LOWER + DIGITS + "_", 4)
    case 5 => AtBoundary(s, k) && exists c :: c in "opsur" && KeyText(m, "gh" + [c] + "_", UPPER + LOWER + DIGITS, 16)
    case 6 => AtBoundary(s, k) && KeyText(m, "github_pat_", UPPER + LOWER + DIGITS + "_", 20)
    case 7 => AtBoundary(s, k) &&
      (KeyText(m, "lin_api_", UPPER + LOWER + DIGITS, 16) || KeyText(m, "lin_oauth_", UPPER + LOWER + DIGITS, 16))
    case 8 => AtBoundary(s, k) && BearerText(m)
    case 9 => AtBoundary(s, k) && exists a: nat, e: nat, v: nat :: AssignmentText(s[k..], n, a, e, v)
    case _ => false
  }

  const NAMES: seq<string> := [
    "openrouter-key", "anthropic-key", "openai-project-key", "generic-sk-key", "potion-api-key",
    "github-token", "github-fine-grained-pat", "linear-key", "bearer-token", "env-assignment"]

  const PLACEHOLDERS: seq<string> := [
    "<secret:openrouter>", "<secret:anthropic>", "<secret:openai>", "<secret:sk>", "<secret:potion-key>",
    "<secret:github>", "<secret:github-pat>", "<secret:linear>", "Bearer <secret:bearer>"]

  /** `r` is what replaces the match of expression `i` there; `$1` is the name of the assignment. */
  ghost predicate Writes(i: nat, s: string, k: nat, n: nat, r: string) {
    if i < 9 then r == PLACEHOLDERS[i]
    else k <= |s| && exists a: nat, e: nat, v: nat :: AssignmentText(s[k..], n, a, e, v) && r == s[k..][..a] + "=<secret:env>"
  }

  // ----- the classes of the matcher are the characters of the expressions -----

  function Spelled(k: CharClass): string
    requires k != Bare
  {
    match k
    case Alnum => UPPER + LOWER + DIGITS
    case AlnumUnder => UPPER + LOWER + DIGITS + "_"
    case AlnumUnderDash => UPPER + LOWER + DIGITS + "_-"
    case Opaque => UPPER + LOWER + DIGITS + "._~+/-"
    case Padding => "="
    case Space => SPACES
    case EnvName => UPPER + DIGITS + "_"
  }

  lemma ClassSpelled(k: CharClass, c: char)
    requires k != Bare
    ensures In(k, c) <==> c in Spelled(k)
  {
    UpperSpelled(c);
    LowerSpelled(c);
    DigitSpelled(c);
    SpaceSpelled(c);
    hide IsUpper, IsLower, IsDigit, IsSpace;
  }

  lemma WordSpelled(c: char)
    ensures IsWord(c) <==> c in WORD
  {
    ClassSpelled(AlnumUnder, c);
  }

  lemma AllSpelled(k: CharClass, s: string)
    requires k != Bare
    ensures All(k, s) <==> MadeOf(s, Spelled(k))
  {
    hide In, Spelled;
    forall i | 0 <= i < |s| ensures In(k, s[i]) <==> s[i] in Spelled(k) {
      ClassSpelled(k, s[i]);
    }
  }

  lemma BareSpelled(s: string)
    ensures All(Bare, s) <==> FreeOf(s, SPACES) && FreeOf(s, "\"';|&")
  {
    forall i | 0 <= i < |s| ensures In(Bare, s[i]) <==> s[i] !in SPACES && s[i] !in "\"';|&" {
      SpaceSpelled(s[i]);
    }
    hide In;
  }

  lemma BoundarySpelled(s: string, k: nat)
    requires k <= |s|
    ensures AtBoundary(s, k) <==> !WordBefore(s, k)
  {
    if k > 0 {
      WordSpelled(s[k - 1]);
    }
    hide IsWord;
  }

  lemma SuffixSpelled(name: string, w: string)
    ensures |w| < |name| && EndsWith(name, w) <==> exists h :: h != "" && name == h + w
  {
    if |w| < |name| && EndsWith(name, w) {
      var h := name[..|name| - |w|];
      assert h != "" && name == h + w;
    }
    if h :| h != "" && name == h + w {
      assert name[|h|..] == w;
    }
  }

  lemma {:induction false} AnySuffixSpelled(name: string, words: seq<string>)
    ensures EndsWithAny(name, words) <==> exists j, h :: 0 <= j < |words| && h != "" && name == h + words[j]
    decreases |words|
  {
    hide EndsWith;
    if words != [] {
      var rest := words[1..];
      SuffixSpelled(name, words[0]);
      AnySuffixSpelled(name, rest);
      if j, h :| 0 <= j < |rest| && h != "" && name == h + rest[j] {
        assert name == h + words[j + 1];
      }
      if j, h :| 0 <= j < |words| && h != "" && name == h + words[j] {
        if j > 0 {
          assert name == h + rest[j - 1];
        }
      }
    }
  }

  /** The name of an assignment has at least one character before one of the six words, which is all the
      matcher asks of it. */
  lemma SecretNameIff(name: string)
    ensures IsSecretName(name) <==> EndsInSecretWord(name)
  {
    AnySuffixSpelled(name, ENV_SUFFIXES);
    hide EndsWithAny;
    if j, h :| 0 <= j < |ENV_SUFFIXES| && h != "" && name == h + ENV_SUFFIXES[j] {
      assert IsWithSecretWord(name, h);
    }
    if h :| h != "" && IsWithSecretWord(name, h) {
      assert exists j :: 0 <= j < |ENV_SUFFIXES| && name == h + ENV_SUFFIXES[j] by {
        SomeWord(name, h);
      }
    }
  }

  lemma SomeWord(name: string, h: string)
    requires IsWithSecretWord(name, h)
    ensures exists j :: 0 <= j < |ENV_SUFFIXES| && name == h + ENV_SUFFIXES[j]
  {
    assert ENV_SUFFIXES[0] == "KEY" && ENV_SUFFIXES[1] == "TOKEN" && ENV_SUFFIXES[2] == "SECRET";
    assert ENV_SUFFIXES[3] == "PASSWORD" && ENV_SUFFIXES[4] == "PASSWD" && ENV_SUFFIXES[5] == "CREDENTIALS";
  }

  lemma ValueSpelled(m: string)
    ensures IsValue(m) <==> ValueText(m)
  {
    BareSpelled(m);
    hide All;
    if |m| >= 2 {
      var x := m[1..|m| - 1];
      assert forall i :: 1 <= i < |m| - 1 ==> m[i] == x[i - 1];
      assert forall i :: 0 <= i < |x| ==> x[i] == m[i + 1];
    }
    assert (exists i :: 0 <= i < |m| && (m[i] == '"' || m[i] == '\'')) ==> !FreeOf(m, "\"';|&");
  }

  lemma NameSpelled(name: string)
    ensures NameText(name) <==> name != "" && IsUpper(name[0]) && All(EnvName, name) && IsSecretName(name)
  {
    AllSpelled(EnvName, name);
    SecretNameIff(name);
    if name != "" {
      UpperSpelled(name[0]);
    }
    hide IsUpper, All, MadeOf, IsSecretName, EndsInSecretWord;
  }

  /** The lookahead. */
  lemma AheadSpelled(v: string)
    ensures IsScrubbed(v) <==> "<secret" <= v || "'<secret" <= v || "\"<secret" <= v
  {
    if v != "" {
      assert v == [v[0]] + v[1..];
      Behind('\'', v);
      Behind('"', v);
    }
  }

  lemma Behind(q: char, v: string)
    requires v != ""
    ensures [q] + "<secret" <= v <==> v[0] == q && "<secret" <= v[1..]
    ensures "'<secret" == ['\''] + "<secret" && "\"<secret" == ['"'] + "<secret"
  {
    var x := [q] + "<secret";
    if x <= v {
      assert v[1..][..7] == x[1..];
    }
    if v[0] == q && "<secret" <= v[1..] {
      assert v[..8] == x;
    }
  }

  lemma AssignmentSpelled(u: string, n: nat, a: nat, e: nat, v: nat)
    ensures AssignmentText(u, n, a, e, v) <==> IsAssignmentSplit(u, n, a, e, v)
  {
    if 0 < a <= e < v < n <= |u| {
      NameSpelled(u[..a]);
      AllSpelled(Space, u[a..e]);
      AllSpelled(Space, u[e + 1..v]);
      AheadSpelled(u[v..]);
      ValueSpelled(u[v..n]);
      assert u[..a][0] == u[0];
    }
    hide NameText, All, MadeOf, IsScrubbed, ValueText, IsValue, IsUpper, IsSecretName;
  }

  lemma BearerSpelled(m: string, a: nat, b: nat)
    ensures BearerTextAt(m, a, b) <==> IsBearerSplit(m, a, b)
  {
    if 6 < a && a + 8 <= b <= |m| {
      AllSpelled(Space, m[6..a]);
      AllSpelled(Opaque, m[a..b]);
      AllSpelled(Padding, m[b..]);
    }
    hide All, MadeOf;
  }

  lemma KeySpelled(m: string, prefixes: seq<string>, body: CharClass, min: nat)
    requires body != Bare
    ensures IsKey(prefixes, body, min, m) <==> exists i :: 0 <= i < |prefixes| && KeyText(m, prefixes[i], Spelled(body), min)
  {
    forall i | 0 <= i < |prefixes| && prefixes[i] <= m
      ensures All(body, m[|prefixes[i]|..]) <==> MadeOf(m[|prefixes[i]|..], Spelled(body))
    {
      AllSpelled(body, m[|prefixes[i]|..]);
    }
    hide All, MadeOf, Spelled;
  }

  lemma OnePrefix(m: string, prefix: string, body: CharClass, min: nat)
    requires body != Bare
    ensures IsKey([prefix], body, min, m) <==> KeyText(m, prefix, Spelled(body), min)
  {
    KeySpelled(m, [prefix], body, min);
    hide IsKey, KeyText, Spelled;
    if KeyText(m, prefix, Spelled(body), min) {
      assert KeyText(m, [prefix][0], Spelled(body), min);
    }
  }

  lemma GithubSpelled(m: string)
    ensures IsKey(GITHUB_TOKEN.prefixes, Alnum, 16, m) <==>
      exists c :: c in "opsur" && KeyText(m, "gh" + [c] + "_", UPPER + LOWER + DIGITS, 16)
  {
    var prefixes := GITHUB_TOKEN.prefixes;
    KeySpelled(m, prefixes, Alnum, 16);
    hide IsKey, KeyText, MadeOf;
    var letters := "opsur";
    assert forall i :: 0 <= i < 5 ==> prefixes[i] == "gh" + [letters[i]] + "_";
    if i :| 0 <= i < |prefixes| && KeyText(m, prefixes[i], Spelled(Alnum), 16) {
      assert letters[i] in "opsur" && KeyText(m, "gh" + [letters[i]] + "_", UPPER + LOWER + DIGITS, 16);
    }
    if c :| c in "opsur" && KeyText(m, "gh" + [c] + "_", UPPER + LOWER + DIGITS, 16) {
      var i :| 0 <= i < 5 && letters[i] == c;
      assert KeyText(m, prefixes[i], Spelled(Alnum), 16);
    }
  }

  lemma LinearSpelled(m: string)
    ensures IsKey(LINEAR_KEY.prefixes, Alnum, 16, m) <==>
      KeyText(m, "lin_api_", UPPER + LOWER + DIGITS, 16) || KeyText(m, "lin_oauth_", UPPER + LOWER + DIGITS, 16)
  {
    var prefixes := LINEAR_KEY.prefixes;
    KeySpelled(m, prefixes, Alnum, 16);
    hide IsKey, KeyText;
    assert prefixes[0] == "lin_api_" && prefixes[1] == "lin_oauth_" && |prefixes| == 2;
    if KeyText(m, "lin_api_", UPPER + LOWER + DIGITS, 16) {
      assert KeyText(m, prefixes[0], Spelled(Alnum), 16);
    }
    if KeyText(m, "lin_oauth_", UPPER + LOWER + DIGITS, 16) {
      assert KeyText(m, prefixes[1], Spelled(Alnum), 16);
    }
  }

  lemma SingleSpelled(m: string)
    ensures IsKey(OPENROUTER_KEY.prefixes, Alnum, 16, m) <==> KeyText(m, "sk-or-v1-", UPPER + LOWER + DIGITS, 16)
    ensures IsKey(ANTHROPIC_KEY.prefixes, AlnumUnderDash, 16, m) <==> KeyText(m, "sk-ant-", UPPER + LOWER + DIGITS + "_-", 16)
    ensures IsKey(OPENAI_PROJECT_KEY.prefixes, AlnumUnderDash, 16, m) <==> KeyText(m, "sk-proj-", UPPER + LOWER + DIGITS + "_-", 16)
    ensures IsKey(GENERIC_SK_KEY.prefixes, AlnumUnderDash, 20, m) <==> KeyText(m, "sk-", UPPER + LOWER + DIGITS + "_-", 20)
    ensures IsKey(POTION_API_KEY.prefixes, AlnumUnder, 4, m) <==> KeyText(m, "pk_", UPPER + LOWER + DIGITS + "_", 4)
    ensures IsKey(GITHUB_PAT.prefixes, AlnumUnder, 20, m) <==> KeyText(m, "github_pat_", UPPER + LOWER + DIGITS + "_", 20)
  {
    OnePrefix(m, "sk-or-v1-", Alnum, 16);
    OnePrefix(m, "sk-ant-", AlnumUnderDash, 16);
    OnePrefix(m, "sk-proj-", AlnumUnderDash, 16);
    OnePrefix(m, "sk-", AlnumUnderDash, 20);
    OnePrefix(m, "pk_", AlnumUnder, 4);
    OnePrefix(m, "github_pat_", AlnumUnder, 20);
    hide IsKey, KeyText;
  }

  lemma KeyReads(i: nat, s: string, k: nat, n: nat)
    requires i < 8 && k + n <= |s|
    ensures Reads(i, s, k, n) <==> Matches(Patterns()[i], WordBefore(s, k), s[k..], n)
  {
    var m := s[k..k + n];
    assert s[k..][..n] == m;
    BoundarySpelled(s, k);
    PatternTable();
    hide Patterns, AtBoundary, WordBefore, IsKey, KeyText;
    if i < 5 || i == 6 {
      SingleSpelled(m);
    } else if i == 5 {
      GithubSpelled(m);
    } else {
      LinearSpelled(m);
    }
  }

  lemma PatternTable()
    ensures |Patterns()| == 10
    ensures Patterns()[0] == OPENROUTER_KEY && Patterns()[1] == ANTHROPIC_KEY && Patterns()[2] == OPENAI_PROJECT_KEY
    ensures Patterns()[3] == GENERIC_SK_KEY && Patterns()[4] == POTION_API_KEY && Patterns()[5] == GITHUB_TOKEN
    ensures Patterns()[6] == GITHUB_PAT && Patterns()[7] == LINEAR_KEY && Patterns()[8] == BearerToken
    ensures Patterns()[9] == EnvAssignment
  {
  }

  lemma BearerReads(s: string, k: nat, n: nat)
    requires k + n <= |s|
    ensures Reads(8, s, k, n) <==> Matches(BearerToken, WordBefore(s, k), s[k..], n)
  {
    BoundarySpelled(s, k);
    var m := s[k..k + n];
    assert s[k..][..n] == m;
    forall a: nat, b: nat ensures BearerTextAt(m, a, b) <==> IsBearerSplit(m, a, b) {
      BearerSpelled(m, a, b);
    }
    hide AtBoundary, WordBefore, BearerTextAt, IsBearerSplit;
  }

  lemma AssignmentReads(s: string, k: nat, n: nat)
    requires k + n <= |s|
    ensures Reads(9, s, k, n) <==> Matches(EnvAssignment, WordBefore(s, k), s[k..], n)
  {
    BoundarySpelled(s, k);
    var u := s[k..];
    forall a: nat, e: nat, v: nat ensures AssignmentText(u, n, a, e, v) <==> IsAssignmentSplit(u, n, a, e, v) {
      AssignmentSpelled(u, n, a, e, v);
    }
    hide AtBoundary, WordBefore, AssignmentText, IsAssignmentSplit;
  }

  /** The patterns of the matcher are the ten expressions. */
  lemma PatternReads(i: nat, s: string, k: nat, n: nat)
    requires i < 10 && k <= |s|
    ensures Reads(i, s, k, n) <==> Matches(Patterns()[i], WordBefore(s, k), s[k..], n)
  {
    assert Patterns()[8] == BearerToken && Patterns()[9] == EnvAssignment;
    if k + n <= |s| {
      hide *;
      if i < 8 {
        KeyReads(i, s, k, n);
      } else if i == 8 {
        BearerReads(s, k, n);
      } else {
        AssignmentReads(s, k, n);
      }
    } else {
      hide WordBefore, Patterns;
    }
  }

  // ----- matching, replacing, scrubbing and reporting by the readings -----

  /** The expression takes the longest of its readings there. */
  ghost predicate IsMatch(i: nat, s: string, k: nat, n: nat) {
    Reads(i, s, k, n) && forall m: nat :: Reads(i, s, k, m) ==> m <= n
  }

  /** The matcher finds a match exactly where the expression has a reading, and the longest. */
  lemma MatchIsLongestReading(i: nat, s: string, k: nat)
    requires i < 10 && k <= |s|
    ensures var n := MatchLen(Patterns()[i], WordBefore(s, k), s[k..]);
      if n > 0 then IsMatch(i, s, k, n) else forall m: nat :: !Reads(i, s, k, m)
  {
    var p := Patterns()[i];
    MatchLenIsLongest(p, WordBefore(s, k), s[k..]);
    forall m: nat ensures Reads(i, s, k, m) <==> Matches(p, WordBefore(s, k), s[k..], m) {
      PatternReads(i, s, k, m);
    }
    ReadsSomething(i, s, k);
    hide Reads, Matches, MatchLen, WordBefore, Patterns;
  }

  lemma ReadsSomething(i: nat, s: string, k: nat)
    ensures !Reads(i, s, k, 0)
  {
    hide MadeOf, AtBoundary, NameText, ValueText;
  }

  /** One match of a pass and what is written for it. */
  datatype Swap = Swap(start: nat, len: nat, written: string)

  /** The leftmost matches of expression `i` in `s` from `from` on, each behind the one before. */
  ghost predicate AreSwaps(i: nat, s: string, from: nat, swaps: seq<Swap>)
    decreases |swaps|
  {
    && from <= |s|
    && var stop := if swaps == [] then |s| else swaps[0].start;
    && from <= stop <= |s|
    && (forall k: nat, m: nat :: from <= k < stop ==> !Reads(i, s, k, m))
    && (swaps != [] ==>
          && IsMatch(i, s, stop, swaps[0].len)
          && Writes(i, s, stop, swaps[0].len, swaps[0].written)
          && AreSwaps(i, s, stop + swaps[0].len, swaps[1..]))
  }

  /** `s` from `from` on, with each of these matches exchanged. */
  function Swapped(s: string, from: nat, swaps: seq<Swap>): string
    requires from <= |s|
    decreases |swaps|
  {
    if swaps == [] then s[from..]
    else
      var h := swaps[0];
      if from <= h.start && h.start + h.len <= |s| then
        s[from..h.start] + h.written + Swapped(s, h.start + h.len, swaps[1..])
      else s[from..]
  }

  /** `t` is `s.replace(expression, placeholder)`. */
  ghost predicate IsPassOf(i: nat, s: string, t: string) {
    exists swaps :: AreSwaps(i, s, 0, swaps) && t == Swapped(s, 0, swaps)
  }

  lemma AssignmentWrites(u: string, n: nat, a: nat, e: nat, v: nat)
    requires AssignmentText(u, n, a, e, v)
    ensures Replacement(EnvAssignment, u) == u[..a] + "=<secret:env>"
  {
    AssignmentSpelled(u, n, a, e, v);
    hide AssignmentText, IsAssignmentSplit;
    AssignmentName(u, n, a, e, v);
  }

  lemma PlaceholderOf(i: nat, u: string)
    requires i < 9
    ensures Replacement(Patterns()[i], u) == PLACEHOLDERS[i]
  {
  }

  lemma WritesIs(i: nat, s: string, k: nat, n: nat, r: string)
    requires i < 10 && k <= |s| && Reads(i, s, k, n)
    ensures Writes(i, s, k, n, r) <==> r == Replacement(Patterns()[i], s[k..])
  {
    if i < 9 {
      PlaceholderOf(i, s[k..]);
    } else {
      var u := s[k..];
      assert Patterns()[9] == EnvAssignment;
      var a: nat, e: nat, v: nat :| AssignmentText(u, n, a, e, v);
      hide AssignmentText, Replacement, Patterns;
      AssignmentWrites(u, n, a, e, v);
      if b: nat, e': nat, v': nat :| AssignmentText(u, n, b, e', v') && r == u[..b] + "=<secret:env>" {
        AssignmentWrites(u, n, b, e', v');
      }
    }
  }

  lemma {:induction false} SwapsAreReplace(i: nat, s: string, from: nat, swaps: seq<Swap>)
    requires i < 10 && AreSwaps(i, s, from, swaps)
    ensures Replace(Patterns()[i], WordBefore(s, from), s[from..]) == Swapped(s, from, swaps)
    decreases |swaps|
  {
    PatternTable();
    hide MatchLen, WordBefore, Replacement, Replace, Patterns, Reads, Writes;
    var p, stop := Patterns()[i], if swaps == [] then |s| else swaps[0].start;
    forall k: nat | from <= k < stop ensures MatchLen(p, WordBefore(s, k), s[k..]) == 0 {
      MatchIsLongestReading(i, s, k);
    }
    ReplaceSkips(p, s, from, stop);
    if swaps == [] {
      ReplaceEnd(p, s);
      assert s[from..stop] == s[from..];
    } else {
      var next := stop + swaps[0].len;
      MatchIsLongestReading(i, s, stop);
      ReadsInside(i, s, stop, swaps[0].len);
      ReadsSomething(i, s, stop);
      WritesIs(i, s, stop, swaps[0].len, swaps[0].written);
      ReplaceHit(p, s, stop, next);
      SwapsAreReplace(i, s, next, swaps[1..]);
    }
  }

  lemma ReadsInside(i: nat, s: string, k: nat, n: nat)
    requires Reads(i, s, k, n)
    ensures k + n <= |s|
  {
  }

  lemma {:induction false} SwapsExist(i: nat, s: string, from: nat) returns (swaps: seq<Swap>)
    requires i < 10 && from <= |s|
    ensures AreSwaps(i, s, from, swaps)
    decreases |s| - from
  {
    PatternTable();
    hide MatchLen, WordBefore, Replacement, Reads, Writes, Patterns;
    if from == |s| {
      swaps := [];
    } else {
      MatchIsLongestReading(i, s, from);
      var n := MatchLen(Patterns()[i], WordBefore(s, from), s[from..]);
      if n > 0 {
        var r := Replacement(Patterns()[i], s[from..]);
        WritesIs(i, s, from, n, r);
        var more := SwapsExist(i, s, from + n);
        swaps := [Swap(from, n, r)] + more;
        assert swaps[1..] == more;
      } else {
        swaps := SwapsExist(i, s, from + 1);
      }
    }
  }

  /** A pass is the replacement of the leftmost longest matches of its expression, and nothing else is. */
  lemma PassIs(i: nat, s: string, t: string)
    requires i < 10
    ensures IsPassOf(i, s, t) <==> t == Replace(Patterns()[i], false, s)
  {
    PatternTable();
    hide Patterns, Replace, Swapped, AreSwaps;
    assert s[0..] == s && !WordBefore(s, 0);
    if swaps :| AreSwaps(i, s, 0, swaps) && t == Swapped(s, 0, swaps) {
      SwapsAreReplace(i, s, 0, swaps);
    }
    if t == Replace(Patterns()[i], false, s) {
      var swaps := SwapsExist(i, s, 0);
      SwapsAreReplace(i, s, 0, swaps);
    }
  }

  /** `t` is `s` after the ten replacements, in the order of the table. */
  ghost predicate IsScrubbing(s: string, t: string) {
    exists texts: seq<string> :: AreScrubs(s, t, texts)
  }

  ghost predicate AreScrubs(s: string, t: string, texts: seq<string>) {
    && |texts| == 11 && texts[0] == s && texts[10] == t
    && forall i: nat :: i < 10 ==> IsPassOf(i, texts[i], texts[i + 1])
  }

  /** The texts between the passes. */
  function Between(s: string, k: nat): string
    requires k <= 10
  {
    if k == 0 then s else Replace(Patterns()[k - 1], false, Between(s, k - 1))
  }

  lemma {:induction false} ScrubFrom(s: string, k: nat)
    requires k <= 10
    ensures ScrubWith(Patterns()[k..], Between(s, k)) == Scrub(s)
    decreases k
  {
    PatternTable();
    hide Patterns, Replace;
    if k == 0 {
      assert Patterns()[0..] == Patterns();
    } else {
      ScrubFrom(s, k - 1);
      assert Patterns()[k - 1..][1..] == Patterns()[k..];
    }
  }

  /** The scrubber is the ten replacements in order, and nothing else is. */
  lemma ScrubIs(s: string, t: string)
    ensures IsScrubbing(s, t) <==> t == Scrub(s)
  {
    PatternTable();
    hide Patterns, Replace, IsPassOf, Scrub;
    ScrubFrom(s, 10);
    assert Patterns()[10..] == [];
    if texts :| AreScrubs(s, t, texts) {
      for k := 0 to 10
        invariant texts[k] == Between(s, k)
      {
        PassIs(k, texts[k], texts[k + 1]);
      }
    }
    if t == Scrub(s) {
      var texts := seq(11, k requires 0 <= k < 11 => Between(s, k));
      forall i: nat | i < 10 ensures IsPassOf(i, texts[i], texts[i + 1]) {
        PassIs(i, texts[i], texts[i + 1]);
      }
      assert AreScrubs(s, t, texts);
    }
  }

  /** Expression `i` matches somewhere in `s`. */
  ghost predicate Shows(i: nat, s: string) {
    exists k: nat, n: nat :: Reads(i, s, k, n)
  }

  /** The names, in the order of the table from `first` on, of the expressions that match somewhere. */
  ghost predicate IsReport(s: string, first: nat, hits: seq<string>) {
    && (forall i: nat :: first <= i < 10 ==> (NAMES[i] in hits <==> Shows(i, s)))
    && (forall a: nat :: a < |hits| ==> IsNameFrom(hits[a], first))
    && (forall a: nat, b: nat :: a < b < |hits| ==> Precedes(hits[a], hits[b]))
  }

  ghost predicate IsNameFrom(name: string, first: nat) {
    exists i: nat :: first <= i < 10 && name == NAMES[i]
  }

  ghost predicate Precedes(a: string, b: string) {
    exists i: nat, j: nat :: i < j < 10 && a == NAMES[i] && b == NAMES[j]
  }

  lemma NamesDiffer(i: nat, j: nat)
    requires i < j < 10
    ensures NAMES[i] != NAMES[j]
  {
    assert |NAMES[0]| == 14 && |NAMES[1]| == 13 && |NAMES[2]| == 18 && |NAMES[3]| == 14 && |NAMES[4]| == 14;
    assert |NAMES[5]| == 12 && |NAMES[6]| == 23 && |NAMES[7]| == 10 && |NAMES[8]| == 12 && |NAMES[9]| == 14;
    assert NAMES[0][0] == 'o' && NAMES[3][1] == 'e' && NAMES[4][0] == 'p' && NAMES[9][1] == 'n' && NAMES[3][0] == 'g';
    assert NAMES[5][0] == 'g' && NAMES[8][0] == 'b' && NAMES[9][0] == 'e';
  }

  lemma NameAt(i: nat)
    requires i < 10
    ensures Patterns()[i].Name() == NAMES[i]
  {
  }

  lemma CleanIff(i: nat, s: string)
    requires i < 10
    ensures Clean(Patterns()[i], false, s) <==> !Shows(i, s)
  {
    PatternTable();
    hide Patterns, Reads, MatchLen, Clean, WordBefore;
    var p := Patterns()[i];
    CleanIffNoOccurrence(p, s);
    if k: nat :| k < |s| && MatchLen(p, WordBefore(s, k), s[k..]) > 0 {
      MatchIsLongestReading(i, s, k);
      assert Reads(i, s, k, MatchLen(p, WordBefore(s, k), s[k..]));
    }
    if k: nat, n: nat :| Reads(i, s, k, n) {
      ReadsInside(i, s, k, n);
      ReadsSomething(i, s, k);
      MatchIsLongestReading(i, s, k);
    }
  }

  lemma {:induction false} ReportFrom(s: string, first: nat)
    requires first <= 10
    ensures IsReport(s, first, Survivors(Patterns()[first..], s))
    decreases 10 - first
  {
    PatternTable();
    hide Patterns, Clean, Shows, Precedes;
    if first < 10 {
      var p, rest := Patterns()[first], Survivors(Patterns()[first + 1..], s);
      ReportFrom(s, first + 1);
      CleanIff(first, s);
      NameAt(first);
      assert Patterns()[first..][1..] == Patterns()[first + 1..];
      ReportNext(s, first, rest);
      if Clean(p, false, s) {
        assert [] + rest == rest;
      }
    } else {
      assert Patterns()[10..] == [];
    }
  }

  lemma ReportNext(s: string, first: nat, rest: seq<string>)
    requires first < 10 && IsReport(s, first + 1, rest)
    ensures IsReport(s, first, if Shows(first, s) then [NAMES[first]] + rest else rest)
  {
    hide Shows;
    forall a: nat | a < |rest| ensures rest[a] != NAMES[first] && IsNameFrom(rest[a], first) && Precedes(NAMES[first], rest[a]) {
      assert IsNameFrom(rest[a], first + 1);
      var i: nat :| first + 1 <= i < 10 && rest[a] == NAMES[i];
      NamesDiffer(first, i);
    }
    forall i: nat | first < i < 10 ensures NAMES[i] != NAMES[first] {
      NamesDiffer(first, i);
    }
    hide Precedes;
    assert IsNameFrom(NAMES[first], first);
    hide IsNameFrom;
    var all := [NAMES[first]] + rest;
    assert forall a: nat :: 0 < a < |all| ==> all[a] == rest[a - 1];
  }

  /** The verifier names, in the order of the table, exactly the expressions that match somewhere. */
  lemma SurvivorsAre(s: string)
    ensures IsReport(s, 0, Survivors(Patterns(), s))
  {
    hide *;
    ReportFrom(s, 0);
    assert Patterns()[0..] == Patterns();
  }

  // ----- the two operations -----

  /** The loop over the table. */
  method ScrubSecrets(text: string) returns (out: string)
    ensures out == Scrub(text) && IsScrubbing(text, out)
  {
    ScrubIs(text, Scrub(text));
    hide Patterns, IsScrubbing;
    out := text;
    for i := 0 to |Patterns()|
      invariant ScrubWith(Patterns()[i..], out) == Scrub(text)
    {
      out := Replace(Patterns()[i], false, out);
      assert Patterns()[i..][1..] == Patterns()[i + 1..];
    }
  }

  /** The names of the expressions that match somewhere, in the order of the table. */
  method FindSecrets(text: string) returns (hits: seq<string>)
    ensures hits == Survivors(Patterns(), text) && IsReport(text, 0, hits)
  {
    SurvivorsAre(text);
    hide Patterns, Clean, IsReport;
    hits := [];
    for i := 0 to |Patterns()|
      invariant hits == Survivors(Patterns()[..i], text)
    {
      var p := Patterns()[i];
      assert Patterns()[..i + 1] == Patterns()[..i] + [p];
      SurvivorsAppend(Patterns()[..i], p, text);
      if !Clean(p, false, text) {
        hits := hits + [p.Name()];
      }
    }
    assert Patterns()[..|Patterns()|] == Patterns();
  }
}
